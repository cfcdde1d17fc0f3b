# PebbleDB in Dafny

A model of PebbleDB, a single-node LSM key-value store, and proofs about it. One question ties the
modules together: does every read, and every reopen after a crash, show the fold of the accepted
writes? `StoreTheorems` is the answer, over every run of one machine that joins group commit, durability
and the layers reads consult; `StoreAnswers` says the same in terms of the records alone, and the other
modules prove what lies under it.

- **Codecs**: `ByteStrings`, `Records`, `Wal`, `Manifest`, `ManifestRotation`, `TableFormat`.
- **Durability**: `Durability` is a state machine over the bytes of the log, the checkpoint file, the
  manifest set and the tables; a crash with any torn tail may come between any two steps.
  `DurabilityProofs`, `DurabilityTheorems` and `DurabilityWitness` reason about its runs, and
  `FlushEngine` holds the code whose methods are stretches of such runs. `GroupCommit` and `BatchFlusher`
  do the same for the batch flusher, `CommitProtocol` and `CommitWindows` for flush against compaction.
- **Reads**: `Merge`, `MergeReach`, `MergeIterators`, `ReadPath`, `Scan`, `Compaction`, `ReadsShowHistory`.
- **The whole store**: `StoreRuns`, `StoreTheorems`, `StoreAnswers`, and `CompactionRuns` for tables under
  compaction.
- **Tables**: `Bloom`, `BlockCache`, `TableLayout`, `TableWriter`, `TableReader`, `TableIterator`,
  `TableRoundTrip`, `ReaderLifecycle`.
- **Memtable**: `SkipListShape`, `Memtable`, `MemtableBatch`.
- **Verifier ordering**: `ModuleGraph`, `ModuleOrder`, `VerifierEngine`.

Conventions. The CRC and the FNV hash are function-valued parameters, so every theorem holds for any
checksum. Tower heights and map iteration order are arbitrary choices. A rename is one step. A goroutine
is a program counter in a state machine, and each locked section or atomic operation is one step. `nil`
and the empty byte string are the same value wherever the Go code copies one into the other.

Where the code does less than `docs/design/INVARIANTS.md` says, the model follows the code, gives the
failing run, and proves the condition under which the promise holds:

- D5 (log bytes before FreezeOffset are redundant) fails when two memtables are queued, because the
  second cutoff is not rebased after the first truncation, and when a leftover `wal.flush` meets a log
  that was already truncated. See `TruncationExact`, `LeftoverCheckpointExact` and the two witness runs.
- V1 (newest wins) fails after a compaction that appends the merged old tables last, for a live empty
  value in a table, and for a batch while it is being written. See `AppendLastExactly`, `GetIsOverlay`
  and `VisibleExactly`.
- V2 (no close under a reference) fails when a Ref overtakes an Unref that has counted down to zero and
  not yet looked at closePending. See `DoomedExactly`. Reads then skip the closed table silently.
- The merge takes the empty key for no key at all, though Put and Delete accept it, and stops reading every
  source listed up to the last one that holds it. So one deleted empty key can make a scan stale, and a
  compaction can lose whole tables. See `EmittedKeysExactly`, `ScanEqualsGetExactly`, `MergedTableExactly`,
  `EmptyKeyMakesScansStale` and `EmptyKeyWipesTables`; theorems about merges cover sources that hold it.
- A flush that commits or publishes while a compaction is between computing its list and swapping it in can
  vanish from the manifest or from memory. See `LosslessExactly`, `ManifestDropsExactly` and
  `MemoryDropsExactly`.
- The comment in `verifier/dag.go` says that modules absent from the graph run last; they run first
  (`RootsComeFirst`).

## Model

| member | source | states |
|---|---|---|
| `StoreAnswers.GetFindsLastWrite` | internal/db/get.go:21-114 | in every safe run, whenever the store is up, Get finds a value if and only if the last record of the key, among the applied durable ones and then the queued ones, puts it, and it is not empty or a record of the key is still in memory |
| `StoreAnswers.ScanYieldsLastWrites` | internal/db/scan.go:72-138 | in the same runs a scan from a non-empty start, or with the empty key in no layer, yields a pair if and only if its key is not before the start in dictionary order, is before the end if there is one, and the last record of the key puts that value; keys come in dictionary order, each once |
| `StoreTheorems.GetShowsHistory` | internal/db/get.go:21-76 | in every safe run of writers, batch flusher, flusher, crashes and reopens, at every moment the process is up, Get answers with the last of the applied durable records followed by the queued ones, exactly for the keys whose newest entry is not a live empty value in a table |
| `StoreTheorems.ScanShowsHistory` | internal/db/scan.go:81-138 | in the same runs a scan ascends, and shows a key of its range as that history has it if and only if what it can see of the key has the same live value as the newest entry; which is so for every key when it starts past the empty key or no layer holds that key |
| `StoreTheorems.GetShowsAccepted` | internal/db/batch.go:107-145 | measured against everything accepted, Get is right if and only if no record of the batch in flight is the newest of the key or that record would be answered the same |
| `StoreTheorems.GetAfterCrash` | internal/db/db.go:196-221 | after a crash with part of a batch and any torn tail written, and a safe reopen, Get answers with the last durable record of each key, with the same exact exception |
| `StoreTheorems.SyncedWritesSurvive` | internal/db/sync.go:3-34 | once a Sync or a waiting write of any process returned nil, the durable history begins, at every later moment and through any crashes and safe reopens, with what was durable at that open and everything accepted when the wait began; whenever the store is up that part is applied |
| `StoreTheorems.AppliedStays` | internal/db/db.go:196-221 | in every safe run the durable history only grows, and what was applied once is applied whenever the store is up again |
| `StoreTheorems.DisciplinedRunIsSafe` | internal/db/flush.go:170-198 | a run that freezes only while no earlier truncation is pending, and opens over no stale checkpoint, is safe, so all of the above holds of it |
| `StoreTheorems.DisciplinedReads` | internal/db/get.go:21-76 | the statement about Get for disciplined runs |
| `StoreTheorems.DisciplinedSyncs` | internal/db/sync.go:3-34 | the statement about Sync for disciplined runs |
| `StoreRuns.SafeRunKeepsStoreInv` | internal/db/batch.go:107-145 | at every moment of every safe run the layers that reads consult, changed only by the code's own operations on listings, stand for the memory of the durability machine, the table files for its tables, and the durable history is the base plus what group commit persisted |
| `StoreRuns.EventKeeps` | internal/db/flush.go:40-198 | each single event keeps that |
| `StoreRuns.OpenRepresents` | internal/db/db.go:184-237 | the replayed records upserted into an empty memtable, and the files of the live ids in ascending order, stand for what Open rebuilds |
| `StoreRuns.UpsertAllFacts` | internal/db/batch.go:119-130 | applying a batch record by record to the sorted listing of a memtable keeps it sorted and is the replay of the batch on the map it stands for |
| `ReadsShowHistory.GetIsOverlay` | internal/db/get.go:21-114 | the layered search equals one lookup in the tables, frozen memtables, active memtable and batch laid over each other, if and only if the newest entry is not a live empty value in a table |
| `ReadsShowHistory.NewestFirstIsOverlay` | internal/db/get.go:80-100 | searching listings newest first is looking the key up in their overlay, tombstones included |
| `ReadsShowHistory.BatchListingIsFold` | internal/db/batch.go:157-202 | the sorted snapshot of a batch means the same map as its records applied in order |
| `ReadsShowHistory.UpsertIsApply` | internal/db/batch.go:35-41 | a Put or Delete on the sorted listing of a memtable is the last-writer-wins update of the map it stands for |
| `ReadsShowHistory.LayersShowView` | internal/db/get.go:28-58 | the layers of a running process overlaid are the state machine's view with the queued batch on top |
| `ReadsShowHistory.GetInState` | internal/db/get.go:21-76 | of any state and layers that stand for it, Get answers with the applied history and the queue exactly when the newest entry is not a live empty value in a table |
| `ReadsShowHistory.NewestInState` | internal/db/scan.go:88-116 | the newest entry over all layers is the cell that history gives the key, tombstones included |
| `ByteStrings.LessIsStrictTotalOrder` | internal/memtable/skiplist.go:184-191 | the byte order used everywhere is a strict total order |
| `ByteStrings.LessIsPrecedes` | internal/memtable/skiplist.go:184-191 | one key is below another if and only if at the first position where they differ it ends or has the smaller byte |
| `ByteStrings.BigEndian32` | internal/wal/wal.go:98-105 | the value of four given bytes, most significant first |
| `ByteStrings.BigEndian64` | internal/sstable/footer.go:26-49 | the value of eight bytes, and that writing it back gives the same bytes |
| `ByteStrings.FieldLayout` | internal/wal/wal.go:98-102 | a length-prefixed string of any length: the low 32 bits of its length, then its bytes |
| `ByteStrings.Uint64RoundTrip` | internal/sstable/footer.go:26-49 | big-endian 64-bit fields read back, whatever follows them |
| `Records.OverlapIsHarmless` | internal/db/db.go:196-221 | replaying any stretch of the history again over a later state changes nothing as long as it runs up to the end |
| `Records.FoldIsLastWrite` | internal/db/batch.go:35-41 | applying records in order leaves a key exactly if some record has it, with what its last record says |
| `Wal.ReadOnePrefix` | internal/wal/wal.go:193-258 | what a read finds in a file it finds in any prefix that still holds that record |
| `Wal.ReadRaw` | internal/wal/wal.go:193-258 | any frame within the limits, whatever its flag byte, checksum and what follows: a record exactly if the checksum is right, a deletion exactly if the flag is one |
| `Wal.ReadRawTorn` | internal/wal/wal.go:193-258 | every strict prefix of any such frame is torn, never a record or an error |
| `Wal.ReplayOfTornLog` | internal/wal/wal.go:139-258 | any list of records within the limits, with any strict prefix of one further record behind it, replays to exactly the list and stops at the last record boundary, for any checksum |
| `Wal.CorruptionDropsSuffix` | internal/wal/wal.go:249-251 | a wrong checksum on any frame drops that frame and all bytes after it, without an error |
| `Wal.OverlongLengthFails` | internal/wal/wal.go:203-221 | after any good records a key, value or total length over its limit fails the replay with its error and is never taken for a torn tail |
| `Wal.RecoverExactly` | internal/wal/wal.go:139-191 | from any offset, records and part of one more give exactly the records and a file cut behind them, or the size error if the file is over its limit |
| `Wal.RecoverPastEnd` | internal/wal/wal.go:157-159 | a start at or past the end replays nothing and leaves the file alone |
| `Wal.ScanOfValidPrefix` | internal/wal/wal.go:139-191 | cutting any bytes at the reported end leaves a file that replays cleanly to the same records |
| `Wal.RecoverIdempotent` | internal/wal/wal.go:139-191 | replay with truncation, run again on its own result, gives the same records and changes nothing |
| `Wal.ReplayFromWithRecovery` | internal/wal/wal.go:139-191 | the loop over the file computes the recovery function: records, kept bytes and every error case |
| `Wal.CopyWalTail` | internal/wal/wal.go:344-371 | the chunked copy yields exactly the bytes from the cutoff on, or stops with a strict prefix of them at an offset where the read returns nothing |
| `Wal.Log.AppendBatch` | internal/wal/wal.go:60-107 | the file grows by the encodings of the records before the first whose key, value or total length, narrowed to 32 bits, is over its limit, of all of them if there is none; the error is the one for the length that is over, key before value before total |
| `Wal.EncodedExactly` | internal/wal/limits.go:56-68 | a record is encoded if and only if its narrowed lengths are within the three limits, thirteen bytes counted for the rest; otherwise which error |
| `Wal.FitsByDefault` | internal/wal/limits.go:5-11 | what fits under the default limits, in bytes |
| `Wal.Log.Truncate` | internal/wal/wal.go:300-342 | dropping a prefix leaves exactly the rest, or nothing if the file has no more; it fails only where a read of the tail returns nothing, and then leaves the file as it was |
| `DurabilityTheorems.SafeRunKeepsInv` | internal/db/flush.go:98-198 | in every safe run the live tables cover a history prefix, the log is a record-aligned suffix that meets or overlaps it, and queue, cutoffs and memtables line up with it |
| `DurabilityTheorems.ViewIsHistory` | internal/db/flush.go:98-152 | tables, queue and active memtable together show exactly the applied history, at every stage of a flush |
| `DurabilityTheorems.CrashRecovery` | internal/db/db.go:196-221 | after any safe run and any crash, a safe Open succeeds if and only if the log is within its size limit, and rebuilds exactly the map of all durable records in order |
| `DurabilityTheorems.DisciplinedRunIsSafe` | internal/db/flush.go:170-198 | freezing only while no earlier truncation is pending, and never opening over a stale checkpoint, makes every step of a run safe |
| `DurabilityTheorems.FreshIsSafe` | internal/db/wal_state.go:78-101 | a checkpoint that belongs to the present log file gives a replay start that misses nothing |
| `DurabilityTheorems.LeftoverCheckpointExact` | internal/db/wal_state.go:78-101 | over a log that was truncated already and holds the unflushed records with any torn tail, a leftover checkpoint is harmless if the log is shorter than FreezeOffset, and only if so unless the torn part alone reaches that offset |
| `DurabilityTheorems.ReplayStartExact` | internal/db/wal_state.go:78-101 | on any log of records with any torn tail, a checkpoint of a dead table or past the end skips nothing, and one of a live table at a record boundary skips exactly the records before it |
| `DurabilityTheorems.UnlistedHead` | internal/db/flush.go:141-151 | a table that is committed and not yet published hides nothing, because its memtable is still queued |
| `DurabilityProofs.TruncationExact` | internal/db/flush.go:170-182 | truncation leaves exactly the unflushed records if and only if the cutoff was taken against the present file or nothing was written since the freeze |
| `DurabilityProofs.RecoverFrom` | internal/db/db.go:196-221 | replay from any offset between the cut and the covered prefix returns the history from there on and repairs the file |
| `DurabilityProofs.TruncateLogKeeps` | internal/wal/wal.go:300-371 | a safe truncation keeps the invariant |
| `DurabilityProofs.CrashKeeps` | internal/db/flush.go:98-182 | a crash at any point, with part of a batch written and a torn record, keeps the invariant |
| `DurabilityProofs.OpenKeeps` | internal/db/db.go:108-237 | a safe Open re-establishes the invariant |
| `DurabilityWitness.TwoQueuedFreezesLoseData` | internal/db/flush.go:188-195 | a run with two queued freezes, a crash and a reopen whose view lacks a durable record |
| `DurabilityWitness.StaleCheckpointLosesData` | internal/db/wal_state.go:97-100 | a run with a leftover checkpoint over a regrown log whose reopen lacks a durable record |
| `FlushEngine.WalReplayStartOffset` | internal/db/wal_state.go:78-101 | from the bytes of wal.flush: an error exactly when the file is short; else the first word, if it is not negative, not past the end of the log, and the second names a live table; zero otherwise, as for a missing file or log |
| `FlushEngine.FlushStateRoundTrip` | internal/db/wal_state.go:24-66 | a written wal.flush reads back |
| `FlushEngine.ReplayInto` | internal/db/db.go:196-221 | the replay callback fills the memtable with the sorted listing of the records, which stands for their fold |
| `FlushEngine.HighestId` | internal/db/db.go:278-293 | the id counter restarts at the highest live id |
| `FlushEngine.OpenDB` | internal/db/db.go:108-237 | Open fails exactly when the manifest or a table does not load, wal.flush is short or replay fails, with that error; otherwise it is the Open step, with the replayed listing as memtable, the tables by id and the id counter at the highest |
| `FlushEngine.DB.ApplySynced` | internal/db/batch.go:119-145 | a synced batch is appended to the log, applied in order and frozen, with the size of the log, exactly when the bytes of the memtable with it exceed the limit |
| `FlushEngine.PutAll` | internal/db/batch.go:35-41 | the loop puts or deletes each record in the sorted listing |
| `FlushEngine.DB.ApplyRecords` | internal/db/batch.go:127-130 | applying the batch to the memtable is the apply step and keeps its listing sorted |
| `FlushEngine.DB.MaybeFlushLocked` | internal/db/flush.go:184-198 | freezes exactly when the counted bytes of the active memtable exceed the limit, with the size of the log as cutoff |
| `FlushEngine.DB.FlushImmutable` | internal/db/flush.go:98-168 | fails exactly when the table or the manifest commit does, and then leaves all but the id counter as it was; else the next id is live and listed last with the head's entries, and log and checkpoint are as the cleanup left them up to the operation that failed |
| `FlushEngine.DB.CommitToManifest` | internal/db/flush.go:141-145 | the commit step alone |
| `FlushEngine.DB.PublishReader` | internal/db/flush.go:148-151 | the publication step alone, after the commit |
| `FlushEngine.DB.CompleteWalAfterFlush` | internal/db/flush.go:170-182 | exactly checkpoint, truncate, remove, up to the one that fails |
| `FlushEngine.DB.DrainPendingFlush` | internal/db/flush.go:40-72 | for any failing attempts, exactly the attempts until every entry has committed, each popped once and only after its commit; as many new live tables as entries, listed after the old ones, and the queue empty at the end |
| `FlushEngine.FlusherIsInvisible` | internal/db/flush.go:40-182 | no stretch of flush steps changes what the process shows |
| `GroupCommit.Conservation` | internal/db/batch.go:45-145 | in every interleaving the accepted records are, once and in order, persisted, then in flight, then queued, and batchSizeBytes is the counted size of the queue |
| `GroupCommit.WireSizesAreBytes` | internal/db/batch.go:19-21 | the counted size of records is the number of bytes they take in the log |
| `GroupCommit.BarrierIsQuiet` | internal/db/batch_persist.go:34-40 | a Sync passes the barrier only while no batch is between the start of its append and its apply |
| `GroupCommit.ReturnMeansPersisted` | internal/db/sync.go:9-34 | a Sync that returned nil, or a write that waited and returned nil, leaves everything accepted up to its start persisted and applied as a prefix, at that moment and ever after |
| `GroupCommit.VisibleExactly` | internal/db/batch.go:107-145 | a read of a key shows the accepted writes if and only if no in-flight record is its newest or that record changes nothing |
| `GroupCommit.InFlightIsInvisible` | internal/db/batch.go:113-130 | a run in which an accepted write is in neither the queue nor the memtable |
| `BatchFlusher.DB.FlushPendingBatch` | internal/db/batch.go:107-145 | take, barrier, append, then apply or restore, barrier and reply are exactly that stretch of the run; ok exactly when there was nothing to write or append and apply succeed, and the batch ends persisted or back in front of what was queued meanwhile |
| `BatchFlusher.DB.Sync` | internal/db/sync.go:9-34 | the loop of rounds over any passes of the flusher returns nil exactly as `SyncSucceedsExactly` says; then the queue is empty and everything accepted is applied |
| `BatchFlusher.SyncSucceedsExactly` | internal/db/sync.go:14-33 | nil if and only if some round is the first after which nothing new is queued, and up to it the store is open and each round finds nothing or appends and applies |
| `BatchFlusher.ReachesKeepsInv` | internal/db/batch.go:45-145 | every stretch of such steps keeps the invariant of group commit |
| `BatchFlusher.DB.WriteRecord` | internal/db/write.go:5-31 | a background error or a closed store refuses and changes nothing; else the record is queued last, and the caller waits exactly if syncing, or the queue with it has 64 records, or takes 16384 bytes in the log, or those bytes and the memtable exceed its limit |
| `BatchFlusher.DB.TakePendingBatch` | internal/db/batch.go:45-53 | the take step: the whole queue, and a zero byte count |
| `BatchFlusher.DB.RestorePendingBatch` | internal/db/batch.go:57-62 | the failed-append step: the batch in front of what was queued since, and the bytes added back |
| `MergeReach.MergeTheorem` | internal/iterator/merge_core.go:9-74 | for any sorted sources and distinct priorities the merge emits strictly ascending keys, exactly the highest-priority entry of every key among what it reaches, and leaves out exactly the tombstone winners when asked |
| `MergeReach.MergedIsBest` | internal/iterator/merge_core.go:34-74 | an entry is emitted if and only if it has the highest priority of all entries of its key within reach: whole sources listed after the last one that holds the empty key, and of earlier sources the leading entries that keep in step with those |
| `MergeReach.MergedSorted` | internal/iterator/merge_core.go:34-74 | emitted keys ascend strictly and the empty key is not among them |
| `MergeReach.MergedIsReached` | internal/iterator/merge_core.go:34-88 | merging any sorted sources is merging what is within reach of them, whatever the empty key cuts off |
| `MergeReach.EmittedKeysExactly` | internal/iterator/merge_core.go:76-88 | a key is emitted if and only if a source listed after the last holder of the empty key holds it; with no such holder, any source |
| `Merge.PlainMergeIsBest` | internal/iterator/merge_core.go:34-74 | without the empty key an entry is emitted if and only if its source has the highest priority of all that hold the key |
| `Merge.StepShrinks` | internal/iterator/merge_core.go:34-74 | every step consumes an entry, so the merge ends |
| `Merge.WinnerExactly` | internal/iterator/merge_core.go:41-60 | of the sources that stand at the key the first of the highest priority wins, priorities below zero never, also when priorities repeat |
| `MergeReach.CompleteIffNoEmptyKey` | internal/iterator/merge_core.go:36-39 | no best entry is missed if and only if no source holds the empty key |
| `MergeIterators.FromExact` | internal/db/scan.go:191-197 | seeking a sorted listing leaves exactly the entries at or after the target |
| `MergeIterators.SliceIter.Next` | internal/db/scan.go:184-189 | one entry on, and nothing past the end |
| `MergeIterators.SliceIter.Seek` | internal/db/scan.go:191-197 | the first entry not below the target |
| `MergeIterators.MinKeyAcrossSources` | internal/iterator/merge_core.go:76-88 | the least head key of the valid sources, as the scan finds it |
| `MergeIterators.PickWinner` | internal/iterator/merge_core.go:41-60 | the highest-priority head at the key, and which sources to advance |
| `MergeIterators.AdvanceAll` | internal/iterator/merge_core.go:62-66 | exactly the sources that stand at the key advance by one |
| `MergeIterators.MergeStep` | internal/iterator/merge_core.go:34-74 | the next emitted entry, with the iterators left at the rest of the merge |
| `MergeIterators.ForEachMerged` | internal/iterator/merge_core.go:9-29 | the callback sees exactly the merge |
| `ReadPath.LookupPendingBatch` | internal/db/batch.go:157-169 | scanning from the end finds what the batch's sorted listing holds |
| `ReadPath.SnapshotPendingBatch` | internal/db/batch.go:171-202 | the map-and-sort snapshot is the sorted last-write listing, in whatever order the map is ranged over |
| `ReadPath.SearchFromEnd` | internal/db/get.go:46-55 | the first hit from the newest frozen memtable |
| `ReadPath.LookupSSTReaders` | internal/db/get.go:80-100 | the loop over readers with their filters: closed ones are passed over, a failing one ends the search |
| `ReadPath.LookupExactly` | internal/db/get.go:80-100 | the search fails if and only if a failing reader that passes its filter comes before every hit; else it answers as newest-first search over the readers in working order |
| `ReadPath.FineLookup` | internal/db/get.go:80-100 | with all readers in working order and filters without false negatives it is newest-first search over the tables |
| `ReadPath.GetKey` | internal/db/get.go:21-76 | a closed store refuses; memory answers whatever the readers do; else the tables decide, with their failure reported; all in the order of Get |
| `ReadPath.FreezeTransparent` | internal/db/flush.go:184-198 | freezing changes no answer |
| `ReadPath.PublishTransparent` | internal/db/flush.go:148-151 | publishing the head's table changes no answer |
| `ReadPath.PopTransparentExactly` | internal/db/flush.go:65-69 | popping after publication changes no answer except exactly for a live empty value that only the head holds |
| `ReadPath.EarlyPopLosesHead` | internal/db/flush.go:40-72 | popping before publication loses every key only the head held |
| `ReadPath.FlushAllTransparentExactly` | internal/db/flush.go:40-152 | flushing any number of queued memtables changes an answer if and only if the queue held a live empty value as newest entry |
| `Scan.PrioritiesFollowAge` | internal/db/scan.go:88-116 | priorities are distinct and ordered by age while queue and tables number at most a million, and collide beyond that |
| `Scan.ScanIsNewestSeen` | internal/db/scan.go:81-138 | from any start, over any sorted layers, a scan yields, sorted, exactly the live newest entries of the keys in the range among what the merge reaches of the sought layers |
| `Scan.SeesAll` | internal/db/scan.go:81-138 | a scan that starts past the empty key, or with no layer that holds it, sees the newest entry of every key in its range |
| `Scan.SeesLateSources` | internal/db/scan.go:81-138 | otherwise it sees the newest entry of every key whose newest entry lies in a layer listed after the last holder of the empty key |
| `Scan.GetIsNewestLive` | internal/db/get.go:21-76 | Get finds exactly the live newest entry over all layers, save a live empty value in a table |
| `Scan.ScanYields` | internal/db/scan.go:81-138 | a pair is scanned if and only if its key is in the range and it is the live value of what is seen |
| `Scan.ScanEqualsGetExactly` | internal/db/scan.go:81-138 | scan and Get agree on a range if and only if no key in it is misread: its newest entry is a live empty value in a table, or what the scan sees has another live value than the newest entry |
| `Scan.MisreadWithoutEmptyKey` | internal/db/scan.go:81-138 | past the empty key, a key is misread if and only if its newest entry is a live empty value in a table |
| `Scan.UnseenKeysVanish` | internal/iterator/merge_core.go:76-88 | from the beginning, a key that no layer after the last holder of the empty key has is not seen at all, so the scan misreads it if and only if Get finds it |
| `Scan.EmptyKeyMakesScansStale` | internal/iterator/merge_core.go:76-88 | layers in which one deleted empty key makes a scan yield a stale value that Get does not |
| `Scan.TakeBelowExact` | internal/db/scan.go:25-36 | the end bound keeps exactly the entries below it |
| `Scan.MergeIterator.Seek` | internal/iterator/merge.go:34-44 | every source is sought and the merge of the rests stands at its first live entry |
| `Scan.MergeIterator.Next` | internal/iterator/merge.go:62-67 | one live entry on |
| `Scan.MergeIterator.Advance` | internal/iterator/merge.go:84-106 | the first live entry of the rest becomes current |
| `Scan.BuildSources` | internal/db/scan.go:88-116 | the sources and priorities in the code's order |
| `Scan.ScanRange` | internal/db/scan.go:81-138 | opening a scan and draining it gives the scan list, in dictionary order and within its bounds |
| `Scan.ScanInByteRange` | internal/db/scan.go:25-36 | the keys of a scan ascend byte by byte, none before the start, all before the end if there is one |
| `Scan.Drain` | internal/db/scan.go:25-48 | Next until Valid fails yields the entries below the end |
| `Compaction.MergedTableAnswers` | internal/sstable/merge_adapter.go:28-48 | the merged table is sorted and answers every key as newest-first search over what the merge reaches of its inputs, tombstones included; all of them when none holds the empty key |
| `Compaction.MergedTableExactly` | internal/sstable/merge_adapter.go:28-48 | it answers every key as its inputs did if and only if none of them holds the empty key |
| `Compaction.EmptyKeyWipesTables` | internal/sstable/merge_adapter.go:28-48 | of two tables, a newer one with the empty key empties the merge, an older one with it is lost itself |
| `Compaction.InPlaceExactly` | internal/db/compactor.go:75-81 | in the place of its inputs it would preserve a lookup if and only if a newer table answers it, or the reached and the whole inputs agree with the older tables behind them; always when no input holds the empty key |
| `Compaction.AppendLastExactly` | internal/db/compactor.go:75-81 | appended last it preserves a lookup if and only if the key is neither held, with another newest entry, by a remaining table too, nor answered by the inputs alone and mangled by the empty key; without the empty key a shadowed key gets the old entry |
| `Compaction.DisjointKeysPreserved` | internal/db/compactor.go:75-81 | keys on one side only keep their answer when no input holds the empty key |
| `Compaction.CompactionCanHideNewerValue` | internal/db/compactor.go:75-81 | four tables in which a compaction makes a newer live value disappear |
| `CompactionRuns.SparedKeysKeepTheirAnswer` | internal/db/compactor.go:37-129 | in every run of flushes and compactions whose intervals do not overlap, with failures, crashes and reopens anywhere, a key that no committed compaction shadowed or dropped is answered by the manifest's tables with its newest flushed record, and by the list in memory once the flush is listed; no listed file has been removed |
| `CompactionRuns.SteadyKeysAreSpared` | internal/db/compactor.go:37-129 | if every flush that writes a key writes the same record for it and none writes the empty key, no compaction of such a run shadows or drops it |
| `CompactionRuns.EventKeeps` | internal/db/compactor.go:57-129 | each single step keeps that |
| `CompactionRuns.KeptIsCompacted` | internal/db/compactor.go:67-81 | the list that a compaction commits holds the remaining tables and last the merge of the two oldest |
| `Compaction.PickSSTables` | internal/db/compaction.go:36-50 | the two oldest tables once the threshold is reached, else none |
| `Compaction.ReadersStillPresent` | internal/db/compaction.go:52-66 | true exactly when every picked reader is listed |
| `Compaction.MergeReaders` | internal/sstable/merge_adapter.go:28-48 | the iterators over the readers are merged to the merged table |
| `CommitProtocol.SeparateCommitsAgree` | internal/db/compactor.go:57-112 | in every run whose flush and compaction intervals do not overlap, the list ascends, matches the manifest between commits, and reopens to itself |
| `CommitWindows.LosslessExactly` | internal/db/compactor.go:63-112 | in every run no compaction step loses a table that the compaction did not pick, in the manifest or in memory, if and only if every window is clean: no flush stands committed and unlisted when the list is computed or commits before the manifest commit, and none publishes before the swap |
| `CommitWindows.ManifestDropsExactly` | internal/db/compactor.go:63-92 | a manifest commit drops, besides the picked, exactly the tables whose flush stood committed when the list was computed or committed since |
| `CommitWindows.MemoryDropsExactly` | internal/db/compactor.go:63-112 | a swap drops, besides the picked, exactly the tables published since the list was computed |
| `CommitWindows.CommitKeepsExactly` | internal/db/compactor.go:63-92 | the commit loses nothing if and only if there is no such flush |
| `CommitWindows.SwapKeepsExactly` | internal/db/compactor.go:63-112 | the swap loses nothing if and only if there is no such table |
| `CommitWindows.ListedUntilReplaced` | internal/db/compactor.go:63-112 | in a run of clean windows a table once listed stays listed until a compaction that picked it swaps, and live until that compaction commits |
| `CommitProtocol.RollbackNeverRuns` | internal/db/compactor.go:99-108 | in every run the picked tables are still listed, so the rollback branch is dead |
| `CommitProtocol.OverlapDropsFlushedTable` | internal/db/compactor.go:63-112 | from any quiet state with two tables an overlapping flush can vanish from list and manifest |
| `CommitProtocol.OverlapReordersTables` | internal/db/compaction.go:85 | an overlap can leave a list that reopens in another order |
| `CommitProtocol.ReopenSame` | internal/manifest/manifest.go:200-209 | from an agreeing quiet state, reopening loads the same list |
| `CommitProtocol.Tables.DoCompaction` | internal/db/compactor.go:37-129 | run alone it compacts exactly when threshold and count allow, replaces the two oldest by a new id at the end, and keeps the agreement |
| `CommitProtocol.DropPicked` | internal/db/compactor.go:71-80 | the rebuilt list is the old one without the picked |
| `Manifest.IdsRoundTrip` | internal/manifest/format.go:32-40 | any id list reads back |
| `Manifest.ApplyEncoded` | internal/manifest/format.go:25-101 | decoding an encoded edit has the effect of the edit on any live set |
| `Manifest.ReplayOfTornManifest` | internal/manifest/manifest.go:108-161 | any edits followed by any strict prefix of another replay to the live set before that edit, and truncate to the boundary |
| `Manifest.CorruptionDropsSuffix` | internal/manifest/manifest.go:124-143 | after any edits, a frame with a wrong checksum, a length below four or past the end stops the replay at the boundary before it, without an error and whatever follows |
| `Manifest.BadEditFails` | internal/manifest/format.go:62-101 | after any edits, a frame with a right checksum fails the replay if and only if its payload is empty, of no known kind or too short for its kind |
| `Manifest.EditBytes` | internal/manifest/format.go:9-40 | the bytes of each kind of edit and their effect |
| `Manifest.ReplayLog` | internal/manifest/manifest.go:108-161 | the loop computes that replay, torn and corrupt cases included |
| `ManifestRotation.CurrentAlwaysRecovers` | internal/manifest/manifest.go:242-346 | in every run of appends, rotations and crashes the file that CURRENT names replays to the live set |
| `ManifestRotation.Log.Append` | internal/manifest/manifest.go:242-255 | one edit, on disk and in memory |
| `ManifestRotation.Log.AppendNewFile` | internal/manifest/manifest.go:212-216 | the live set gains the id |
| `ManifestRotation.LiveIDs` | internal/manifest/manifest.go:284-291 | the live set in ascending order, whatever order the map is ranged over |
| `ManifestRotation.SortIds` | internal/manifest/manifest.go:219-221 | an ascending permutation of the ids |
| `ManifestRotation.Log.AppendSetFileSet` | internal/manifest/manifest.go:219-228 | the live set becomes the ids, and the record lists them in ascending order |
| `ManifestRotation.Log.MaybeCompact` | internal/manifest/manifest.go:263-282 | rotates exactly at a threshold, keeps the live set, and leaves a file that recovers it |
| `ManifestRotation.Log.RotateSnapshot` | internal/manifest/manifest.go:296-346 | a file of one record, the live set in ascending order, becomes current and the old one goes |
| `SkipListShape.SpliceKeepsLinks` | internal/memtable/skiplist.go:80-92 | splicing a node of any height after its predecessors keeps every level linked to the next tower that reaches it |
| `SkipListShape.LevelsNest` | internal/memtable/skiplist.go:45-95 | each level is a sublist of the one below |
| `SkipListShape.LevelSorted` | internal/memtable/skiplist.go:45-95 | each level is sorted |
| `Memtable.LessThan` | internal/memtable/skiplist.go:184-191 | the byte loop decides the order |
| `Memtable.EqualTo` | internal/memtable/skiplist.go:193-203 | the byte loop decides equality |
| `Memtable.UpsertByRank` | internal/memtable/skiplist.go:45-95 | overwriting or inserting at the place the search finds is the sorted-map update |
| `Memtable.FindByRank` | internal/memtable/skiplist.go:100-120 | the place the search finds decides the lookup |
| `Memtable.SizeOfUpsert` | internal/memtable/skiplist.go:60-94 | an update adds key, value and eight bytes for a new key, else the difference of the values |
| `Memtable.SkipList.constructor` | internal/memtable/skiplist.go:25-34 | an empty valid list |
| `Memtable.SkipList.Descend` | internal/memtable/skiplist.go:49-58 | the descent finds the rank of the key and its predecessor on every level |
| `Memtable.SkipList.Put` | internal/memtable/skiplist.go:45-95 | for any tower height the contents become the sorted-map update, with every level and the length exact, and the size grown by key, value and eight bytes for a new key, else by the difference of the values |
| `Memtable.SkipList.Delete` | internal/memtable/skiplist.go:123-166 | the same with a tombstone, also for an absent or already deleted key; the size grows by key and eight bytes or shrinks by the old value |
| `Memtable.SkipList.Get` | internal/memtable/skiplist.go:100-120 | value, found and tombstone agree with the map |
| `Memtable.SkipList.Snapshot` | internal/memtable/snapshot.go:12-28 | the sorted listing |
| `Memtable.SkipList.Levels` | internal/memtable/skiplist.go:45-166 | in every valid state each level is a sorted sublist of the one below and the ground level is everything |
| `MemtableBatch.ApplyRecord` | internal/db/batch.go:35-41 | a record put into or deleted from the skip list updates its contents as the listing of a memtable is updated elsewhere in the model |
| `MemtableBatch.ApplyBatch` | internal/db/batch.go:127-130 | so does a batch, and the size of the skip list is that of the listing |
| `Memtable.SkipListIterator.Next` | internal/memtable/iterator.go:27-31 | one entry on |
| `Memtable.SkipListIterator.Seek` | internal/memtable/iterator.go:34-50 | exactly the entries at or after the key remain |
| `Bloom.AddedPass` | internal/bloom/bloom.go:40-73 | after any adds every added key passes, under 64-bit wrap-around |
| `Bloom.SetOnlyByAdded` | internal/bloom/bloom.go:40-54 | a bit is set if and only if it was or some added key probes it |
| `Bloom.ProbedIsMarked` | internal/bloom/bloom.go:44-52 | the probes of a key: the hash plus steps of its upper half, wrapping at 64 bits, modulo the number of bits |
| `Bloom.ByteOfBits` | internal/bloom/bloom.go:50-51 | bit i of a byte is worth two to the i |
| `Bloom.EncodeLayout` | internal/bloom/bloom.go:76-83 | number of hash functions, number of bits, bits |
| `Bloom.DecodedExactly` | internal/bloom/bloom.go:86-107 | what decodes to a filter and what is refused |
| `Bloom.EncodeExact` | internal/bloom/bloom.go:76-107 | a filter sized as New sizes it reads back if and only if it has fewer than two to the 32 bits |
| `Bloom.Builder.constructor` | internal/bloom/bloom.go:18-37 | an empty filter of the given size |
| `Bloom.Builder.Add` | internal/bloom/bloom.go:40-54 | exactly the key's probes are set in place |
| `Bloom.MayContain` | internal/bloom/bloom.go:57-73 | true exactly when every probe is set |
| `BlockCache.BytesBounded` | internal/sstable/cache.go:32-77 | after any operations the stored bytes are within the limit, though the counter only ever runs ahead |
| `BlockCache.AddKeeps` | internal/sstable/cache.go:55-77 | an add widens the gap between counter and contents by exactly the silently evicted block |
| `BlockCache.ShrinkExactly` | internal/sstable/cache.go:70-76 | the eviction loop drops the fewest oldest blocks that bring the counter within the limit, or all |
| `BlockCache.RoomForAll` | internal/sstable/cache.go:55-77 | an add that fits evicts nothing |
| `BlockCache.HitIsYoungest` | internal/sstable/cache.go:48-53 | a hit becomes the youngest and the others keep their order |
| `BlockCache.AddIsYoungest` | internal/sstable/cache.go:62-68 | what is added or replaced becomes the youngest, the others keep their order, and past the entry cap exactly the oldest goes |
| `BlockCache.NewLimits` | internal/sstable/cache.go:32-42 | the default limit and the room for entries, in numbers |
| `BlockCache.CounterDrifts` | internal/sstable/cache.go:55-77 | two adds after which the counter is too high |
| `BlockCache.AddAgrees` | internal/sstable/cache.go:55-77 | a cache that agrees with the files still does after an add of a file's block |
| `BlockCache.GetAgrees` | internal/sstable/cache.go:48-53 | a hit is the file's block |
| `BlockCache.Shared.GetBlock` | internal/sstable/cache.go:48-53 | lookup and recency in place |
| `BlockCache.Shared.AddBlock` | internal/sstable/cache.go:55-77 | replacement, silent eviction and the eviction loop in place |
| `TableFormat.ReadBack` | internal/sstable/block.go:21-99 | an appended entry reads back, whatever follows |
| `TableFormat.ReadRaw` | internal/sstable/block.go:71-99 | any bytes in the form of an entry read as it, a deletion exactly if the flag is one |
| `TableFormat.ReadShort` | internal/sstable/block.go:71-99 | a strict prefix of an entry is none |
| `TableFormat.IndexRoundTrip` | internal/sstable/index.go:24-35 | any index reads back |
| `TableFormat.CutIndexIsCorrupt` | internal/sstable/reader.go:129-157 | an index that ends inside an entry is corrupt |
| `TableFormat.DecodeIndexBytes` | internal/sstable/reader.go:129-157 | the loop decodes, or reports corruption, as the index format says |
| `TableFormat.FooterRoundTrip` | internal/sstable/footer.go:26-49 | any footer reads back |
| `TableLayout.BlockAt` | internal/sstable/writer.go:74-91 | index entry i gives the last key of block i and the place of its bytes |
| `TableLayout.FindInBlock` | internal/sstable/reader.go:172-178 | a key is in the entries exactly when it is in the block that the index search selects |
| `TableWriter.AcceptedExactly` | internal/sstable/writer.go:57-59 | the order check keeps out every unsorted listing except those that repeat the empty key |
| `TableWriter.Writer.constructor` | internal/sstable/writer.go:22-43 | nothing written yet |
| `TableWriter.Writer.Add` | internal/sstable/writer.go:56-72 | both errors exactly when they occur, nothing written then, else the entry last; blocks cut to size and only when full, index, last key, offset and filter kept |
| `TableWriter.Writer.FlushBlock` | internal/sstable/writer.go:74-91 | the current block becomes an indexed block of the file |
| `TableWriter.Writer.Close` | internal/sstable/writer.go:93-145 | data, index, filter and footer in this order with the right offsets |
| `TableWriter.WriteTable` | internal/db/flush.go:115-131 | a listing is written if and only if the order check accepts it and lengths fit; the blocks hold exactly it, none over the block size unless a single entry, none cut before the next entry would be over it, and every key passes the filter |
| `TableReader.OpensAsWritten` | internal/sstable/reader.go:32-102 | OpenReader accepts every written table and recovers its index and filter |
| `TableReader.OpensExactly` | internal/sstable/reader.go:32-102 | a file opens if and only if magic and version are right, the index region lies before the footer and decodes, and the filter region, if any, lies between them and decodes; wrong magic and version have their own errors |
| `TableReader.Search` | internal/sstable/reader.go:172-174 | the binary search finds the first last key not below the key |
| `TableReader.ReadBlock` | internal/sstable/reader.go:105-127 | the block is the file's bytes, from the cache or not, and the cache stays in agreement; a closed file still serves exactly what is cached |
| `TableReader.BlockIterator.Next` | internal/sstable/block.go:71-99 | one entry read, or the end or a corrupt tail reported |
| `TableReader.BlockIterator.Seek` | internal/sstable/block.go:118-131 | the first entry not below the target |
| `TableReader.Get` | internal/sstable/reader.go:168-194 | for every key the answer is lookup in the entries; filter and cache never change it |
| `TableIterator.Iterator.constructor` | internal/sstable/iterator.go:21-25 | the iterator has all entries before it |
| `TableIterator.Iterator.Advance` | internal/sstable/iterator.go:115-140 | the next entry, across block boundaries |
| `TableIterator.Iterator.Next` | internal/sstable/iterator.go:59-64 | one entry on, and nothing past the end |
| `TableIterator.Iterator.Seek` | internal/sstable/iterator.go:67-107 | from any state and any target exactly the entries at or after the target remain |
| `TableRoundTrip.WrittenTableHolds` | internal/sstable/reader.go:32-102 | a written table opens to one that holds its entries behind a filter without false negatives |
| `TableRoundTrip.WriteAndOpen` | internal/db/flush.go:110-139 | for every sorted listing of fitting lengths and any positive block size, writing and opening succeed and hold exactly the listing |
| `TableRoundTrip.MergeSSTables` | internal/db/compaction.go:68-109 | the merged file opens and answers every key as newest-first search over what the merge reaches of its inputs, which is all of them without the empty key |
| `ReaderLifecycle.OrderlyRunIsSafe` | internal/sstable/reader.go:196-244 | in every interleaving of the atomic steps where no Ref overtakes an Unref at zero, the file is never closed while a reference is held |
| `ReaderLifecycle.DoomedExactly` | internal/sstable/reader.go:202-206 | in every reachable state, the others can close the file under a reader without a new Ref if and only if a reference is held and it is closed already or some goroutine stands past a zero count |
| `ReaderLifecycle.RefOvertakesUnref` | internal/sstable/reader.go:196-227 | a run of two readers and a Discard that closes the file under the second reader |
| `ReaderLifecycle.ClosedAtMostOnce` | internal/sstable/reader.go:229-244 | the file is closed at most once, in every reachable state |
| `ReaderLifecycle.ClosedInTheEnd` | internal/sstable/reader.go:202-227 | once Close or Discard began and all goroutines are done, the file is closed |
| `ReaderLifecycle.RemovedExactly` | internal/sstable/reader.go:220-244 | after a Discard the file is gone if and only if discardPending was stored before the closing goroutine looked |
| `ReaderLifecycle.RemovalMissed` | internal/sstable/reader.go:220-227 | a run in which nobody removes the file |
| `ReaderLifecycle.Reader.Borrow` | internal/sstable/reader.go:196-206 | undisturbed, the Ref and Unref around a lookup leave the count as it was, and the file closed exactly when it was closed before or closing is pending and nobody else holds it |
| `ReaderLifecycle.Reader.DropRef` | internal/sstable/reader.go:202-206 | undisturbed, Unref closes exactly when it is the last and closing is pending, and then removes exactly when discarding |
| `ReaderLifecycle.Reader.Shut` | internal/sstable/reader.go:209-227 | undisturbed, Close and Discard close exactly when nobody holds a reference, and Discard then removes |
| `ReaderLifecycle.Reader.CloseTheFile` | internal/sstable/reader.go:229-244 | closes once and removes exactly when discarding |
| `ModuleGraph.ResolvesExactlyWhenAcyclic` | internal/db/acceptance/framework/verifier/dag.go:19-89 | an order is found if and only if the registered modules have no dependency cycle |
| `ModuleGraph.ResolvedIsTopological` | internal/db/acceptance/framework/verifier/dag.go:56-88 | it is a permutation of the registered modules with every dependency first |
| `ModuleGraph.StuckHasCycle` | internal/db/acceptance/framework/verifier/dag.go:85-87 | modules that all wait for each other contain a cycle |
| `ModuleGraph.RootsComeFirst` | internal/db/acceptance/framework/verifier/dag.go:56-62 | all modules without registered dependencies come first, in registration order |
| `ModuleOrder.SortByRegOrder` | internal/db/acceptance/framework/verifier/dag.go:102-114 | the in-place insertion sort yields a permutation sorted by rank |
| `ModuleOrder.SortedIsSelect` | internal/db/acceptance/framework/verifier/dag.go:73-82 | so freed modules stand in registration order whatever order they were freed in |
| `ModuleOrder.BuildGraph` | internal/db/acceptance/framework/verifier/dag.go:32-54 | for any iteration order, a self-dependency is reported if and only if there is one, else lists, edges and indegrees describe the registered dependencies with repeats |
| `ModuleOrder.Release` | internal/db/acceptance/framework/verifier/dag.go:74-80 | indegrees drop by the number of edges, and exactly the modules that reach zero are freed, once each |
| `ModuleOrder.RunKahn` | internal/db/acceptance/framework/verifier/dag.go:56-83 | the loop computes the deterministic order |
| `ModuleOrder.ResolveModuleOrder` | internal/db/acceptance/framework/verifier/dag.go:19-89 | the answer is a function of registry and graph, independent of map iteration order |
| `VerifierEngine.BelowPassesDirectly` | internal/db/acceptance/framework/verifier/engine.go:213-230 | all transitive dependencies pass if and only if every direct one passes and has passing ones below |
| `VerifierEngine.FirstUnhealthyDep` | internal/db/acceptance/framework/verifier/dag.go:93-100 | the first unhealthy dependency, or the empty string exactly when there is none |
| `VerifierEngine.RunOrder` | internal/db/acceptance/framework/verifier/engine.go:198-272 | the loop over a resolved order marks exactly the modules that failed or were skipped, and stops early if and only if the context is cancelled at some module or one that may run reports an error |
| `VerifierEngine.RunModules` | internal/db/acceptance/framework/verifier/engine.go:198-272 | whatever ran came after all its transitive dependencies, which all passed; without an abort a module runs if and only if they do; when it aborts is given exactly |

## Left out

- Compaction is not part of the machine with the log: `StoreTheorems` is about runs without it, and `CompactionRuns` about runs of tables with crashes and reopens, where flushed records are given.
- Failed appends that leave part of a record in the middle of the log, failed fsync, failed rename and a failed size query of the log.
- Timers, channels, retry delays, Close with its timeouts, and any liveness claim; workers are enabled steps.
- Background error joining, directory locks, orphan quarantine, file names, BootstrapIfEmpty, environment and command line.
- The zero-value defaults of the log limits; the model starts from the limits in force.
- The floating-point sizing of the Bloom filter; its size and number of hash functions are parameters.
- The LRU library behind the block cache beyond recency order and its silent entry-count eviction.
- A footer whose index length makes the allocation itself fail; the model counts it as a failed read.
- The rest of the acceptance framework, and export.go, which runs the batch flusher's work outside the batch flusher.
- SliceIter: merges and scans are proved over positions in listings; `TableIterator.Iterator` and `Memtable.SkipListIterator` are proved to have the same Next and Seek behaviour, not substituted for it.
- WriteTable: asks for a table far below two to the 63 bytes, so that file offsets do not wrap.
- Writer.Add: asks for a file below two to the 63 bytes, so that offsets do not wrap.
- Writer.Close: asks for a file below two to the 63 bytes, so that offsets do not wrap.
- WriteAndOpen: asks for a table far below two to the 63 bytes, so that file offsets do not wrap.
- MergeReaders: merges listings; `TableIterator.Iterator` is proved to deliver a table's listing in order, and is not substituted.
- BytesBounded: asks for a limit of at least 256 bytes; below that NewBlockCache asks the LRU library for room for no entry and drops its error, and the library's answer is not part of this model.
- OpenDB: whether manifest and tables load is an input; directory creation, lock and orphan removal are not modelled.
- WalReplayStartOffset: errors of the file system other than a missing file.
- LeftoverCheckpointExact: one direction when the torn part of the log alone reaches FreezeOffset; and it speaks of a log cut at what is flushed, the state after a truncation.
- MaybeCompact: asks for a live set whose snapshot fits the 32-bit record length, as does RotateSnapshot; a rotation that fails is the AbortRotation step of `CurrentAlwaysRecovers`.
- RotateSnapshot: asks for a live set whose snapshot fits the 32-bit record length.
- SparedKeysKeepTheirAnswer: one direction over whole runs, since a later compaction may restore an answer; each single compaction is exact in `AppendLastExactly`.
- ScanShowsHistory: asks for at most a million queued memtables and tables; `PrioritiesFollowAge` shows that priorities collide beyond.
- WriteRecord: the size of the active memtable is an input; `FlushEngine.DB` computes it.

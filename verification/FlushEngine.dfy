/** The flush, checkpoint and open code, each method a stretch of a run of the durability state machine. */
module FlushEngine {
  import opened ByteStrings
  import opened Records
  import opened TableIds
  import opened Wal
  import opened Durability
  import opened DurabilityProofs
  import opened DurabilityTheorems
  import opened DurabilityWitness
  import opened ReadsShowHistory
  import R = StoreRuns
  import Memtable
  import ReadPath

  /** wal.flush on disk: two big-endian words, the offset as a signed one. */
  const FLUSH_STATE_SIZE := 16
  const TWO_63: int := 0x8000_0000_0000_0000

  function EncodeFlushState(offset: uint64, sst: uint64): Bytes {
    PutUint64(offset) + PutUint64(sst)
  }

  /** The file that stands for a checkpoint; no file can be longer than a signed offset says. */
  ghost predicate HoldsState(file: Option<Bytes>, checkpoint: Option<Checkpoint>) {
    match checkpoint
    case None => file.None?
    case Some(c) => c.offset < TWO_63 && c.sst < 2 * TWO_63 && file == Some(EncodeFlushState(c.offset, c.sst))
  }

  lemma FlushStateRoundTrip(offset: uint64, sst: uint64)
    ensures var d := EncodeFlushState(offset, sst);
      |d| == FLUSH_STATE_SIZE && Uint64(d[..8]) == offset && Uint64(d[8..16]) == sst
  {
    var d := EncodeFlushState(offset, sst);
    assert d[..8] == PutUint64(offset) && d[8..16] == PutUint64(sst);
    Uint64RoundTrip(offset, []);
    Uint64RoundTrip(sst, []);
  }

  /** `walReplayStartOffset`, from the bytes of wal.flush, the live set and the size of the log file, if it exists. */
  method WalReplayStartOffset(file: Option<Bytes>, live: set<nat>, walSize: Option<nat>)
    returns (start: nat, corrupt: bool)
    ensures corrupt <==> file.Some? && |file.value| < 16
    ensures corrupt || file.None? || walSize.None? ==> start == 0
    ensures file.Some? && |file.value| >= 16 && walSize.Some? ==>
      var offset, sst := Uint64(file.value[..8]), Uint64(file.value[8..16]);
      start == if sst in live && offset < 0x8000_0000_0000_0000 && offset <= walSize.value then offset else 0
    ensures forall d: Disk :: HoldsState(file, d.checkpoint) && d.live == live && walSize == Some(|d.wal|) ==>
      !corrupt && start == ReplayStart(d)
    ensures start <= if walSize.None? then 0 else walSize.value
  {
    if file.None? { return 0, false; }
    var data := file.value;
    if |data| < FLUSH_STATE_SIZE { return 0, true; }
    var word, sst := Uint64(data[..8]), Uint64(data[8..16]);
    forall c: Checkpoint | HoldsState(file, Some(c)) ensures word == c.offset && sst == c.sst {
      FlushStateRoundTrip(c.offset, c.sst);
    }
    var offset := if word < TWO_63 then word else word - 2 * TWO_63;
    if sst !in live { return 0, false; }
    if offset < 0 { return 0, false; }
    if walSize.None? { return 0, false; }
    if walSize.value < offset { return 0, false; }
    return offset, false;
  }

  /** The replay callback of `Open`, record by record into a fresh memtable. */
  method ReplayInto(records: seq<Record>) returns (memtable: seq<Record>)
    ensures memtable == R.UpsertAll([], records) && Sorted(memtable) && TableOf(memtable) == Fold(records)
  {
    memtable := PutAll([], records);
    NothingListed();
    R.UpsertAllFacts([], records);
  }

  /** `applyRecordToMemtable` in a loop: Put or Delete of each record. */
  method PutAll(memtable: seq<Record>, records: seq<Record>) returns (after: seq<Record>)
    ensures after == R.UpsertAll(memtable, records)
  {
    after := memtable;
    var i := 0;
    while i < |records|
      invariant 0 <= i <= |records|
      invariant R.UpsertAll(after, records[i..]) == R.UpsertAll(memtable, records)
    {
      after := Upsert(after, ReadPath.Clean(records[i]));
      assert records[i..][1..] == records[i + 1..];
      i := i + 1;
    }
  }

  /** The id bookkeeping of `loadSSTables`. */
  method HighestId(ids: seq<nat>, ghost live: set<nat>) returns (next: nat)
    requires ids == SortedIds(live)
    ensures next == if live == {} then 0 else MaxId(live)
  {
    hide SortedIds;
    next := 0;
    var k := 0;
    while k < |ids|
      invariant 0 <= k <= |ids|
      invariant next == 0 || next in ids
      invariant forall j :: 0 <= j < k ==> ids[j] <= next
    {
      if ids[k] > next { next := ids[k]; }
      k := k + 1;
    }
    if live != {} { assert MaxId(live) in ids; }
  }

  /** Why `Open` fails: the manifest or a table does not load, wal.flush is short, or replay refuses the log. */
  datatype OpenError = NotLoaded | CorruptFlushState | NotReplayed(error: Error)

  /** `Open` on a directory whose manifest and tables load or not: it succeeds exactly when they load, wal.flush is not
      short and replay is enabled, and is then the Open action. */
  method OpenDB(format: Format, d: Disk, file: Option<Bytes>, ids: seq<nat>, loads: bool, down: State)
    returns (db: DB?, err: Option<OpenError>)
    requires down.mem.None? && down.disk == d && ids == SortedIds(d.live)
    requires HoldsState(file, d.checkpoint) || (file.Some? && |file.value| < FLUSH_STATE_SIZE)
    ensures db != null <==> loads && HoldsState(file, d.checkpoint) && Enabled(format, down, Open)
    ensures err.Some? <==> db == null
    ensures err == Some(NotLoaded) <==> !loads
    ensures err == Some(CorruptFlushState) <==> loads && !HoldsState(file, d.checkpoint)
    ensures err.Some? && err.value.NotReplayed? ==>
      Recover(format, d.wal, ReplayStart(d)) == RecoveryFailed(err.value.error)
    ensures db != null ==> fresh(db) && db.format == format && db.St() == Step(format, down, Open)
    ensures db != null ==>
      var r := Recover(format, d.wal, ReplayStart(d));
      && r.Recovered? && db.wal == r.file && db.active == R.UpsertAll([], r.records) && db.pendingFlush == []
      && db.sstables == ids && db.live == d.live && db.tables == d.tables && db.checkpoint == d.checkpoint
      && (forall id :: id in d.live ==> id <= db.nextSSTID) && (db.nextSSTID in d.live || db.nextSSTID == 0)
  {
    if !loads { return null, Some(NotLoaded); }
    var start, corrupt := WalReplayStartOffset(file, d.live, Some(|d.wal|));
    if corrupt { return null, Some(CorruptFlushState); }
    var recovery := ReplayFromWithRecovery(format, d.wal, start);
    if recovery.RecoveryFailed? { return null, Some(NotReplayed(recovery.error)); }
    var memtable := ReplayInto(recovery.records);
    var next := HighestId(ids, d.live);
    db := new DB.Load(format, d.(wal := recovery.file), memtable, ids, next, down);
    err := None;
  }

  /** The file without its first bytes; nothing if it has no more. */
  function CutFront(file: Bytes, at: nat): Bytes {
    if at <= |file| then file[at..] else []
  }

  lemma CutFrontIsTruncate(file: Bytes, at: nat)
    ensures TruncateBefore(file, at) == CutFront(file, at)
  {
  }

  class DB {
    const format: Format
    // disk
    var wal: Bytes
    var checkpoint: Option<Checkpoint>
    var live: set<nat>
    var tables: map<nat, Table>
    // process
    var active: seq<Record>
    var pendingFlush: seq<Queued>
    var sstables: seq<nat>
    var nextSSTID: nat
    // bookkeeping of the state machine, never read by a branch
    var unapplied: seq<Record>
    var stage: Stage
    var history: seq<Record>
    var cut: nat
    var covered: nat

    ghost function St(): State
      reads this
    {
      State(Disk(wal, checkpoint, live, tables),
        Some(Mem(TableOf(active), unapplied, pendingFlush, sstables, nextSSTID, stage)),
            history, cut, covered)
    }

    constructor Load(format: Format, d: Disk, active: seq<Record>, ids: seq<nat>, next: nat, down: State)
      ensures this.format == format && this.active == active
      ensures St() == State(d, Some(Mem(TableOf(active), [], [], ids, next, Idle)), down.history, down.cut,
        down.covered)
    {
      this.format := format;
      this.wal, this.checkpoint, this.live, this.tables := d.wal, d.checkpoint, d.live, d.tables;
      this.active, this.pendingFlush, this.sstables, this.nextSSTID := active, [], ids, next;
      this.unapplied, this.stage := [], Idle;
      this.history, this.cut, this.covered := down.history, down.cut, down.covered;
    }

    /** The write half of `flushPendingBatch`, once AppendBatch has synced the batch: the memtable is frozen when its
        bytes, counted as the skip list counts them, exceed the limit. */
    method ApplySynced(batch: seq<Record>, memtableSize: int) returns (shouldFlush: bool, ghost acts: seq<Action>)
      requires AllFit(format, batch) && unapplied == [] && Sorted(active)
      modifies `wal, `active, `pendingFlush, `unapplied, `history
      ensures shouldFlush <==> Memtable.SizeOf(R.UpsertAll(old(active), batch)) > memtableSize
      ensures acts == [Persist(batch), ApplyBatch] + (if shouldFlush then [Freeze] else [])
      ensures Reaches(format, old(St()), acts, St())
      ensures unapplied == [] && stage == old(stage) && Sorted(active)
      ensures wal == old(wal) + EncodeAll(format, batch) && history == old(history) + batch
      ensures shouldFlush ==>
        && active == []
        && pendingFlush == old(pendingFlush) +
             [Queued(TableOf(R.UpsertAll(old(active), batch)), |wal|, cut, |history|)]
      ensures !shouldFlush ==> active == R.UpsertAll(old(active), batch) && pendingFlush == old(pendingFlush)
    {
      hide Step, Enabled, Reaches, Sorted, TableOf;
      ghost var s := St();
      PersistBatch(batch);
      ghost var s1 := St();
      ApplyRecords(batch);
      Two(format, s, Persist(batch), s1, ApplyBatch, St());
      shouldFlush, acts := MaybeFlushLocked(memtableSize, s, [Persist(batch), ApplyBatch]);
    }

    method PersistBatch(batch: seq<Record>)
      requires AllFit(format, batch) && unapplied == []
      modifies `wal, `unapplied, `history
      ensures wal == old(wal) + EncodeAll(format, batch) && history == old(history) + batch
      ensures Enabled(format, old(St()), Persist(batch)) && St() == Step(format, old(St()), Persist(batch))
      ensures unapplied == batch && stage == old(stage) && active == old(active) && Enabled(format, St(), ApplyBatch)
    {
      wal := wal + EncodeAll(format, batch);
      unapplied, history := batch, history + batch;
    }

    /** The batch goes into the memtable, record by record. */
    method ApplyRecords(batch: seq<Record>)
      requires unapplied == batch && Enabled(format, St(), ApplyBatch) && Sorted(active)
      modifies `active, `unapplied
      ensures St() == Step(format, old(St()), ApplyBatch) && unapplied == [] && stage == old(stage)
      ensures active == R.UpsertAll(old(active), batch) && Sorted(active)
    {
      R.UpsertAllFacts(active, batch);
      active := PutAll(active, batch);
      unapplied := [];
    }

    /** `maybeFlushLocked`: freeze the active memtable and remember the current size of the log. */
    method MaybeFlushLocked(memtableSize: int, ghost s0: State, ghost done: seq<Action>)
      returns (frozen: bool, ghost acts: seq<Action>)
      requires unapplied == [] && Reaches(format, s0, done, St()) && Sorted(active)
      modifies `active, `pendingFlush
      ensures frozen ==>
        active == [] && pendingFlush == old(pendingFlush) + [Queued(TableOf(old(active)), |wal|, cut, |history|)]
      ensures !frozen ==> active == old(active) && pendingFlush == old(pendingFlush)
      ensures frozen <==> Memtable.SizeOf(old(active)) > memtableSize
      ensures acts == done + (if frozen then [Freeze] else []) && Reaches(format, s0, acts, St())
      ensures unapplied == [] && stage == old(stage) && Sorted(active)
    {
      acts := done;
      if Memtable.SizeOf(active) <= memtableSize {
        assert done + [] == done;
        return false, acts;
      }
      ghost var s := St();
      pendingFlush := pendingFlush + [Queued(TableOf(active), |wal|, cut, |history|)];
      active := [];
      One(format, s, Freeze, St());
      ReachesAppend(format, s0, done, s, [Freeze], St());
      return true, done + [Freeze];
    }

    /** `flushImmutable` with at most one failing file operation; it reports an error only before the commit. */
    method FlushImmutable(fault: Fault) returns (failed: bool, ghost acts: seq<Action>)
      requires pendingFlush != [] && stage == Idle
      modifies `wal, `checkpoint, `live, `tables, `sstables, `nextSSTID, `stage, `cut, `covered
      ensures nextSSTID == old(nextSSTID) + 1
      ensures failed ==> wal == old(wal) && checkpoint == old(checkpoint) && live == old(live)
      ensures failed ==> sstables == old(sstables) && tables == old(tables) - {nextSSTID}
      ensures !failed ==> live == old(live) + {nextSSTID} && sstables == old(sstables) + [nextSSTID]
      ensures !failed ==> tables == old(tables)[nextSSTID := old(pendingFlush)[0].mem]
      ensures var entry := old(pendingFlush)[0];
        !failed ==>
          && wal == (if fault == WriteState || fault == Truncate then old(wal) else CutFront(old(wal), entry.cutoff))
          && checkpoint == (if fault == WriteState then old(checkpoint)
                            else if fault == Truncate || fault == RemoveState
                            then Some(Checkpoint(entry.cutoff, nextSSTID, entry.from, entry.upto)) else None)
      ensures failed <==> fault == TableOrManifest
      ensures Flushes(format, old(St()), acts, St()) && acts == FlushActions(fault)
      ensures pendingFlush == old(pendingFlush) && stage == if failed then Idle else Done
    {
      hide Flushes, CleanupActions, Step, Enabled, CutFront, St;
      ghost var s := St();
      acts := NoAction(format, s);
      var entry, id := pendingFlush[0], nextSSTID + 1;
      acts := WriteTableFile(s, acts, entry, id);
      if fault == TableOrManifest {
        acts := RemoveTableFile(s, acts, id);
        assert old(tables)[id := entry.mem] - {id} == old(tables) - {id};
        return true, acts;
      }
      acts := CommitToManifest(s, acts, entry, id);
      acts := PublishReader(s, acts, id);
      acts := CompleteWalAfterFlush(s, acts, entry, id, fault);
      return false, acts;
    }

    method WriteTableFile(ghost s0: State, ghost done: seq<Action>, entry: Queued, id: nat)
      returns (ghost acts: seq<Action>)
      requires pendingFlush != [] && entry == pendingFlush[0] && stage == Idle && id == nextSSTID + 1 &&
        Flushes(format, s0, done, St())
      modifies `nextSSTID, `tables, `stage
      ensures nextSSTID == id && tables == old(tables)[id := entry.mem]
      ensures Flushes(format, s0, acts, St()) && acts == done + [WriteTable]
      ensures pendingFlush == old(pendingFlush) && stage == Written(id)
    {
      hide Flushes;
      ghost var s := St();
      nextSSTID, tables, stage := id, tables[id := entry.mem], Written(id);
      acts := Then(format, s0, done, s, WriteTable, St());
    }

    method RemoveTableFile(ghost s0: State, ghost done: seq<Action>, id: nat) returns (ghost acts: seq<Action>)
      requires stage == Written(id) && Flushes(format, s0, done, St())
      modifies `tables, `stage
      ensures tables == old(tables) - {id}
      ensures Flushes(format, s0, acts, St()) && acts == done + [DropTable]
      ensures pendingFlush == old(pendingFlush) && stage == Idle
    {
      hide Flushes;
      ghost var s := St();
      tables, stage := tables - {id}, Idle;
      acts := Then(format, s0, done, s, DropTable, St());
    }

    method CommitToManifest(ghost s0: State, ghost done: seq<Action>, entry: Queued, id: nat)
      returns (ghost acts: seq<Action>)
      requires pendingFlush != [] && entry == pendingFlush[0] && stage == Written(id) && Flushes(format, s0, done, St())
      modifies `live, `stage, `covered
      ensures live == old(live) + {id}
      ensures Flushes(format, s0, acts, St()) && acts == done + [CommitTable]
      ensures pendingFlush == old(pendingFlush) && stage == Committed(id)
    {
      hide Flushes;
      ghost var s := St();
      live, stage, covered := live + {id}, Committed(id), entry.upto;
      acts := Then(format, s0, done, s, CommitTable, St());
    }

    method PublishReader(ghost s0: State, ghost done: seq<Action>, id: nat) returns (ghost acts: seq<Action>)
      requires stage == Committed(id) && Flushes(format, s0, done, St())
      modifies `sstables, `stage
      ensures sstables == old(sstables) + [id]
      ensures Flushes(format, s0, acts, St()) && acts == done + [PublishTable]
      ensures pendingFlush == old(pendingFlush) && stage == Published(id)
    {
      hide Flushes;
      ghost var s := St();
      sstables, stage := sstables + [id], Published(id);
      acts := Then(format, s0, done, s, PublishTable, St());
    }

    /** `completeWalAfterFlush`; a failure leaves the rest of the cleanup undone. */
    method CompleteWalAfterFlush(ghost s0: State, ghost done: seq<Action>, entry: Queued, id: nat, fault: Fault)
      returns (ghost acts: seq<Action>)
      requires pendingFlush != [] && entry == pendingFlush[0] && stage == Published(id) &&
        Flushes(format, s0, done, St())
      modifies `wal, `checkpoint, `stage, `cut
      ensures wal == if fault == WriteState || fault == Truncate then old(wal) else CutFront(old(wal), entry.cutoff)
      ensures checkpoint == if fault == WriteState then old(checkpoint)
                            else if fault == Truncate || fault == RemoveState
                            then Some(Checkpoint(entry.cutoff, id, entry.from, entry.upto)) else None
      ensures Flushes(format, s0, acts, St()) && acts == done + CleanupActions(fault)
      ensures pendingFlush == old(pendingFlush) && stage == Done
    {
      hide Flushes, Step, Enabled;
      CleanupInOrder(done);
      if fault == WriteState {
        acts := SkipRest(s0, done);
        return;
      }
      acts := WriteWalFlushState(s0, done, entry, id);
      if fault == Truncate {
        acts := SkipRest(s0, acts);
        return;
      }
      acts := TruncateWal(s0, acts, entry, id);
      if fault == RemoveState {
        acts := SkipRest(s0, acts);
        return;
      }
      acts := RemoveWalFlushState(s0, acts, id);
    }

    /** A cleanup step failed: the error is recorded and the flush still counts as done. */
    method SkipRest(ghost s0: State, ghost done: seq<Action>) returns (ghost acts: seq<Action>)
      requires stage.Published? || stage.Marked? || stage.Truncated?
      requires Flushes(format, s0, done, St())
      modifies `stage
      ensures Flushes(format, s0, acts, St()) && acts == done + [SkipCleanup]
      ensures pendingFlush == old(pendingFlush) && stage == Done
    {
      hide Flushes;
      ghost var s := St();
      stage := Done;
      acts := Then(format, s0, done, s, SkipCleanup, St());
    }

    method WriteWalFlushState(ghost s0: State, ghost done: seq<Action>, entry: Queued, id: nat)
      returns (ghost acts: seq<Action>)
      requires pendingFlush != [] && entry == pendingFlush[0] && stage == Published(id) &&
        Flushes(format, s0, done, St())
      modifies `checkpoint, `stage
      ensures checkpoint == Some(Checkpoint(entry.cutoff, id, entry.from, entry.upto))
      ensures Flushes(format, s0, acts, St()) && acts == done + [WriteCheckpoint]
      ensures pendingFlush == old(pendingFlush) && stage == Marked(id)
    {
      hide Flushes;
      ghost var s := St();
      checkpoint, stage := Some(Checkpoint(entry.cutoff, id, entry.from, entry.upto)), Marked(id);
      acts := Then(format, s0, done, s, WriteCheckpoint, St());
    }

    method TruncateWal(ghost s0: State, ghost done: seq<Action>, entry: Queued, id: nat)
      returns (ghost acts: seq<Action>)
      requires pendingFlush != [] && entry == pendingFlush[0] && stage == Marked(id) && Flushes(format, s0, done, St())
      modifies `wal, `stage, `cut
      ensures wal == CutFront(old(wal), entry.cutoff)
      ensures Flushes(format, s0, acts, St()) && acts == done + [TruncateLog]
      ensures pendingFlush == old(pendingFlush) && stage == Truncated(id)
    {
      hide Flushes, TruncateBefore;
      ghost var s1 := St();
      CutFrontIsTruncate(wal, entry.cutoff);
      wal, stage, cut := TruncateBefore(wal, entry.cutoff), Truncated(id), entry.upto;
      acts := Then(format, s0, done, s1, TruncateLog, St());
    }

    method RemoveWalFlushState(ghost s0: State, ghost done: seq<Action>, id: nat) returns (ghost acts: seq<Action>)
      requires stage == Truncated(id) && Flushes(format, s0, done, St())
      modifies `checkpoint, `stage
      ensures checkpoint == None
      ensures Flushes(format, s0, acts, St()) && acts == done + [RemoveCheckpoint]
      ensures pendingFlush == old(pendingFlush) && stage == Done
    {
      hide Flushes;
      ghost var s2 := St();
      checkpoint, stage := None, Done;
      acts := Then(format, s0, done, s2, RemoveCheckpoint, St());
    }

    /** `drainPendingFlush`: flush the head until the queue is empty; the listed attempts fail, later ones do not. */
    method DrainPendingFlush(faults: seq<Fault>) returns (ghost acts: seq<Action>)
      requires stage == Idle
      modifies `wal, `checkpoint, `live, `tables, `sstables, `nextSSTID, `pendingFlush, `stage, `cut, `covered
      ensures |sstables| == |old(sstables)| + |old(pendingFlush)| && old(sstables) <= sstables
      ensures forall i :: |old(sstables)| <= i < |sstables| ==> sstables[i] in live && sstables[i] > old(nextSSTID)
      ensures pendingFlush == [] && stage == Idle
      ensures Flushes(format, old(St()), acts, St()) && acts == DrainActions(|old(pendingFlush)|, faults)
    {
      hide Flushes, FlushActions, DrainActions;
      ghost var s := St();
      var left := faults;
      acts := NoAction(format, s);
      while pendingFlush != []
        invariant stage == Idle && nextSSTID >= old(nextSSTID)
        invariant old(sstables) <= sstables && |sstables| + |pendingFlush| == |old(sstables)| + |old(pendingFlush)|
        invariant forall i :: |old(sstables)| <= i < |sstables| ==> sstables[i] in live && sstables[i] > old(nextSSTID)
        invariant Flushes(format, s, acts, St())
        invariant acts + DrainActions(|pendingFlush|, left) == DrainActions(|old(pendingFlush)|, faults)
        decreases |pendingFlush| + |left|
      {
        ghost var t := St();
        DrainStep(acts, |pendingFlush|, left);
        var fault := NextFault(left);
        left := LaterFaults(left);
        var failed, more := FlushImmutable(fault);
        acts := FlushesAppend(format, s, acts, t, more, St());
        if !failed { acts := PopHead(s, acts); }
      }
      DrainNothing(acts, left);
    }

    method PopHead(ghost s0: State, ghost done: seq<Action>) returns (ghost acts: seq<Action>)
      requires pendingFlush != [] && stage == Done && Flushes(format, s0, done, St())
      modifies `pendingFlush, `stage
      ensures Flushes(format, s0, acts, St()) && acts == done + [Pop]
      ensures pendingFlush == old(pendingFlush)[1..] && stage == Idle
    {
      hide Flushes;
      ghost var s := St();
      pendingFlush, stage := pendingFlush[1..], Idle;
      acts := Then(format, s0, done, s, Pop, St());
    }
  }

  /** The file operation that fails during a flush, if any. */
  datatype Fault = Nothing | TableOrManifest | WriteState | Truncate | RemoveState

  /** What follows the publication: checkpoint, truncation and removal, up to the operation that fails. */
  function CleanupActions(fault: Fault): seq<Action> {
    match fault
    case WriteState => [SkipCleanup]
    case Truncate => [WriteCheckpoint, SkipCleanup]
    case RemoveState => [WriteCheckpoint, TruncateLog, SkipCleanup]
    case _ => [WriteCheckpoint, TruncateLog, RemoveCheckpoint]
  }

  /** One attempt at the head of the queue; before the commit a failure takes the table back. */
  function FlushActions(fault: Fault): seq<Action> {
    if fault == TableOrManifest then [WriteTable] + [DropTable]
    else [WriteTable] + [CommitTable] + [PublishTable] + CleanupActions(fault)
  }

  function NextFault(faults: seq<Fault>): Fault {
    if faults == [] then Nothing else faults[0]
  }

  function LaterFaults(faults: seq<Fault>): seq<Fault> {
    if faults == [] then [] else faults[1..]
  }

  /** Attempts until n entries are popped; only an attempt that committed pops its entry. */
  function DrainActions(n: nat, faults: seq<Fault>): seq<Action>
    decreases n + |faults|
  {
    var fault, later := NextFault(faults), LaterFaults(faults);
    if n == 0 then []
    else FlushActions(fault) + if fault == TableOrManifest then DrainActions(n, later)
      else [Pop] + DrainActions(n - 1, later)
  }

  lemma DrainStep(done: seq<Action>, n: nat, faults: seq<Fault>)
    requires n > 0
    ensures var fault, later := NextFault(faults), LaterFaults(faults);
      done + DrainActions(n, faults) ==
        if fault == TableOrManifest then done + FlushActions(fault) + DrainActions(n, later)
        else done + FlushActions(fault) + [Pop] + DrainActions(n - 1, later)
  {
    hide FlushActions;
  }

  lemma DrainNothing(done: seq<Action>, faults: seq<Fault>)
    ensures done + DrainActions(0, faults) == done
  {
  }

  lemma CleanupInOrder(done: seq<Action>)
    ensures done + [WriteCheckpoint] + [SkipCleanup] == done + CleanupActions(Truncate)
    ensures done + [WriteCheckpoint] + [TruncateLog] + [SkipCleanup] == done + CleanupActions(RemoveState)
    ensures done + [WriteCheckpoint] + [TruncateLog] + [RemoveCheckpoint] == done + CleanupActions(Nothing)
  {
  }

  /** Actions of the flusher thread. */
  ghost predicate FlushOnly(acts: seq<Action>) {
    forall a :: a in acts ==> !a.Persist? && !a.ApplyBatch? && !a.Freeze? && !a.Crash? && !a.Open?
  }

  /** A stretch of a run made by the flusher thread alone. */
  ghost predicate Flushes(f: Format, s: State, acts: seq<Action>, t: State) {
    Reaches(f, s, acts, t) && FlushOnly(acts)
  }

  lemma NoAction(f: Format, s: State) returns (acts: seq<Action>)
    ensures Flushes(f, s, acts, s) && acts == []
  {
    acts := [];
  }

  lemma Then(f: Format, s: State, acts: seq<Action>, t: State, a: Action, u: State) returns (acts': seq<Action>)
    requires Flushes(f, s, acts, t) && Enabled(f, t, a) && u == Step(f, t, a) && FlushOnly([a])
    ensures Flushes(f, s, acts', u) && acts' == acts + [a]
  {
    hide Step, Enabled;
    One(f, t, a, u);
    ReachesAppend(f, s, acts, t, [a], u);
    acts' := acts + [a];
  }

  lemma FlushesAppend(f: Format, s: State, a: seq<Action>, t: State, b: seq<Action>, u: State)
    returns (acts: seq<Action>)
    requires Flushes(f, s, a, t) && Flushes(f, t, b, u)
    ensures Flushes(f, s, acts, u) && acts == a + b
  {
    hide Reaches;
    ReachesAppend(f, s, a, t, b, u);
    acts := a + b;
  }

  /** Whatever faults it meets, a flusher working on current cutoffs keeps the invariant and the view of every key. */
  lemma {:induction false} FlusherIsInvisible(f: Format, s: State, acts: seq<Action>, t: State)
    requires Flushes(f, s, acts, t) && Inv(f, s) && CutoffsCurrent(s) && s.mem.Some?
    ensures Inv(f, t) && CutoffsCurrent(t)
    ensures t.mem.Some? && ListedTablesExist(s) && ListedTablesExist(t) && View(t) == View(s)
    decreases |acts|
  {
    hide Inv, CutoffsCurrent, View, Fold, Step, Enabled;
    if acts == [] {
      ViewIsHistory(f, s);
    } else {
      var a := acts[0];
      assert a in acts && forall b :: b in acts[1..] ==> b in acts;
      var s' := Step(f, s, a);
      FlushActionFacts(f, s, a);
      DisciplineStep(f, s, a);
      StepKeeps(f, s, a);
      FlusherIsInvisible(f, s', acts[1..], t);
      ViewIsHistory(f, s);
      ViewIsHistory(f, s');
    }
  }

  lemma FlushActionFacts(f: Format, s: State, a: Action)
    requires Enabled(f, s, a) && FlushOnly([a])
    ensures var t := Step(f, s, a);
      && Disciplined(s, a) && s.mem.Some? && t.mem.Some? && t.history == s.history
      && t.mem.value.unapplied == s.mem.value.unapplied
  {
    assert a in [a];
  }
}

/**
 * Flush, compaction, crash and reopen over tables with contents. A run whose flushes and compactions do not overlap
 * answers a key with its newest flushed record for as long as no compaction shadows or drops that key.
 */
module CompactionRuns {
  import opened ByteStrings
  import opened Records
  import opened TableIds
  import opened ReadPath
  import opened MergeReach
  import opened Compaction
  import opened ReadsShowHistory
  import opened CommitProtocol
  import R = StoreRuns
  import Merge
  import Scan

  /** The commit protocol with the listing in every table file, the discarded files not yet removed, the records of
      the flush under way and the records of all committed flushes. */
  datatype Store =
    Store(s: State, files: map<nat, seq<Record>>, trash: set<nat>, writing: seq<Record>, flushed: seq<Record>)

  datatype Event =
    | Flush(records: seq<Record>)  // a frozen memtable of these records gets an id and a table file
    | Do(a: Action)
    | Discard(id: nat)             // the file of a compacted table goes away

  ghost predicate Enabled(t: Store, e: Event) {
    match e
    case Flush(_) => CommitProtocol.Enabled(t.s, FlushAllocate)
    case Do(a) => !a.FlushAllocate? && CommitProtocol.Enabled(t.s, a)
    case Discard(id) => id in t.trash
  }

  ghost function ProtocolStep(t: Store, e: Event): State
    requires Enabled(t, e)
  {
    match e
    case Flush(_) => CommitProtocol.Step(t.s, FlushAllocate)
    case Do(a) => CommitProtocol.Step(t.s, a)
    case Discard(_) => t.s
  }

  ghost function FilesAfter(t: Store, e: Event): map<nat, seq<Record>> {
    match e
    case Flush(records) => t.files[t.s.nextId + 1 := R.UpsertAll([], records)]
    case Discard(id) => t.files - {id}
    case Do(a) =>
      if a.FlushFail? && t.s.flush.Allocated? then t.files - {t.s.flush.id}
      else if a.CompactMerge? && t.s.compact.Picked?
      then t.files[t.s.nextId + 1 := MergedTable(R.Listings(t.files, t.s.compact.picked))]
      else if a.CompactFail? && (t.s.compact.MergedTo? || t.s.compact.Listed?) then t.files - {t.s.compact.id}
      else t.files
  }

  ghost function Step(t: Store, e: Event): Store
    requires Enabled(t, e)
  {
    Store(ProtocolStep(t, e), FilesAfter(t, e),
      if e == Do(Reopen) then {} else if e == Do(CompactSwap) then t.trash + Elements(t.s.compact.picked) else t.trash,
      if e.Flush? then e.records else t.writing,
      if e == Do(FlushCommit) then t.flushed + t.writing else t.flushed)
  }

  ghost function Empty(): Store {
    Store(Initial(), map[], {}, [], [])
  }

  ghost predicate IsRun(ts: seq<Store>, es: seq<Event>) {
    && |ts| == |es| + 1 && ts[0] == Empty()
    && forall i :: 0 <= i < |es| ==> Enabled(ts[i], es[i]) && ts[i + 1] == Step(ts[i], es[i])
  }

  /** What the tables of these ids, oldest first, answer. */
  function Shown(files: map<nat, seq<Record>>, ids: seq<nat>, key: Bytes): Option<Cell> {
    CellOfHit(FirstHit(Reverse(R.Listings(files, ids)), key))
  }

  /** The compaction that commits here leaves the answer of the key alone. */
  ghost predicate Spares(t: Store, e: Event, key: Bytes) {
    e == Do(CompactCommit) && |t.s.list| >= PICK_COUNT ==>
      var tables := R.Listings(t.files, t.s.list);
      |tables| >= PICK_COUNT ==> !Shadowed(tables, key) && !Dropped(tables, key)
  }

  // ----- listings ---------------------------------------------------------------------------------------

  ghost predicate Filed(files: map<nat, seq<Record>>, ids: seq<nat>) {
    forall i :: 0 <= i < |ids| ==> ids[i] in files && Sorted(files[ids[i]])
  }

  ghost predicate SameFiles(before: map<nat, seq<Record>>, after: map<nat, seq<Record>>, ids: seq<nat>) {
    forall i :: 0 <= i < |ids| ==> ids[i] in before && ids[i] in after && before[ids[i]] == after[ids[i]]
  }

  lemma {:induction false} ListingsAt(files: map<nat, seq<Record>>, ids: seq<nat>)
    requires Filed(files, ids)
    ensures |R.Listings(files, ids)| == |ids| && AllSorted(R.Listings(files, ids))
    ensures forall i :: 0 <= i < |ids| ==> R.Listings(files, ids)[i] == files[ids[i]]
  {
    if ids != [] { ListingsAt(files, ids[..|ids| - 1]); }
  }

  lemma {:induction false} ListingsSame(before: map<nat, seq<Record>>, after: map<nat, seq<Record>>, ids: seq<nat>)
    requires SameFiles(before, after, ids)
    ensures R.Listings(before, ids) == R.Listings(after, ids)
  {
    if ids != [] { ListingsSame(before, after, ids[..|ids| - 1]); }
  }

  /** The newest table answers first. */
  lemma ShownSnoc(files: map<nat, seq<Record>>, ids: seq<nat>, id: nat, key: Bytes)
    requires id in files
    ensures Shown(files, ids + [id], key) ==
      if key in TableOf(files[id]) then Some(TableOf(files[id])[key]) else Shown(files, ids, key)
  {
    hide TableOf, FirstHit, Reverse;
    assert (ids + [id])[..|ids|] == ids;
    var ls := R.Listings(files, ids);
    assert (ls + [files[id]])[..|ls|] == ls;
    NewestFirstIsOverlay(ls, key);
    NewestFirstIsOverlay(ls + [files[id]], key);
  }

  // ----- what every step keeps ----------------------------------------------------------------------------

  /** Every table listed in memory or in the manifest has its file; removed files are of neither. */
  ghost predicate FilesFine(t: Store) {
    && Filed(t.files, t.s.list) && Filed(t.files, SortedIds(t.s.live))
    && forall id :: id in t.trash ==> id !in t.s.list && id !in t.s.live && id < t.s.nextId
  }

  ghost predicate FlushFine(t: Store) {
    t.s.flush.Allocated? || t.s.flush.FlushCommitted? ==>
      && t.s.flush.id in t.files && Sorted(t.files[t.s.flush.id]) && TableOf(t.files[t.s.flush.id]) == Fold(t.writing)
  }

  /** The picked tables are still the oldest two, and the new file holds their merge. */
  ghost predicate CompactionFine(t: Store) {
    var c := t.s.compact;
    && (c.Picked? || c.MergedTo? || c.Listed? || c.SetCommitted? ==>
          |t.s.list| >= PICK_COUNT && c.picked == t.s.list[..PICK_COUNT])
    && (c.MergedTo? || c.Listed? || c.SetCommitted? ==>
          && c.id in t.files && Sorted(t.files[c.id])
          && t.files[c.id] == MergedTable(R.Listings(t.files, c.picked)))
  }

  /** Manifest and memory answer the key with its newest flushed record; a committed flush is not listed yet. */
  ghost predicate Answers(t: Store, key: Bytes) {
    var cell := CellAt(Fold(t.flushed), key);
    && Shown(t.files, SortedIds(t.s.live), key) == cell
    && (!t.s.flush.FlushCommitted? ==> Shown(t.files, t.s.list, key) == cell)
  }

  ghost predicate RunInv(t: Store, key: Bytes) {
    Agreement(t.s) && FilesFine(t) && FlushFine(t) && CompactionFine(t) && Answers(t, key)
  }

  /** Where the protocol stands, the manifest's tables in load order. */
  lemma LoadOrder(s: State)
    requires Agreement(s)
    ensures !s.flush.FlushCommitted? && !s.compact.SetCommitted? ==> SortedIds(s.live) == s.list
    ensures s.flush.FlushCommitted? ==> SortedIds(s.live) == s.list + [s.flush.id]
    ensures s.compact.SetCommitted? && !s.flush.FlushCommitted? ==> SortedIds(s.live) == s.compact.kept
  {
    hide SortedIds, Without;
    AscendingIsSortedIds(s.list);
    if s.flush.FlushCommitted? {
      forall x | x in Elements(s.list) ensures x < s.flush.id { assert x in s.list; }
      SortedIdsAdd(Elements(s.list), s.flush.id);
    } else if s.compact.SetCommitted? {
      KeptAscends(s.list, s.compact.picked, s.compact.id, s.nextId);
      AscendingIsSortedIds(s.compact.kept);
    }
  }

  lemma KeptAscends(list: seq<nat>, picked: seq<nat>, id: nat, nextId: nat)
    requires Ascending(list) && (forall x :: x in list ==> x <= nextId) && id == nextId && id !in list
    ensures Ascending(Without(list, picked) + [id])
  {
    hide Without;
    WithoutAscending(list, picked);
    var rest := Without(list, picked);
    forall i | 0 <= i < |rest| ensures rest[i] < id { assert rest[i] in rest; }
  }

  /** The same lists over the same files show the same. */
  lemma SameAnswers(t: Store, u: Store, key: Bytes)
    requires FilesFine(t) && Answers(t, key) && u.s.list == t.s.list && u.s.live == t.s.live && u.flushed == t.flushed
    requires SameFiles(t.files, u.files, t.s.list) && SameFiles(t.files, u.files, SortedIds(t.s.live))
    requires u.s.flush.FlushCommitted? || !t.s.flush.FlushCommitted?
    requires u.trash <= t.trash && t.s.nextId <= u.s.nextId
    ensures FilesFine(u) && Answers(u, key)
  {
    hide SortedIds, Fold, FirstHit, R.Listings, Sorted;
    ListingsSame(t.files, u.files, t.s.list);
    ListingsSame(t.files, u.files, SortedIds(t.s.live));
  }

  /** A file that no list names is free to come and go. */
  lemma Unnamed(t: Store, id: nat, es: seq<Record>)
    requires FilesFine(t) && id !in t.s.list && id !in t.s.live
    ensures SameFiles(t.files, t.files[id := es], t.s.list) && SameFiles(t.files, t.files - {id}, t.s.list)
    ensures SameFiles(t.files, t.files[id := es], SortedIds(t.s.live))
    ensures SameFiles(t.files, t.files - {id}, SortedIds(t.s.live))
  {
    hide SortedIds, Sorted;
    var ids := SortedIds(t.s.live);
    forall i | 0 <= i < |ids| ensures ids[i] != id { assert ids[i] in ids; }
    forall i | 0 <= i < |t.s.list| ensures t.s.list[i] != id { assert t.s.list[i] in t.s.list; }
  }

  ghost predicate Inside(t: Store, e: Event, key: Bytes) {
    RunInv(t, key) && Enabled(t, e) && !Overlapping(t.s) && !Overlapping(Step(t, e).s)
  }

  lemma FlushKeeps(t: Store, records: seq<Record>, key: Bytes)
    requires Inside(t, Flush(records), key)
    ensures var u := Step(t, Flush(records)); FilesFine(u) && FlushFine(u) && CompactionFine(u) && Answers(u, key)
  {
    hide SortedIds, FilesFine, Answers, R.UpsertAll, TableOf, Sorted;
    var es := R.UpsertAll([], records);
    Unnamed(t, t.s.nextId + 1, es);
    SameAnswers(t, Step(t, Flush(records)), key);
    FrozenListing(records);
  }

  lemma FrozenListing(records: seq<Record>)
    ensures Sorted(R.UpsertAll([], records)) && TableOf(R.UpsertAll([], records)) == Fold(records)
  {
    NothingListed();
    R.UpsertAllFacts([], records);
  }

  lemma FlushFailKeeps(t: Store, key: Bytes)
    requires Inside(t, Do(FlushFail), key)
    ensures var u := Step(t, Do(FlushFail)); FilesFine(u) && FlushFine(u) && CompactionFine(u) && Answers(u, key)
  {
    hide SortedIds, FilesFine, Answers, TableOf, Sorted;
    Unnamed(t, t.s.flush.id, []);
    SameAnswers(t, Step(t, Do(FlushFail)), key);
  }

  lemma FlushCommitKeeps(t: Store, key: Bytes)
    requires Inside(t, Do(FlushCommit), key)
    ensures var u := Step(t, Do(FlushCommit)); FilesFine(u) && FlushFine(u) && CompactionFine(u) && Answers(u, key)
  {
    hide SortedIds, TableOf, Sorted, Fold, Shown;
    LoadOrder(t.s);
    var list, id := t.s.list, t.s.flush.id;
    forall x | x in t.s.live ensures x < id { assert x in list; }
    SortedIdsAdd(t.s.live, id);
    ShownSnoc(t.files, list, id, key);
    FoldAppend(t.flushed, t.writing);
  }

  lemma FlushPublishKeeps(t: Store, key: Bytes)
    requires Inside(t, Do(FlushPublish), key)
    ensures var u := Step(t, Do(FlushPublish)); FilesFine(u) && FlushFine(u) && CompactionFine(u) && Answers(u, key)
  {
    hide SortedIds, TableOf, Sorted, Fold, Shown;
    LoadOrder(t.s);
  }

  lemma CompactPickKeeps(t: Store, key: Bytes)
    requires Inside(t, Do(CompactPick), key)
    ensures var u := Step(t, Do(CompactPick)); FilesFine(u) && FlushFine(u) && CompactionFine(u) && Answers(u, key)
  {
    hide SortedIds, TableOf, Sorted, Fold, Shown;
  }

  lemma CompactMergeKeeps(t: Store, key: Bytes)
    requires Inside(t, Do(CompactMerge), key)
    ensures var u := Step(t, Do(CompactMerge)); FilesFine(u) && FlushFine(u) && CompactionFine(u) && Answers(u, key)
  {
    hide SortedIds, TableOf, Sorted, Fold, Shown, MergedTable, R.Listings, Answers;
    var picked, id := t.s.compact.picked, t.s.nextId + 1;
    var merged := MergedTable(R.Listings(t.files, picked));
    Unnamed(t, id, merged);
    SameAnswers(t, Step(t, Do(CompactMerge)), key);
    ListingsAt(t.files, picked);
    MergedTableAnswers(R.Listings(t.files, picked), key);
    ListingsSame(t.files, t.files[id := merged], picked);
  }

  lemma CompactFailKeeps(t: Store, key: Bytes)
    requires Inside(t, Do(CompactFail), key)
    ensures var u := Step(t, Do(CompactFail)); FilesFine(u) && FlushFine(u) && CompactionFine(u) && Answers(u, key)
  {
    hide SortedIds, TableOf, Sorted, Fold, Shown, FilesFine, Answers;
    var u := Step(t, Do(CompactFail));
    if t.s.compact.Picked? {
      assert u == t.(s := u.s);
      hide Step;
      Untouched(t, u, key);
    } else {
      Unnamed(t, t.s.compact.id, []);
      SameAnswers(t, u, key);
    }
  }

  lemma Untouched(t: Store, u: Store, key: Bytes)
    requires FilesFine(t) && Answers(t, key) && u.files == t.files && u.s.list == t.s.list && u.s.live == t.s.live
    requires u.trash == t.trash && u.s.nextId == t.s.nextId && u.s.flush == t.s.flush && u.flushed == t.flushed
    ensures FilesFine(u) && Answers(u, key)
  {
  }

  lemma CompactListKeeps(t: Store, key: Bytes)
    requires Inside(t, Do(CompactList), key)
    ensures var u := Step(t, Do(CompactList)); FilesFine(u) && FlushFine(u) && CompactionFine(u) && Answers(u, key)
  {
    hide SortedIds, TableOf, Sorted, Fold, Shown, FilesFine, Answers, Without;
    Untouched(t, Step(t, Do(CompactList)), key);
  }

  /** The list that a compaction commits is the compacted list of listings. */
  lemma KeptIsCompacted(t: Store)
    requires Agreement(t.s) && FilesFine(t) && CompactionFine(t) && t.s.compact.Listed?
    ensures var c := t.s.compact;
      && |R.Listings(t.files, t.s.list)| == |t.s.list| && AllSorted(R.Listings(t.files, t.s.list))
      && c.kept == t.s.list[PICK_COUNT..] + [c.id] && Filed(t.files, c.kept)
      && R.Listings(t.files, c.kept) == Compacted(R.Listings(t.files, t.s.list))
  {
    hide SortedIds, Sorted, MergedTable, R.Listings, Without;
    var list, c := t.s.list, t.s.compact;
    WithoutPrefix(list);
    ListingsAt(t.files, list);
    ListingsAt(t.files, c.kept);
    ListingsAt(t.files, c.picked);
    var ls := R.Listings(t.files, list);
    assert R.Listings(t.files, c.picked) == ls[..PICK_COUNT];
    assert R.Listings(t.files, c.kept) == ls[PICK_COUNT..] + [t.files[c.id]];
  }

  lemma CompactCommitKeeps(t: Store, key: Bytes)
    requires Inside(t, Do(CompactCommit), key) && Spares(t, Do(CompactCommit), key)
    ensures var u := Step(t, Do(CompactCommit)); FilesFine(u) && FlushFine(u) && CompactionFine(u) && Answers(u, key)
  {
    hide SortedIds, TableOf, Sorted, Fold, FirstHit, MergedTable, R.Listings, Without, Shadowed, Dropped, Compacted;
    var list, c := t.s.list, t.s.compact;
    KeptIsCompacted(t);
    KeptAscends(list, c.picked, c.id, t.s.nextId);
    AscendingIsSortedIds(c.kept);
    AppendLastExactly(R.Listings(t.files, list), key);
  }

  lemma CompactSwapKeeps(t: Store, key: Bytes)
    requires Inside(t, Do(CompactSwap), key)
    ensures var u := Step(t, Do(CompactSwap)); FilesFine(u) && FlushFine(u) && CompactionFine(u) && Answers(u, key)
  {
    hide SortedIds, TableOf, Sorted, Fold, Shown, MergedTable, R.Listings;
    LoadOrder(t.s);
    var c := t.s.compact;
    forall x | x in Elements(c.picked) ensures x !in c.kept && x < t.s.nextId { assert x in t.s.list; }
  }

  lemma ReopenKeeps(t: Store, key: Bytes)
    requires Inside(t, Do(Reopen), key)
    ensures var u := Step(t, Do(Reopen)); FilesFine(u) && FlushFine(u) && CompactionFine(u) && Answers(u, key)
  {
    hide SortedIds, TableOf, Sorted, Fold, Shown;
  }

  lemma DiscardKeeps(t: Store, id: nat, key: Bytes)
    requires Inside(t, Discard(id), key)
    ensures var u := Step(t, Discard(id)); FilesFine(u) && FlushFine(u) && CompactionFine(u) && Answers(u, key)
  {
    hide SortedIds, TableOf, Sorted, Fold, Shown, MergedTable, R.Listings, Answers;
    var u := Step(t, Discard(id));
    Unnamed(t, id, []);
    SameAnswers(t, u, key);
    var c := t.s.compact;
    if c.MergedTo? || c.Listed? || c.SetCommitted? {
      forall i | 0 <= i < |c.picked| ensures c.picked[i] != id { assert t.s.list[i] in t.s.list; }
      ListingsSame(t.files, u.files, c.picked);
    }
  }

  lemma EventKeeps(t: Store, e: Event, key: Bytes)
    requires Inside(t, e, key) && Spares(t, e, key)
    ensures RunInv(Step(t, e), key)
  {
    hide Agreement, FilesFine, FlushFine, CompactionFine, Answers, Overlapping, Spares, FilesAfter;
    ProtocolKeeps(t, e);
    match e
    case Flush(records) => FlushKeeps(t, records, key);
    case Discard(id) => DiscardKeeps(t, id, key);
    case Do(FlushFail) => FlushFailKeeps(t, key);
    case Do(FlushCommit) => FlushCommitKeeps(t, key);
    case Do(FlushPublish) => FlushPublishKeeps(t, key);
    case Do(CompactPick) => CompactPickKeeps(t, key);
    case Do(CompactMerge) => CompactMergeKeeps(t, key);
    case Do(CompactFail) => CompactFailKeeps(t, key);
    case Do(CompactList) => CompactListKeeps(t, key);
    case Do(CompactCommit) => CompactCommitKeeps(t, key);
    case Do(CompactSwap) => CompactSwapKeeps(t, key);
    case Do(CompactRollback) => NoRollback(t.s);
    case Do(Reopen) => ReopenKeeps(t, key);
  }

  lemma NoRollback(s: State)
    requires Agreement(s)
    ensures !s.compact.RollingBack?
  {
  }

  lemma ProtocolKeeps(t: Store, e: Event)
    requires Agreement(t.s) && Enabled(t, e) && !Overlapping(t.s) && !Overlapping(Step(t, e).s)
    ensures Agreement(Step(t, e).s)
  {
    hide Agreement, Overlapping, CommitProtocol.Step, CommitProtocol.Enabled;
    if e.Flush? { AgreementStep(t.s, FlushAllocate); } else if e.Do? { AgreementStep(t.s, e.a); }
  }

  /**
   * In every run where flush and compaction intervals never overlap, through failed flushes and compactions, crashes
   * and reopens at any point: a key that no committed compaction shadowed or dropped is answered by the manifest's
   * tables, and by the list in memory unless a committed flush is about to be listed, with its newest record in the
   * committed flushes. No file that memory or the manifest lists has been removed.
   */
  lemma {:induction false} SparedKeysKeepTheirAnswer(ts: seq<Store>, es: seq<Event>, key: Bytes)
    requires IsRun(ts, es) && forall i :: 0 <= i <= |es| ==> !Overlapping(ts[i].s)
    requires forall i :: 0 <= i < |es| ==> Spares(ts[i], es[i], key)
    ensures RunInv(ts[|es|], key)
    decreases |es|
  {
    hide RunInv, Step, Enabled, Overlapping, Spares;
    if es == [] {
      EmptyFine(key);
    } else {
      var n := |es| - 1;
      assert forall i :: 0 <= i <= n ==> ts[..n + 1][i] == ts[i];
      SparedKeysKeepTheirAnswer(ts[..n + 1], es[..n], key);
      assert ts[n + 1] == Step(ts[n], es[n]);
      EventKeeps(ts[n], es[n], key);
    }
  }

  lemma EmptyFine(key: Bytes)
    ensures RunInv(Empty(), key)
  {
    assert Elements([]) == {};
    assert Reverse(R.Listings(map[], [])) == [];
  }

  // ----- keys that no compaction can harm -----------------------------------------------------------------

  /** The listing lacks the empty key, and holds the key as r or not at all. */
  ghost predicate Plain(es: seq<Record>, key: Bytes, r: Record) {
    Find(es, []).None? && (Find(es, key).None? || Find(es, key) == Some(r))
  }

  ghost predicate PlainFiles(files: map<nat, seq<Record>>, key: Bytes, r: Record) {
    forall id :: id in files ==> Plain(files[id], key, r)
  }

  /** A flush that writes the key as r or not at all, and not the empty key. */
  ghost predicate PlainEvent(e: Event, key: Bytes, r: Record) {
    e.Flush? ==> PlainRecords(e.records, key, r)
  }

  ghost predicate PlainRecords(rs: seq<Record>, key: Bytes, r: Record) {
    forall i :: 0 <= i < |rs| ==> rs[i].key != [] && (rs[i].key == key ==> ReadPath.Clean(rs[i]) == r)
  }

  lemma {:induction false} UpsertAllPlain(es: seq<Record>, rs: seq<Record>, key: Bytes, r: Record)
    requires Plain(es, key, r) && PlainRecords(rs, key, r)
    ensures Plain(R.UpsertAll(es, rs), key, r)
    decreases |rs|
  {
    hide Find, Upsert;
    if rs != [] {
      UpsertFind(es, ReadPath.Clean(rs[0]), key);
      UpsertFind(es, ReadPath.Clean(rs[0]), []);
      UpsertAllPlain(Upsert(es, ReadPath.Clean(rs[0])), rs[1..], key, r);
    }
  }

  lemma FirstHitPlain(ls: seq<seq<Record>>, key: Bytes, r: Record)
    requires forall i :: 0 <= i < |ls| ==> Plain(ls[i], key, r)
    ensures FirstHit(ls, key).None? || FirstHit(ls, key) == Some(r)
  {
    hide Find, FirstHit;
    var p := Scan.FirstHitAt(ls, key);
  }

  lemma PlainIsWellFormed(ls: seq<seq<Record>>, key: Bytes, r: Record)
    requires AllSorted(ls) && forall i :: 0 <= i < |ls| ==> Plain(ls[i], key, r)
    ensures Merge.WellFormed(ls)
  {
    hide Find, Sorted;
    forall i | 0 <= i < |ls| ensures Merge.NoEmptyKey(ls[i]) { FindNone(ls[i], []); }
  }

  lemma PlainMerge(picked: seq<seq<Record>>, key: Bytes, r: Record)
    requires AllSorted(picked) && forall i :: 0 <= i < |picked| ==> Plain(picked[i], key, r)
    ensures Plain(MergedTable(picked), key, r)
  {
    hide Find, FirstHit, MergedTable;
    PlainIsWellFormed(picked, key, r);
    MergedTableAnswers(picked, key);
    MergedTableAnswers(picked, []);
    FindNone(MergedTable(picked), []);
    FirstHitPlain(Reverse(picked), key, r);
  }

  lemma PlainIsSpared(tables: seq<seq<Record>>, key: Bytes, r: Record)
    requires |tables| >= PICK_COUNT && AllSorted(tables) && forall i :: 0 <= i < |tables| ==> Plain(tables[i], key, r)
    ensures !Shadowed(tables, key) && !Dropped(tables, key)
  {
    hide Find, FirstHit, Reach, Dropped, Plain;
    PlainIsWellFormed(tables, key, r);
    AppendLastExactly(tables, key);
    PlainIsWellFormed(tables[..PICK_COUNT], key, r);
    ReachAll(tables[..PICK_COUNT]);
    FirstHitPlain(Reverse(tables[..PICK_COUNT]), key, r);
    FirstHitPlain(Reverse(tables[PICK_COUNT..]), key, r);
  }

  lemma PlainStep(t: Store, e: Event, key: Bytes, r: Record)
    requires RunInv(t, key) && Enabled(t, e) && PlainFiles(t.files, key, r) && PlainEvent(e, key, r)
    ensures PlainFiles(Step(t, e).files, key, r) && Spares(t, e, key)
  {
    hide Find, MergedTable, R.Listings, R.UpsertAll, Shadowed, Dropped, Plain, Answers, Agreement, FlushFine;
    if e.Flush? {
      NothingPlain(key, r);
      UpsertAllPlain([], e.records, key, r);
    } else if e == Do(CompactMerge) {
      ListingsAt(t.files, t.s.compact.picked);
      PlainMerge(R.Listings(t.files, t.s.compact.picked), key, r);
    } else if e == Do(CompactCommit) {
      ListingsAt(t.files, t.s.list);
      PlainIsSpared(R.Listings(t.files, t.s.list), key, r);
    }
  }

  lemma NothingPlain(key: Bytes, r: Record)
    ensures Plain([], key, r)
  {
  }

  /**
   * If every flush that writes the key writes the same record for it, and none writes the empty key, then no
   * compaction shadows or drops the key, so it keeps its answer through every such run.
   */
  lemma {:induction false} SteadyKeysAreSpared(ts: seq<Store>, es: seq<Event>, key: Bytes, r: Record)
    requires IsRun(ts, es) && forall i :: 0 <= i <= |es| ==> !Overlapping(ts[i].s)
    requires forall i :: 0 <= i < |es| ==> PlainEvent(es[i], key, r)
    ensures RunInv(ts[|es|], key) && PlainFiles(ts[|es|].files, key, r)
    ensures forall i :: 0 <= i < |es| ==> Spares(ts[i], es[i], key)
    decreases |es|
  {
    hide RunInv, Step, Enabled, Overlapping, Spares, PlainFiles, PlainEvent;
    if es == [] {
      EmptyFine(key);
      assert PlainFiles(map[], key, r) by { NoFiles(key, r); }
    } else {
      var n := |es| - 1;
      assert forall i :: 0 <= i <= n ==> ts[..n + 1][i] == ts[i];
      assert forall i :: 0 <= i < n ==> es[..n][i] == es[i];
      SteadyKeysAreSpared(ts[..n + 1], es[..n], key, r);
      assert ts[n + 1] == Step(ts[n], es[n]);
      PlainStep(ts[n], es[n], key, r);
      EventKeeps(ts[n], es[n], key);
    }
  }

  lemma NoFiles(key: Bytes, r: Record)
    ensures PlainFiles(map[], key, r)
  {
  }
}

/**
 * What a client is told, in terms of the records written and nothing else: positions in the history, bytes of keys and
 * which layers hold a record. These are the theorems of the store with every definition of the model unfolded.
 */
module StoreAnswers {
  import opened ByteStrings
  import opened Records
  import opened Wal
  import opened Durability
  import opened ReadPath
  import opened ReadsShowHistory
  import opened MergeReach
  import opened StoreRuns
  import opened StoreTheorems
  import Merge
  import Scan
  import G = GroupCommit

  /** A record of the key is queued, or in the active or a frozen memtable. */
  ghost predicate InMemory(l: Layers, key: Bytes) {
    || (exists i :: 0 <= i < |l.pending| && l.pending[i].key == key)
    || (exists i :: 0 <= i < |l.active| && l.active[i].key == key)
    || (exists q, i :: 0 <= q < |l.queue| && 0 <= i < |l.queue[q]| && l.queue[q][i].key == key)
  }

  ghost predicate InTables(l: Layers, key: Bytes) {
    exists t, i :: 0 <= t < |l.tables| && 0 <= i < |l.tables[t]| && l.tables[t][i].key == key
  }

  // ----- layers ------------------------------------------------------------------------------------------

  lemma ListedKey(es: seq<Record>, key: Bytes)
    ensures Find(es, key).Some? <==> exists i :: 0 <= i < |es| && es[i].key == key
  {
    FindNone(es, key);
    if Find(es, key).Some? {
      var e :| e in es && e.key == key;
      var i :| 0 <= i < |es| && es[i] == e;
    }
    if i :| 0 <= i < |es| && es[i].key == key { assert es[i] in es; }
  }

  lemma {:induction false} QueuedKey(batch: seq<Record>, key: Bytes)
    ensures Find(BatchListing(batch), key).Some? <==> exists i :: 0 <= i < |batch| && batch[i].key == key
  {
    hide Find;
    if batch == [] {
      NothingQueued(key);
    } else {
      var n := |batch| - 1;
      BatchListingFind(batch, key);
      QueuedKey(batch[..n], key);
      if batch[n].key != key {
        if i :| 0 <= i < |batch| && batch[i].key == key { assert batch[..n][i].key == key; }
        if i :| 0 <= i < n && batch[..n][i].key == key { assert batch[i].key == key; }
      }
    }
  }

  lemma NothingQueued(key: Bytes)
    ensures Find(BatchListing([]), key).None?
  {
  }

  lemma MemoryKey(l: Layers, key: Bytes)
    ensures FirstHit(MemLayers(l), key).Some? <==> InMemory(l, key)
  {
    hide Find, FirstHit, BatchListing;
    var ls := MemLayers(l);
    var p := Scan.FirstHitAt(ls, key);
    QueuedKey(l.pending, key);
    ListedKey(l.active, key);
    assert ls[0] == BatchListing(l.pending) && ls[1] == l.active;
    assert forall q :: 0 <= q < |l.queue| ==> ls[|l.queue| + 1 - q] == l.queue[q];
    if p >= 2 {
      var q := |l.queue| + 1 - p;
      ListedKey(l.queue[q], key);
    }
    if q, i :| 0 <= q < |l.queue| && 0 <= i < |l.queue[q]| && l.queue[q][i].key == key {
      ListedKey(l.queue[q], key);
      assert Find(ls[|l.queue| + 1 - q], key).Some?;
    }
  }

  lemma EmptyInTableKey(l: Layers, key: Bytes)
    ensures Scan.EmptyInTable(l, key) <==>
      !InMemory(l, key) && Scan.LiveValue(FirstHit(Scan.AllLayers(l), key)) == Some([])
  {
    hide FirstHit, MemLayers, Reverse, Scan.AllLayers, InMemory;
    MemoryKey(l, key);
    Scan.LayersAsGetSeesThem(l, key);
  }

  // ----- what Get and Scan tell ------------------------------------------------------------------------------

  /** Everything a read may show: the durable records that have been applied, then the queued ones. */
  ghost function Written(j: Store): seq<Record>
    requires j.s.mem.Some? && 0 <= Applied(j.s) <= |j.s.history|
  {
    j.s.history[..Applied(j.s)] + j.g.queued
  }

  lemma NewestIsLastWrite(f: Format, js: seq<Store>, es: seq<Event>, n: nat, key: Bytes, value: Bytes)
    requires StoreRuns.IsSafeRun(f, js, es) && n <= |es| && js[n].s.mem.Some?
    ensures 0 <= Applied(js[n].s) <= |js[n].s.history| && AllSorted(Scan.ScanRests(js[n].l))
    ensures Scan.LiveValue(FirstHit(Scan.AllLayers(js[n].l), key)) == Some(value) <==>
      LastPuts(Written(js[n]), key, value)
  {
    hide Fold, Inv, G.Inv, Coupled, Represents, FirstHit, AllSorted, Scan.ScanRests, Scan.AllLayers, LastPuts, Applied;
    RunsRepresent(f, js, es, n);
    NewestInState(f, js[n].s, js[n].l, key);
    FoldHolds(Written(js[n]), key, value);
  }

  /**
   * In every safe run, whenever the store is up: Get finds a value if and only if the last record of the key puts it,
   * and it is not empty or a record of the key is still in memory.
   */
  lemma GetFindsLastWrite(f: Format, js: seq<Store>, es: seq<Event>, n: nat, key: Bytes, value: Bytes)
    requires StoreRuns.IsSafeRun(f, js, es) && n <= |es| && js[n].s.mem.Some?
    ensures 0 <= Applied(js[n].s) <= |js[n].s.history|
    ensures Get(js[n].l, key) == Found(value) <==>
      LastPuts(Written(js[n]), key, value) && (value != [] || InMemory(js[n].l, key))
  {
    hide FirstHit, Get, Scan.AllLayers, Scan.EmptyInTable, LastPuts, InMemory, Applied, Written, StoreRuns.Step,
      StoreRuns.Enabled, SafeEvent, AllSorted;
    NewestIsLastWrite(f, js, es, n, key, value);
    NewestIsLastWrite(f, js, es, n, key, []);
    EmptyInTableKey(js[n].l, key);
    Scan.GetIsNewestLive(js[n].l, key);
  }

  lemma NothingHoldsEmpty(l: Layers)
    requires !InMemory(l, []) && !InTables(l, []) && AllSorted(Scan.ScanRests(l))
    ensures Scan.Scannable(Scan.ScanRests(l), [])
  {
    hide Find, BatchListing, Sorted;
    var rests := Scan.ScanRests(l);
    forall i | 0 <= i < |rests| ensures Merge.NoEmptyKey(rests[i]) {
      Scan.SourceIsLayer(l, i);
      QueuedKey(l.pending, []);
      ListedKey(rests[i], []);
      FindNone(rests[i], []);
      if rests[i] in l.queue { var q :| 0 <= q < |l.queue| && l.queue[q] == rests[i]; }
      if rests[i] in l.tables { var t :| 0 <= t < |l.tables| && l.tables[t] == rests[i]; }
    }
  }

  /**
   * In every safe run, whenever the store is up with at most a million frozen memtables and tables: a scan from a
   * non-empty start, or with no record of the empty key in any layer, yields a pair if and only if its key is not
   * before the start, is before the end if there is one, and the last record of the key puts that value. The keys
   * come in dictionary order, each once.
   */
  lemma ScanYieldsLastWrites(f: Format, js: seq<Store>, es: seq<Event>, n: nat, start: Bytes, end: Bytes)
    requires StoreRuns.IsSafeRun(f, js, es) && n <= |es| && js[n].s.mem.Some?
    requires |js[n].l.queue| + |js[n].l.tables| <= 1_000_000
    requires start != [] || (!InMemory(js[n].l, []) && !InTables(js[n].l, []))
    ensures 0 <= Applied(js[n].s) <= |js[n].s.history|
    ensures |Scan.ScanRests(js[n].l)| == |Scan.ScanPriorities(js[n].l)|
    ensures var out := Scan.ScanList(js[n].l, start, end);
      && (forall i, k :: 0 <= i < k < |out| ==> Precedes(out[i].key, out[k].key))
      && (forall i :: 0 <= i < |out| ==> !out[i].tombstone)
      && forall key, value :: Record(key, value, false) in out <==>
           !Precedes(key, start) && (end == [] || Precedes(key, end)) && LastPuts(Written(js[n]), key, value)
  {
    hide FirstHit, Scan.AllLayers, LastPuts, InMemory, InTables, Applied, Written, StoreRuns.Step, StoreRuns.Enabled,
      SafeEvent, AllSorted, Scan.ScanList, Scan.ScanRests, Scan.ScanPriorities, Scan.Seen, Precedes;
    var l := js[n].l;
    NewestIsLastWrite(f, js, es, n, [], []);
    if start == [] { NothingHoldsEmpty(l); }
    Scan.ScanIsNewestSeen(l, start, end);
    var out := Scan.ScanList(l, start, end);
    Scan.ByteOrder(out);
    forall i | 0 <= i < |out| ensures !out[i].tombstone { assert out[i] in out; }
    forall key, value ensures Record(key, value, false) in out <==>
      !Precedes(key, start) && (end == [] || Precedes(key, end)) && LastPuts(Written(js[n]), key, value)
    {
      Scan.ScanYields(l, start, end, key, value);
      LessIsPrecedes(key, start);
      LessIsPrecedes(key, end);
      NewestIsLastWrite(f, js, es, n, key, value);
      if Scan.InRange(key, start, end) { Scan.SeesAll(l, start, key); }
    }
  }
}

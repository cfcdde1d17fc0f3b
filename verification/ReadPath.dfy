/** Layered reads: newest layer first, tombstones hide, and what a flush does to them. */
module ReadPath {
  import opened ByteStrings
  import opened Records

  /** What Get and Scan read: the queued batch, the active memtable, frozen memtables and tables, oldest first. */
  datatype Layers = Layers(pending: seq<Record>, active: seq<Record>, queue: seq<seq<Record>>, tables: seq<seq<Record>>)

  datatype GetResult = NotFound | Found(value: Bytes)

  // ----- the pending batch -------------------------------------------------------

  /** A snapshot keeps no value for a tombstone. */
  function Clean(r: Record): Record {
    if r.tombstone then Record(r.key, [], true) else r
  }

  /** The queued batch as a sorted listing with the last write of each key. */
  function BatchListing(batch: seq<Record>): seq<Record> {
    if batch == [] then [] else Upsert(BatchListing(batch[..|batch| - 1]), Clean(batch[|batch| - 1]))
  }

  lemma {:induction false} BatchListingSorted(batch: seq<Record>)
    ensures Sorted(BatchListing(batch))
  {
    if batch != [] {
      BatchListingSorted(batch[..|batch| - 1]);
      UpsertSorted(BatchListing(batch[..|batch| - 1]), Clean(batch[|batch| - 1]));
    }
  }

  /** The listing answers each key with the last write of it: an inductive view from the end of the batch. */
  lemma BatchListingFind(batch: seq<Record>, key: Bytes)
    requires batch != []
    ensures Find(BatchListing(batch), key) ==
            var last := batch[|batch| - 1]; if last.key == key then Some(Clean(last))
              else Find(BatchListing(batch[..|batch| - 1]), key)
  {
    UpsertFind(BatchListing(batch[..|batch| - 1]), Clean(batch[|batch| - 1]), key);
  }

  /** `lookupPendingBatch`: scan from the newest record. */
  method LookupPendingBatch(batch: seq<Record>, key: Bytes) returns (hit: Option<Record>)
    ensures hit == Find(BatchListing(batch), key)
  {
    var i := |batch|;
    assert batch[..|batch|] == batch;
    while i > 0
      invariant 0 <= i <= |batch|
      invariant Find(BatchListing(batch[..i]), key) == Find(BatchListing(batch), key)
    {
      BatchListingFind(batch[..i], key);
      assert batch[..i][..i - 1] == batch[..i - 1];
      i := i - 1;
      if batch[i].key == key { return Some(Clean(batch[i])); }
    }
    assert batch[..0] == [];
    return None;
  }

  /** The map holds the last record of each key of the batch. */
  ghost predicate LastByKey(batch: seq<Record>, byKey: map<Bytes, Record>) {
    && (forall k :: Find(BatchListing(batch), k) == if k in byKey then Some(Clean(byKey[k])) else None)
    && (forall k :: k in byKey ==> byKey[k].key == k)
  }

  lemma LastByKeySnoc(batch: seq<Record>, r: Record, byKey: map<Bytes, Record>)
    requires LastByKey(batch, byKey)
    ensures LastByKey(batch + [r], byKey[r.key := r])
  {
    hide BatchListing, Find;
    assert (batch + [r])[..|batch|] == batch;
    var more := byKey[r.key := r];
    forall k ensures Find(BatchListing(batch + [r]), k) == if k in more then Some(Clean(more[k])) else None {
      BatchListingFind(batch + [r], k);
      assert Find(BatchListing(batch), k) == if k in byKey then Some(Clean(byKey[k])) else None;
    }
  }

  /** `snapshotPendingBatch`: keep the last record of each key in a map, then sort the keys. */
  method SnapshotPendingBatch(batch: seq<Record>) returns (out: seq<Record>)
    ensures out == BatchListing(batch)
  {
    var byKey: map<Bytes, Record> := map[];
    assert LastByKey(batch[..0], byKey);
    for i := 0 to |batch|
      invariant LastByKey(batch[..i], byKey)
    {
      hide LastByKey;
      assert batch[..i + 1] == batch[..i] + [batch[i]];
      LastByKeySnoc(batch[..i], batch[i], byKey);
      byKey := byKey[batch[i].key := batch[i]];
    }
    assert batch[..|batch|] == batch;
    out := SortedValues(byKey);
    SameListing(batch, byKey, out);
  }

  lemma SameListing(batch: seq<Record>, byKey: map<Bytes, Record>, out: seq<Record>)
    requires LastByKey(batch, byKey) && Sorted(out)
    requires forall k :: Find(out, k) == if k in byKey then Some(Clean(byKey[k])) else None
    ensures out == BatchListing(batch)
  {
    hide BatchListing, Find;
    BatchListingSorted(batch);
    forall e ensures e in out <==> e in BatchListing(batch) {
      FindIsMembership(out, e);
      FindIsMembership(BatchListing(batch), e);
      assert Find(out, e.key) == Find(BatchListing(batch), e.key);
    }
    SortedIsUnique(out, BatchListing(batch));
  }

  /** Range over the map in any order and sort by key. */
  method SortedValues(byKey: map<Bytes, Record>) returns (out: seq<Record>)
    requires forall k :: k in byKey ==> byKey[k].key == k
    ensures Sorted(out) && forall k :: Find(out, k) == if k in byKey then Some(Clean(byKey[k])) else None
  {
    out := [];
    var left := byKey.Keys;
    while left != {}
      invariant left <= byKey.Keys && Sorted(out)
      invariant forall k :: Find(out, k) == if k in byKey && k !in left then Some(Clean(byKey[k])) else None
      decreases |left|
    {
      var k :| k in left;
      UpsertSorted(out, Clean(byKey[k]));
      forall j ensures Find(Upsert(out, Clean(byKey[k])), j) == if j == k then Some(Clean(byKey[k])) else Find(out, j) {
        UpsertFind(out, Clean(byKey[k]), j);
      }
      out := Upsert(out, Clean(byKey[k]));
      left := left - {k};
    }
  }

  // ----- Get -----------------------------------------------------------------------

  /** The entry of the first listing that has the key. */
  function FirstHit(ls: seq<seq<Record>>, key: Bytes): Option<Record> {
    if ls == [] then None else match Find(ls[0], key) case Some(e) => Some(e) case None => FirstHit(ls[1..], key)
  }

  function Reverse(ls: seq<seq<Record>>): (r: seq<seq<Record>>)
    ensures |r| == |ls| && forall i :: 0 <= i < |ls| ==> r[i] == ls[|ls| - 1 - i]
  {
    seq(|ls|, i requires 0 <= i < |ls| => ls[|ls| - 1 - i])
  }

  /** In-memory layers, newest first. */
  function MemLayers(l: Layers): seq<seq<Record>> {
    [BatchListing(l.pending), l.active] + Reverse(l.queue)
  }

  /** A live entry read from a table with an empty value is reported as not found; from memory it is found. */
  function Get(l: Layers, key: Bytes): GetResult {
    match FirstHit(MemLayers(l), key)
    case Some(e) => if e.tombstone then NotFound else Found(e.value)
    case None =>
      match FirstHit(Reverse(l.tables), key)
      case Some(e) => if e.tombstone || e.value == [] then NotFound else Found(e.value)
      case None => NotFound
  }

  lemma {:induction false} FirstHitAppend(a: seq<seq<Record>>, b: seq<seq<Record>>, key: Bytes)
    ensures FirstHit(a + b, key) == match FirstHit(a, key) case Some(e) => Some(e) case None => FirstHit(b, key)
  {
    if a == [] {
      assert a + b == b;
    } else {
      assert (a + b)[1..] == a[1..] + b;
      FirstHitAppend(a[1..], b, key);
    }
  }

  lemma FirstHitOne(es: seq<Record>, key: Bytes)
    ensures FirstHit([es], key) == Find(es, key)
  {
    assert [es][1..] == [];
  }

  /** The loop of `Get` over frozen memtables: search from the end of the list. */
  method SearchFromEnd(ls: seq<seq<Record>>, key: Bytes) returns (hit: Option<Record>)
    ensures hit == FirstHit(Reverse(ls), key)
  {
    var i := |ls|;
    ghost var newest := Reverse(ls);
    while i > 0
      invariant 0 <= i <= |ls|
      invariant FirstHit(newest, key) == FirstHit(newest[|ls| - i..], key)
    {
      assert newest[|ls| - i..][1..] == newest[|ls| - i + 1..];
      i := i - 1;
      var found := Find(ls[i], key);
      if found.Some? { return found; }
    }
    return None;
  }

  // ----- tables whose readers may be closed or fail ---------------------------------------

  datatype Health = Fine | Closed | Broken

  /** A table's reader: its entries, its state, and what its filter says of the key looked up. */
  datatype Reader = Reader(es: seq<Record>, health: Health, may: bool)

  datatype Lookup = Answered(hit: Option<Record>) | ReadFailed

  /** Newest first: the filter skips a table, a closed reader is passed over, a failing one ends the search. */
  function LookupReaders(rs: seq<Reader>, key: Bytes): Lookup {
    if rs == [] then Answered(None)
    else if !rs[0].may || rs[0].health == Closed then LookupReaders(rs[1..], key)
    else if rs[0].health == Broken then ReadFailed
    else if Find(rs[0].es, key).Some? then Answered(Find(rs[0].es, key))
    else LookupReaders(rs[1..], key)
  }

  function ReverseReaders(rs: seq<Reader>): (r: seq<Reader>)
    ensures |r| == |rs| && forall i :: 0 <= i < |rs| ==> r[i] == rs[|rs| - 1 - i]
  {
    seq(|rs|, i requires 0 <= i < |rs| => rs[|rs| - 1 - i])
  }

  /** `lookupSSTReaders`. */
  method LookupSSTReaders(readers: seq<Reader>, key: Bytes) returns (r: Lookup)
    ensures r == LookupReaders(ReverseReaders(readers), key)
  {
    var i := |readers|;
    ghost var newest := ReverseReaders(readers);
    while i > 0
      invariant 0 <= i <= |readers|
      invariant LookupReaders(newest, key) == LookupReaders(newest[|readers| - i..], key)
    {
      assert newest[|readers| - i..][1..] == newest[|readers| - i + 1..];
      i := i - 1;
      if !readers[i].may { continue; }
      if readers[i].health == Closed { continue; }
      if readers[i].health == Broken { return ReadFailed; }
      var found := Find(readers[i].es, key);
      if found.Some? { return Answered(found); }
    }
    return Answered(None);
  }

  /** The filter has no false negatives. */
  ghost predicate Filtered(rs: seq<Reader>, key: Bytes) {
    forall i :: 0 <= i < |rs| ==> (Find(rs[i].es, key).Some? ==> rs[i].may)
  }

  /** The listings of the readers in working order. */
  function FineListings(rs: seq<Reader>): seq<seq<Record>> {
    if rs == [] then [] else (if rs[0].health == Fine then [rs[0].es] else []) + FineListings(rs[1..])
  }

  /** The reader fails on the key, and no newer one in working order holds it. */
  ghost predicate FailsAt(rs: seq<Reader>, key: Bytes, i: nat) {
    && i < |rs| && rs[i].health == Broken && rs[i].may
    && forall j :: 0 <= j < i && rs[j].health == Fine ==> Find(rs[j].es, key).None?
  }

  ghost predicate SomeFails(rs: seq<Reader>, key: Bytes) {
    exists i: nat :: FailsAt(rs, key, i)
  }

  lemma FailsCons(first: Reader, rest: seq<Reader>, key: Bytes)
    ensures SomeFails([first] + rest, key) <==>
      (first.health == Broken && first.may) ||
      (!(first.health == Fine && Find(first.es, key).Some?) && SomeFails(rest, key))
  {
    hide Find;
    var rs := [first] + rest;
    assert rs[0] == first;
    if first.health == Broken && first.may { assert FailsAt(rs, key, 0); }
    if i: nat :| FailsAt(rs, key, i) {
      if i > 0 {
        assert forall j :: 0 <= j < i - 1 ==> rest[j] == rs[j + 1];
        assert FailsAt(rest, key, i - 1);
      }
    }
    if i: nat :| FailsAt(rest, key, i) {
      if !(first.health == Fine && Find(first.es, key).Some?) {
        assert forall j :: 1 <= j < i + 1 ==> rs[j] == rest[j - 1];
        assert FailsAt(rs, key, i + 1);
      }
    }
  }

  /** The search fails exactly if a failing reader comes before every hit; otherwise it answers as the newest-first
      search over the readers in working order, as if the closed ones were not there. */
  lemma {:induction false} LookupExactly(rs: seq<Reader>, key: Bytes)
    requires Filtered(rs, key)
    ensures LookupReaders(rs, key) == ReadFailed <==> SomeFails(rs, key)
    ensures LookupReaders(rs, key).Answered? ==> LookupReaders(rs, key).hit == FirstHit(FineListings(rs), key)
  {
    hide Find, FailsAt;
    if rs == [] {
      NoneFails(key);
    } else {
      hide SomeFails;
      var rest := rs[1..];
      assert rs == [rs[0]] + rest;
      LookupExactly(rest, key);
      FirstHitSkip(if rs[0].health == Fine then [rs[0].es] else [], FineListings(rest), key);
      FailsCons(rs[0], rest, key);
    }
  }

  lemma NoneFails(key: Bytes)
    ensures !SomeFails([], key)
  {
  }

  lemma FirstHitSkip(first: seq<seq<Record>>, rest: seq<seq<Record>>, key: Bytes)
    requires |first| <= 1
    ensures FirstHit(first + rest, key) ==
      if first != [] && Find(first[0], key).Some? then Find(first[0], key) else FirstHit(rest, key)
  {
    if first == [] { assert first + rest == rest; } else { assert (first + rest)[1..] == rest; }
  }

  ghost predicate AllFine(rs: seq<Reader>) {
    forall i :: 0 <= i < |rs| ==> rs[i].health == Fine
  }

  ghost function EntriesOf(rs: seq<Reader>): seq<seq<Record>> {
    seq(|rs|, i requires 0 <= i < |rs| => rs[i].es)
  }

  lemma {:induction false} FineIsAll(rs: seq<Reader>)
    requires AllFine(rs)
    ensures FineListings(rs) == EntriesOf(rs)
  {
    if rs != [] {
      FineIsAll(rs[1..]);
      assert EntriesOf(rs) == [rs[0].es] + EntriesOf(rs[1..]);
    }
  }

  /** With every reader in working order the search is the plain one. */
  lemma FineLookup(rs: seq<Reader>, key: Bytes)
    requires AllFine(rs) && Filtered(rs, key)
    ensures LookupReaders(ReverseReaders(rs), key) == Answered(FirstHit(Reverse(EntriesOf(rs)), key))
  {
    hide Find, FirstHit, LookupReaders;
    var newest := ReverseReaders(rs);
    LookupExactly(newest, key);
    FineIsAll(newest);
    assert EntriesOf(newest) == Reverse(EntriesOf(rs));
  }

  datatype GetOutcome = StoreClosed | GetFailed | Got(result: GetResult)

  /** `DB.Get`: a closed store refuses; memory answers whatever the readers do; otherwise the tables are searched. */
  method GetKey(l: Layers, readers: seq<Reader>, closed: bool, key: Bytes) returns (res: GetOutcome)
    requires EntriesOf(readers) == l.tables && Filtered(readers, key)
    ensures res == StoreClosed <==> closed
    ensures !closed && FirstHit(MemLayers(l), key).Some? ==> res == Got(Get(l, key))
    ensures !closed && FirstHit(MemLayers(l), key).None? ==>
      res == match LookupReaders(ReverseReaders(readers), key)
             case ReadFailed => GetFailed
             case Answered(hit) => Got(FromTable(hit))
    ensures !closed && AllFine(readers) ==> res == Got(Get(l, key))
  {
    if closed { return StoreClosed; }
    FirstHitAppend([BatchListing(l.pending), l.active], Reverse(l.queue), key);
    FirstHitTwo(BatchListing(l.pending), l.active, key);
    hide FirstHit, Find, BatchListing, Reverse, LookupReaders, AllFine, EntriesOf;
    var hit := LookupPendingBatch(l.pending, key);
    if hit.Some? { return Got(if hit.value.tombstone then NotFound else Found(hit.value.value)); }
    hit := Find(l.active, key);
    if hit.Some? { return Got(if hit.value.tombstone then NotFound else Found(hit.value.value)); }
    hit := SearchFromEnd(l.queue, key);
    if hit.Some? { return Got(if hit.value.tombstone then NotFound else Found(hit.value.value)); }
    var r := LookupSSTReaders(readers, key);
    if AllFine(readers) { FineLookup(readers, key); }
    if r.ReadFailed? { return GetFailed; }
    return Got(FromTable(r.hit));
  }

  /** A table's answer; a nil value reads as no value. */
  function FromTable(hit: Option<Record>): GetResult {
    if hit.Some? && !hit.value.tombstone && hit.value.value != [] then Found(hit.value.value) else NotFound
  }

  lemma FirstHitTwo(a: seq<Record>, b: seq<Record>, key: Bytes)
    ensures FirstHit([a, b], key) == match Find(a, key) case Some(e) => Some(e) case None => Find(b, key)
  {
    assert [a, b][1..] == [b];
    FirstHitOne(b, key);
  }

  // ----- what a flush does to reads --------------------------------------------------

  function Freeze(l: Layers): Layers {
    l.(active := [], queue := l.queue + [l.active])
  }

  function Publish(l: Layers): Layers
    requires l.queue != []
  {
    l.(tables := l.tables + [l.queue[0]])
  }

  function Pop(l: Layers): Layers
    requires l.queue != []
  {
    l.(queue := l.queue[1..])
  }

  lemma ReverseSnoc(ls: seq<seq<Record>>, x: seq<Record>)
    ensures Reverse(ls + [x]) == [x] + Reverse(ls)
  {
  }

  lemma ReverseCons(ls: seq<seq<Record>>)
    requires ls != []
    ensures Reverse(ls) == Reverse(ls[1..]) + [ls[0]]
  {
  }

  /** Freezing the active memtable changes no read. */
  lemma FreezeTransparent(l: Layers, key: Bytes)
    ensures Get(Freeze(l), key) == Get(l, key)
  {
    hide BatchListing, Reverse;
    var p, q := BatchListing(l.pending), Reverse(l.queue);
    ReverseSnoc(l.queue, l.active);
    assert MemLayers(Freeze(l)) == [p, []] + ([l.active] + q);
    assert MemLayers(l) == [p, l.active] + q;
    FirstHitAppend([p, []], [l.active] + q, key);
    FirstHitAppend([l.active], q, key);
    FirstHitAppend([p, l.active], q, key);
    FirstHitTwo(p, [], key);
    FirstHitTwo(p, l.active, key);
    FirstHitOne(l.active, key);
  }

  /** The in-memory layers split into everything above the queue head and the head. */
  lemma MemSplit(l: Layers, key: Bytes)
    requires l.queue != []
    ensures FirstHit(MemLayers(l), key) ==
      match FirstHit(MemLayers(Pop(l)), key) case Some(e) => Some(e) case None => Find(l.queue[0], key)
  {
    hide BatchListing, Reverse, FirstHit;
    ReverseCons(l.queue);
    assert MemLayers(l) == MemLayers(Pop(l)) + [l.queue[0]];
    FirstHitAppend(MemLayers(Pop(l)), [l.queue[0]], key);
    FirstHitOne(l.queue[0], key);
  }

  /** Listing the head's table changes no read: the head still answers first. */
  lemma PublishTransparent(l: Layers, key: Bytes)
    requires l.queue != []
    ensures Get(Publish(l), key) == Get(l, key)
  {
    hide BatchListing, Reverse, FirstHit;
    MemSplit(l, key);
    ReverseSnoc(l.tables, l.queue[0]);
    FirstHitAppend([l.queue[0]], Reverse(l.tables), key);
    FirstHitOne(l.queue[0], key);
    assert MemLayers(Publish(l)) == MemLayers(l);
  }

  /** The key's newest in-memory entry is the head's, live, with an empty value. */
  predicate EmptyOnlyInHead(l: Layers, key: Bytes)
    requires l.queue != []
  {
    FirstHit(MemLayers(Pop(l)), key).None? && Find(l.queue[0], key).Some? &&
    !Find(l.queue[0], key).value.tombstone && Find(l.queue[0], key).value.value == []
  }

  /** Popping the head after its table is listed changes a read exactly when the head held a live empty value. */
  lemma PopTransparentExactly(l: Layers, key: Bytes)
    requires l.queue != []
    ensures Get(Pop(Publish(l)), key) == Get(l, key) <==> !EmptyOnlyInHead(l, key)
    ensures EmptyOnlyInHead(l, key) ==> Get(l, key) == Found([]) && Get(Pop(Publish(l)), key) == NotFound
  {
    hide BatchListing, Reverse, FirstHit;
    MemSplit(l, key);
    ReverseSnoc(l.tables, l.queue[0]);
    FirstHitAppend([l.queue[0]], Reverse(l.tables), key);
    FirstHitOne(l.queue[0], key);
    assert MemLayers(Pop(Publish(l))) == MemLayers(Pop(l));
  }

  /** Popping before the table is listed loses a key of the head, unless an upper layer or the tables agree on it. */
  lemma EarlyPopLosesHead(l: Layers, key: Bytes)
    requires l.queue != [] && Find(l.queue[0], key).Some? && !Find(l.queue[0], key).value.tombstone
    requires FirstHit(MemLayers(Pop(l)), key).None? && FirstHit(Reverse(l.tables), key).None?
    ensures Get(l, key).Found? && Get(Pop(l), key) == NotFound
  {
    hide BatchListing, Reverse, FirstHit;
    MemSplit(l, key);
  }

  /** Flushing the whole queue in order, head by head. */
  function FlushAll(l: Layers): Layers
    decreases |l.queue|
  {
    if l.queue == [] then l else FlushAll(Pop(Publish(l)))
  }

  lemma {:induction false} FlushAllResult(l: Layers)
    ensures FlushAll(l) == l.(tables := l.tables + l.queue, queue := [])
    decreases |l.queue|
  {
    if l.queue == [] {
      assert l.tables + l.queue == l.tables;
    } else {
      var next := Pop(Publish(l));
      FlushAllResult(next);
      assert l.tables + l.queue == next.tables + next.queue;
    }
  }

  /** The key's newest entry is in the queue, live, with an empty value. */
  predicate EmptyInQueue(l: Layers, key: Bytes) {
    FirstHit([BatchListing(l.pending), l.active], key).None? && FirstHit(Reverse(l.queue), key).Some? &&
    !FirstHit(Reverse(l.queue), key).value.tombstone && FirstHit(Reverse(l.queue), key).value.value == []
  }

  /** Flushing any number of queued memtables changes a read exactly when the queue answers it with a live
      empty value. */
  lemma FlushAllTransparentExactly(l: Layers, key: Bytes)
    ensures Get(FlushAll(l), key) == Get(l, key) <==> !EmptyInQueue(l, key)
    ensures EmptyInQueue(l, key) ==> Get(l, key) == Found([]) && Get(FlushAll(l), key) == NotFound
  {
    hide BatchListing, Reverse, FirstHit, FlushAll;
    FlushAllResult(l);
    var top, queue, tables := [BatchListing(l.pending), l.active], Reverse(l.queue), Reverse(l.tables);
    assert Reverse([]) == [] && top + [] == top;
    ReverseBoth(l.tables, l.queue);
    FirstHitAppend(top, queue, key);
    FirstHitAppend(queue, tables, key);
  }

  lemma ReverseBoth(a: seq<seq<Record>>, b: seq<seq<Record>>)
    ensures Reverse(a + b) == Reverse(b) + Reverse(a)
  {
  }
}

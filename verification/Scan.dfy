/** Range scans over the merged layers, compared with point reads. */
module Scan {
  import opened ByteStrings
  import opened Records
  import opened Merge
  import opened MergeReach
  import opened MergeIterators
  import opened ReadPath

  const PRIORITY_PENDING := 1_000_001
  const PRIORITY_ACTIVE := 1_000_000
  const PRIORITY_IMMUTABLE := 999_999

  // ----- MergeIterator -----------------------------------------------------------

  /** `MergeIterator`: tombstones are skipped and never shown. */
  class MergeIterator {
    const sources: seq<Source>
    var key: Bytes
    var value: Bytes
    var valid: bool

    constructor (sources: seq<Source>)
      ensures this.sources == sources && !valid
    {
      this.sources, this.key, this.value, this.valid := sources, [], [], false;
    }

    /** The current entry and everything after it. */
    ghost function Upcoming(): seq<Record>
      reads this, Iters(sources)
    {
      if valid then [Record(key, value, false)] + Emitted(RestsOf(sources), Priorities(sources), true) else []
    }

    ghost predicate Ready() {
      Apart(sources) && this !in Iters(sources)
    }

    method Seek(target: Bytes)
      requires Ready()
      modifies this, Iters(sources)
      ensures Upcoming() == Emitted(Sought(Entries(sources), target), Priorities(sources), true)
    {
      hide Emitted;
      for i := 0 to |sources|
        invariant forall j :: 0 <= j < i ==> sources[j].it.Rest() == From(sources[j].it.entries, target)
      {
        sources[i].it.Seek(target);
      }
      assert RestsOf(sources) == Sought(Entries(sources), target);
      Advance();
    }

    method Next()
      requires Ready()
      modifies this, Iters(sources)
      ensures old(valid) ==> Upcoming() == old(Upcoming())[1..]
    {
      ghost var after := Emitted(RestsOf(sources), Priorities(sources), true);
      assert valid ==> Upcoming()[1..] == after;
      Advance();
    }

    method Advance()
      requires Ready()
      modifies this, Iters(sources)
      ensures Upcoming() == old(Emitted(RestsOf(sources), Priorities(sources), true))
    {
      hide Emitted, RestsOf, Priorities;
      ghost var all := Emitted(RestsOf(sources), Priorities(sources), true);
      var e, ok := MergeStep(sources, true);
      if !ok {
        valid, key, value := false, [], [];
        return;
      }
      assert all[0] == e;
      EmittedIsLive(old(RestsOf(sources)), Priorities(sources), e);
      key, value, valid := e.key, e.value, true;
    }
  }

  lemma EmittedIsLive(rests: Rests, pris: seq<int>, e: Record)
    requires |rests| == |pris| && e in Emitted(rests, pris, true)
    ensures !e.tombstone
  {
    LiveOnlyExact(Merged(rests, pris), e);
  }

  ghost function Entries(srcs: seq<Source>): Rests {
    seq(|srcs|, i requires 0 <= i < |srcs| => srcs[i].it.entries)
  }

  function Sought(rests: Rests, target: Bytes): Rests {
    seq(|rests|, i requires 0 <= i < |rests| => From(rests[i], target))
  }

  // ----- the sources of a scan -----------------------------------------------------

  /** The sources in the order Scan builds them; an empty batch is left out. */
  function ScanRests(l: Layers): Rests {
    MemSources(l) + l.tables
  }

  function MemSources(l: Layers): Rests {
    var snap := BatchListing(l.pending);
    (if snap == [] then [] else [snap]) + [l.active] + Reverse(l.queue)
  }

  lemma SourceIsLayer(l: Layers, i: nat)
    requires i < |ScanRests(l)|
    ensures var src := ScanRests(l)[i];
      src == BatchListing(l.pending) || src == l.active || src in l.queue || src in l.tables
  {
    hide BatchListing;
    var m := MemSources(l);
    if i < |m| {
      assert m[i] == BatchListing(l.pending) || m[i] == l.active || m[i] in Reverse(l.queue);
    } else {
      assert ScanRests(l)[i] == l.tables[i - |m|];
    }
  }

  function ScanPriorities(l: Layers): seq<int> {
    var snap := BatchListing(l.pending);
    (if snap == [] then [] else [PRIORITY_PENDING]) + [PRIORITY_ACTIVE]
    + seq(|l.queue|, j => PRIORITY_IMMUTABLE - j) + seq(|l.tables|, i => i)
  }

  /** Newer layers have higher priorities, for all layers, exactly while the layers fit below the fixed priorities. */
  lemma PrioritiesFollowAge(l: Layers)
    ensures |ScanRests(l)| == |ScanPriorities(l)|
    ensures var n, m := |ScanRests(l)|, |MemSources(l)|;
      |l.queue| + |l.tables| <= 1_000_000 ==>
        && Ranked(ScanPriorities(l))
        && (forall i, j :: 0 <= i < j < m ==> ScanPriorities(l)[i] > ScanPriorities(l)[j])
        && (forall i, j :: 0 <= i < m <= j < n ==> ScanPriorities(l)[i] > ScanPriorities(l)[j])
        && (forall i, j :: m <= i < j < n ==> ScanPriorities(l)[i] < ScanPriorities(l)[j])
    ensures l.queue != [] && l.tables != [] && |l.queue| + |l.tables| > 1_000_000 ==>
      ScanPriorities(l)[|MemSources(l)| - 1] <= ScanPriorities(l)[|ScanRests(l)| - 1]
  {
    hide BatchListing, Reverse;
  }

  /** The i-th source in order of age, newest first; the map is its own inverse. */
  function ByAge(l: Layers, i: nat): (p: nat)
    requires i < |ScanRests(l)|
    ensures p < |ScanRests(l)|
  {
    var m, n := |MemSources(l)|, |ScanRests(l)|;
    if i < m then i else m + (n - 1 - i)
  }

  /** All layers, newest first. */
  function AllLayers(l: Layers): (r: Rests)
    ensures |r| == |ScanRests(l)|
  {
    MemSources(l) + Reverse(l.tables)
  }

  lemma LayersByAge(l: Layers, i: nat)
    requires i < |ScanRests(l)|
    ensures AllLayers(l)[i] == ScanRests(l)[ByAge(l, i)] && ByAge(l, ByAge(l, i)) == i
  {
    hide MemSources;
  }

  ghost predicate AgedPriorities(l: Layers) {
    |ScanRests(l)| == |ScanPriorities(l)| && Ranked(ScanPriorities(l)) &&
    forall i, j :: 0 <= i < j < |ScanRests(l)| ==> ScanPriorities(l)[ByAge(l, i)] > ScanPriorities(l)[ByAge(l, j)]
  }

  lemma PrioritiesAged(l: Layers)
    requires |l.queue| + |l.tables| <= 1_000_000
    ensures AgedPriorities(l)
  {
    hide MemSources, ScanPriorities, ScanRests;
    PrioritiesFollowAge(l);
    SourceCount(l);
  }

  lemma SourceCount(l: Layers)
    ensures |MemSources(l)| <= |ScanRests(l)|
  {
  }

  lemma {:induction false} FirstHitAt(ls: seq<seq<Record>>, key: Bytes) returns (p: int)
    ensures -1 <= p < |ls|
    ensures p < 0 ==> FirstHit(ls, key).None? && forall i :: 0 <= i < |ls| ==> Find(ls[i], key).None?
    ensures p >= 0 ==> FirstHit(ls, key).Some? && FirstHit(ls, key) == Find(ls[p], key)
    ensures p >= 0 ==> forall i :: 0 <= i < p ==> Find(ls[i], key).None?
  {
    if ls == [] { return -1; }
    if Find(ls[0], key).Some? { return 0; }
    p := FirstHitAt(ls[1..], key);
    if p >= 0 { p := p + 1; }
  }

  lemma HasKeyIsFind(es: seq<Record>, key: Bytes)
    ensures HasKey(es, key) <==> Find(es, key).Some?
  {
    FindNone(es, key);
  }

  /** Sources given in the order of the scan, put in order of age, newest first. */
  ghost function NewestFirst(l: Layers, rests: Rests): (r: Rests)
    requires |rests| == |ScanRests(l)|
    ensures |r| == |rests| && forall i :: 0 <= i < |rests| ==> r[i] == rests[ByAge(l, i)]
  {
    seq(|rests|, i requires 0 <= i < |rests| => rests[ByAge(l, i)])
  }

  lemma AllNewestFirst(l: Layers)
    ensures NewestFirst(l, ScanRests(l)) == AllLayers(l)
  {
    hide ByAge, ScanRests, AllLayers;
    forall i | 0 <= i < |ScanRests(l)| ensures NewestFirst(l, ScanRests(l))[i] == AllLayers(l)[i] { LayersByAge(l, i); }
  }

  /** Highest priority is newest layer: the merge's winner is what a newest-first search finds. */
  lemma BestIsFirstHit(l: Layers, rests: Rests, e: Record)
    requires AgedPriorities(l) && |rests| == |ScanRests(l)| && AllSorted(rests)
    ensures IsBest(rests, ScanPriorities(l), e) <==> FirstHit(NewestFirst(l, rests), e.key) == Some(e)
  {
    hide ScanPriorities, ScanRests, ByAge, Find, FirstHit;
    var pris, all, key := ScanPriorities(l), NewestFirst(l, rests), e.key;
    var p := FirstHitAt(all, key);
    if p < 0 {
      forall i | 0 <= i < |rests| ensures e !in rests[i] {
        LayersByAge(l, i);
        assert all[ByAge(l, i)] == rests[i];
        FindNone(rests[i], key);
      }
    } else {
      var i := ByAge(l, p);
      forall j | 0 <= j < |rests| && HasKey(rests[j], key) ensures pris[j] <= pris[i] {
        LayersByAge(l, j);
        assert all[ByAge(l, j)] == rests[j];
        HasKeyIsFind(rests[j], key);
        assert ByAge(l, j) >= p;
      }
      assert Dominates(rests, pris, i, key);
      HasKeyIsFind(rests[i], key);
      OnlyOneBest(rests, pris, i, e);
      FindIsMembership(rests[i], e);
    }
  }

  lemma OnlyOneBest(rests: Rests, pris: seq<int>, i: nat, e: Record)
    requires |rests| == |pris| && Ranked(pris) && i < |rests|
    requires Dominates(rests, pris, i, e.key) && HasKey(rests[i], e.key)
    ensures IsBest(rests, pris, e) <==> e in rests[i]
  {
    if IsBest(rests, pris, e) {
      var j :| 0 <= j < |rests| && e in rests[j] && Dominates(rests, pris, j, e.key);
      assert HasKey(rests[j], e.key);
    }
  }

  // ----- Scan ----------------------------------------------------------------------

  /** In [start, end); an empty end is unbounded. */
  predicate InRange(key: Bytes, start: Bytes, end: Bytes) {
    !Less(key, start) && (end == [] || Less(key, end))
  }

  /** `ScanIterator.Valid` ends the scan at the first key not below the end. */
  function TakeBelow(es: seq<Record>, end: Bytes): seq<Record> {
    if es == [] || !(end == [] || Less(es[0].key, end)) then [] else [es[0]] + TakeBelow(es[1..], end)
  }

  lemma {:induction false} TakeBelowExact(es: seq<Record>, end: Bytes)
    requires Sorted(es)
    ensures Sorted(TakeBelow(es, end))
    ensures forall e :: e in TakeBelow(es, end) <==> e in es && (end == [] || Less(e.key, end))
  {
    if es != [] {
      assert forall x :: x in es <==> x == es[0] || x in es[1..];
      if end == [] || Less(es[0].key, end) {
        TakeBelowExact(es[1..], end);
        forall e | e in TakeBelow(es[1..], end) ensures Less(es[0].key, e.key) {
          var i :| 0 <= i < |es[1..]| && es[1..][i] == e;
          assert Less(es[0].key, es[i + 1].key);
        }
      } else {
        forall e | e in es ensures !Less(e.key, end) {
          var i :| 0 <= i < |es| && es[i] == e;
          if i > 0 && Less(e.key, end) { LessTransitive(es[0].key, es[i].key, end); }
        }
      }
    }
  }

  /** The entries a scan yields, as the code computes them. */
  ghost function ScanList(l: Layers, start: Bytes, end: Bytes): seq<Record>
    requires |ScanRests(l)| == |ScanPriorities(l)|
  {
    TakeBelow(Emitted(Sought(ScanRests(l), start), ScanPriorities(l), true), end)
  }

  lemma SoughtSorted(rests: Rests, target: Bytes)
    requires AllSorted(rests)
    ensures AllSorted(Sought(rests, target))
  {
    forall i | 0 <= i < |rests| ensures Sorted(Sought(rests, target)[i]) { FromExact(rests[i], target); }
  }

  /** What a scan can see of its sources, in their order. */
  ghost function Reached(l: Layers, start: Bytes): (r: Rests)
    ensures |r| == |ScanRests(l)|
  {
    Reach(Sought(ScanRests(l), start))
  }

  /** The newest entry of the key that the scan can see. */
  ghost function Seen(l: Layers, start: Bytes, key: Bytes): Option<Record> {
    FirstHit(NewestFirst(l, Reached(l, start)), key)
  }

  /** A scan yields, in ascending key order, exactly the live newest entries that it can see of the keys in range. */
  lemma ScanIsNewestSeen(l: Layers, start: Bytes, end: Bytes)
    requires AllSorted(ScanRests(l)) && |l.queue| + |l.tables| <= 1_000_000
    ensures |ScanRests(l)| == |ScanPriorities(l)| && Sorted(ScanList(l, start, end))
    ensures forall e :: e in ScanList(l, start, end) <==>
      InRange(e.key, start, end) && !e.tombstone && Seen(l, start, e.key) == Some(e)
  {
    hide ScanRests, ScanPriorities, Emitted, IsBest, TakeBelow, WellFormed, AllSorted, FirstHit, Reach, NewestFirst;
    PrioritiesAged(l);
    var rests, pris := Sought(ScanRests(l), start), ScanPriorities(l);
    SoughtSorted(ScanRests(l), start);
    MergeTheorem(rests, pris, true);
    TakeBelowExact(Emitted(rests, pris, true), end);
    ReachSorted(rests);
    forall e ensures e in ScanList(l, start, end) <==>
      InRange(e.key, start, end) && !e.tombstone && Seen(l, start, e.key) == Some(e)
    {
      BestIsFirstHit(l, Reach(rests), e);
      if IsBest(Reach(rests), pris, e) { ReachedNotBelow(ScanRests(l), start, pris, e); }
    }
  }

  lemma ReachSorted(rests: Rests)
    requires AllSorted(rests)
    ensures AllSorted(Reach(rests))
  {
    hide Reach;
    ReachWellFormed(rests);
  }

  lemma ReachedNotBelow(rests: Rests, start: Bytes, pris: seq<int>, e: Record)
    requires AllSorted(rests) && |rests| == |pris| && IsBest(Reach(Sought(rests, start)), pris, e)
    ensures !Less(e.key, start)
  {
    hide IsBest;
    BestComesFromSource(Reach(Sought(rests, start)), pris, e);
    var i :| 0 <= i < |rests| && e in Reach(Sought(rests, start))[i];
    assert e in Sought(rests, start)[i];
    FromExact(rests[i], start);
  }

  // ----- what a scan can see -----------------------------------------------------------

  /** Sorted sources, and a start that skips the empty key if any source holds it. */
  ghost predicate Scannable(rests: Rests, start: Bytes) {
    AllSorted(rests) && (start == [] ==> forall i :: 0 <= i < |rests| ==> NoEmptyKey(rests[i]))
  }

  lemma SoughtWellFormed(rests: Rests, target: Bytes)
    requires Scannable(rests, target)
    ensures WellFormed(Sought(rests, target))
  {
    assert target != [] ==> Less([], target);
    forall i | 0 <= i < |rests| ensures Sorted(Sought(rests, target)[i]) && NoEmptyKey(Sought(rests, target)[i]) {
      FromExact(rests[i], target);
    }
  }

  lemma FindAfterSeek(es: seq<Record>, target: Bytes, key: Bytes)
    requires Sorted(es) && !Less(key, target)
    ensures Find(From(es, target), key) == Find(es, key)
  {
    hide From, Find;
    FromExact(es, target);
    forall e: Record | e.key == key ensures Find(From(es, target), key) == Some(e) <==> Find(es, key) == Some(e) {
      FindIsMembership(es, e);
      FindIsMembership(From(es, target), e);
    }
    if Find(es, key).Some? { FindSome(es, key); }
    if Find(From(es, target), key).Some? { FindSome(From(es, target), key); }
  }

  lemma {:induction false} SameHits(a: Rests, b: Rests, key: Bytes)
    requires |a| == |b| && forall i :: 0 <= i < |a| ==> Find(a[i], key) == Find(b[i], key)
    ensures FirstHit(a, key) == FirstHit(b, key)
  {
    hide Find;
    if a != [] { SameHits(a[1..], b[1..], key); }
  }

  /** A scan that starts past the empty key, or over sources without it, sees the newest entry of every key in range. */
  lemma SeesAll(l: Layers, start: Bytes, key: Bytes)
    requires Scannable(ScanRests(l), start) && !Less(key, start)
    ensures Seen(l, start, key) == FirstHit(AllLayers(l), key)
  {
    hide ScanRests, AllLayers, FirstHit, Find, Reach, ByAge;
    var rests := ScanRests(l);
    SoughtWellFormed(rests, start);
    ReachAll(Sought(rests, start));
    AllNewestFirst(l);
    var a, b := NewestFirst(l, Sought(rests, start)), NewestFirst(l, rests);
    forall i | 0 <= i < |a| ensures Find(a[i], key) == Find(b[i], key) { FindAfterSeek(b[i], start, key); }
    SameHits(a, b, key);
  }

  /** In general it does so for every key whose newest entry is in a source listed after the last empty key. */
  lemma SeesLateSources(l: Layers, start: Bytes, key: Bytes, p: nat)
    requires AllSorted(ScanRests(l)) && !Less(key, start) && p < |AllLayers(l)|
    requires FirstHit(AllLayers(l), key) == Find(AllLayers(l)[p], key) != None
    requires forall i :: 0 <= i < p ==> Find(AllLayers(l)[i], key).None?
    requires ByAge(l, p) > LastEmpty(Sought(ScanRests(l), start))
    ensures Seen(l, start, key) == FirstHit(AllLayers(l), key)
  {
    hide ScanRests, AllLayers, FirstHit, Find, ByAge, LastEmpty, Late, InStep;
    var rests := ScanRests(l);
    AllNewestFirst(l);
    var all, seen := AllLayers(l), NewestFirst(l, Reached(l, start));
    assert all == NewestFirst(l, rests);
    assert seen[p] == Sought(rests, start)[ByAge(l, p)];
    FindAfterSeek(all[p], start, key);
    forall i | 0 <= i < p ensures Find(seen[i], key).None? { ReachedFindsLess(rests, start, ByAge(l, i), key); }
    FirstHitIs(seen, key, p);
  }

  lemma ReachedFindsLess(rests: Rests, start: Bytes, i: nat, key: Bytes)
    requires i < |rests| && Find(rests[i], key).None?
    ensures Find(Reach(Sought(rests, start))[i], key).None?
  {
    hide LastEmpty, Late, Find;
    var r := Reach(Sought(rests, start))[i];
    FindNone(rests[i], key);
    assert forall e :: e in r ==> e in Sought(rests, start)[i];
    FromMembers(rests[i], start);
    FindNone(r, key);
  }

  lemma {:induction false} FromMembers(es: seq<Record>, target: Bytes)
    ensures forall e :: e in From(es, target) ==> e in es
  {
    if es != [] && Less(es[0].key, target) { FromMembers(es[1..], target); }
  }

  lemma {:induction false} FirstHitIs(ls: Rests, key: Bytes, p: nat)
    requires p < |ls| && Find(ls[p], key).Some? && forall i :: 0 <= i < p ==> Find(ls[i], key).None?
    ensures FirstHit(ls, key) == Find(ls[p], key)
  {
    hide Find;
    if p > 0 { FirstHitIs(ls[1..], key, p - 1); }
  }

  // ----- Scan against Get ------------------------------------------------------------

  lemma LayersAsGetSeesThem(l: Layers, key: Bytes)
    ensures FirstHit(AllLayers(l), key) ==
      match FirstHit(MemLayers(l), key) case Some(e) => Some(e) case None => FirstHit(Reverse(l.tables), key)
  {
    hide BatchListing, Reverse, FirstHit;
    var snap := BatchListing(l.pending);
    FirstHitAppend(MemSources(l), Reverse(l.tables), key);
    if snap == [] {
      assert MemSources(l) == [l.active] + Reverse(l.queue);
      assert MemLayers(l) == [snap] + MemSources(l);
      FirstHitAppend([snap], MemSources(l), key);
      FirstHitOne(snap, key);
    } else {
      assert MemSources(l) == MemLayers(l);
    }
  }

  /** The newest entry of the key is in a table, live, with an empty value. */
  predicate EmptyInTable(l: Layers, key: Bytes) {
    FirstHit(MemLayers(l), key).None? && FirstHit(Reverse(l.tables), key).Some? &&
    !FirstHit(Reverse(l.tables), key).value.tombstone && FirstHit(Reverse(l.tables), key).value.value == []
  }

  lemma {:induction false} FirstHitKey(ls: seq<seq<Record>>, key: Bytes)
    requires FirstHit(ls, key).Some?
    ensures FirstHit(ls, key).value.key == key
  {
    if Find(ls[0], key).Some? { FindSome(ls[0], key); } else { FirstHitKey(ls[1..], key); }
  }

  function LiveValue(hit: Option<Record>): Option<Bytes> {
    if hit.Some? && !hit.value.tombstone then Some(hit.value.value) else None
  }

  lemma GetIsNewestLive(l: Layers, key: Bytes)
    ensures Get(l, key) == match if EmptyInTable(l, key) then None else LiveValue(FirstHit(AllLayers(l), key))
      case Some(v) => Found(v) case None => NotFound
  {
    hide MemLayers, Reverse, FirstHit, AllLayers;
    LayersAsGetSeesThem(l, key);
  }

  /** A scan yields exactly the live values it can see in its range. */
  lemma ScanYields(l: Layers, start: Bytes, end: Bytes, key: Bytes, value: Bytes)
    requires AllSorted(ScanRests(l)) && |l.queue| + |l.tables| <= 1_000_000
    ensures |ScanRests(l)| == |ScanPriorities(l)|
    ensures Record(key, value, false) in ScanList(l, start, end) <==>
      InRange(key, start, end) && LiveValue(Seen(l, start, key)) == Some(value)
  {
    hide ScanRests, ScanPriorities, ScanList, FirstHit, AllSorted, NewestFirst, Reached;
    ScanIsNewestSeen(l, start, end);
    if Seen(l, start, key).Some? { FirstHitKey(NewestFirst(l, Reached(l, start)), key); }
  }

  ghost predicate ScanAgreesWithGet(l: Layers, start: Bytes, end: Bytes)
    requires |ScanRests(l)| == |ScanPriorities(l)|
  {
    forall key, value :: Record(key, value, false) in ScanList(l, start, end) <==>
      InRange(key, start, end) && Get(l, key) == Found(value)
  }

  /** The newest entry that the scan can see is another one than the newest there is, and that changes the answer;
      or both are a live empty value in a table, which only Get takes for nothing. */
  ghost predicate Misread(l: Layers, start: Bytes, key: Bytes) {
    LiveValue(Seen(l, start, key)) != if EmptyInTable(l, key) then None else LiveValue(FirstHit(AllLayers(l), key))
  }

  /** Scan(start, end) equals Get on every key of the range, if and only if it misreads no key of the range. */
  lemma ScanEqualsGetExactly(l: Layers, start: Bytes, end: Bytes)
    requires AllSorted(ScanRests(l)) && |l.queue| + |l.tables| <= 1_000_000
    ensures |ScanRests(l)| == |ScanPriorities(l)|
    ensures ScanAgreesWithGet(l, start, end) <==> forall key :: InRange(key, start, end) ==> !Misread(l, start, key)
  {
    hide ScanRests, ScanPriorities, ScanList, AllSorted, EmptyInTable, FirstHit, AllLayers, Seen;
    PrioritiesFollowAge(l);
    forall key, value ensures Record(key, value, false) in ScanList(l, start, end) <==>
      InRange(key, start, end) && LiveValue(Seen(l, start, key)) == Some(value)
    {
      ScanYields(l, start, end, key, value);
    }
    forall key ensures Get(l, key) == match if EmptyInTable(l, key) then None
      else LiveValue(FirstHit(AllLayers(l), key))
      case Some(v) => Found(v) case None => NotFound
    {
      GetIsNewestLive(l, key);
    }
    if ScanAgreesWithGet(l, start, end) {
      forall key | InRange(key, start, end) ensures !Misread(l, start, key) {
        var seen := LiveValue(Seen(l, start, key));
        if seen.Some? { assert Record(key, seen.value, false) in ScanList(l, start, end); }
        if Get(l, key).Found? { assert Record(key, Get(l, key).value, false) in ScanList(l, start, end); }
      }
    }
  }

  /** With the empty key out of the way, the only misread keys are live empty values in a table. */
  lemma MisreadWithoutEmptyKey(l: Layers, start: Bytes, key: Bytes)
    requires Scannable(ScanRests(l), start) && !Less(key, start)
    ensures Misread(l, start, key) <==> EmptyInTable(l, key)
  {
    hide ScanRests, AllLayers, FirstHit, Seen, MemLayers, Reverse;
    SeesAll(l, start, key);
    LayersAsGetSeesThem(l, key);
  }

  /** A scan from the beginning misreads every live key that no source after the last empty key holds,
      itself included. */
  lemma UnseenKeysVanish(l: Layers, key: Bytes)
    requires AllSorted(ScanRests(l)) && !Late(ScanRests(l), key)
    ensures Seen(l, [], key) == None && (Misread(l, [], key) <==> Get(l, key).Found?)
  {
    hide ScanRests, AllLayers, FirstHit, LastEmpty, Late, EmptyInTable, ByAge;
    var seen := NewestFirst(l, Reached(l, []));
    FromEverything(ScanRests(l));
    GetIsNewestLive(l, key);
    forall i | 0 <= i < |seen| ensures Find(seen[i], key).None? {
      forall e: Record | e in seen[i] ensures e.key != key { ReachedIsLate(ScanRests(l), ByAge(l, i), e); }
      FindNone(seen[i], key);
    }
    var p := FirstHitAt(seen, key);
  }

  lemma FromEverything(rests: Rests)
    ensures Sought(rests, []) == rests
  {
  }

  /** Deleting the empty key makes a scan from the beginning return a value that was overwritten. */
  lemma EmptyKeyMakesScansStale() returns (l: Layers)
    ensures l == Layers([], [Record([], [], true), Record([1], [7], false)], [], [[Record([1], [5], false)]])
    ensures Get(l, []) == NotFound && Get(l, [1]) == Found([7])
    ensures |ScanRests(l)| == |ScanPriorities(l)| && Record([1], [5], false) in ScanList(l, [], [])
  {
    var gone, new7, old5 := Record([], [], true), Record([1], [7], false), Record([1], [5], false);
    l := Layers([], [gone, new7], [], [[old5]]);
    var rests := [[gone, new7], [old5]];
    assert Reverse([]) == [] && ScanRests(l) == rests;
    assert [gone, new7][1..] == [new7] && [new7][1..] == [] && [old5][1..] == [];
    PrioritiesAged(l);
    FromEverything(rests);
    StaleMerge(rests, ScanPriorities(l), gone, new7, old5);
    assert LiveOnly([old5]) == [old5] + LiveOnly([]);
    assert TakeBelow([old5], []) == [old5] + TakeBelow([old5][1..], []);
    assert MemLayers(l) == [[], [gone, new7]] + Reverse([]);
    FirstHitTwo([], [gone, new7], []);
    FirstHitTwo([], [gone, new7], [1]);
    assert Find([gone, new7], [1]) == Find([new7], [1]);
  }

  lemma StaleMerge(rests: Rests, pris: seq<int>, gone: Record, new7: Record, old5: Record)
    requires gone.key == [] && new7.key == old5.key == [1] && rests == [[gone, new7], [old5]] && |pris| == 2 &&
      Ranked(pris)
    ensures Merged(rests, pris) == [old5]
  {
    assert MinKey(rests, 1) == [] && MinKey(rests, 2) == [1];
    assert Winner(rests, pris, [1], 1) == -1 && Winner(rests, pris, [1], 2) == 1;
    var next := Advance(rests, [1]);
    assert next == [[gone, new7], []];
    assert MinKey(next, 1) == [] && MinKey(next, 2) == [];
    assert Merged(next, pris) == [];
  }

  // ----- the code --------------------------------------------------------------------

  /** The source list that Scan builds, layer by layer. */
  method BuildSources(l: Layers) returns (rests: Rests, pris: seq<int>)
    ensures rests == ScanRests(l) && pris == ScanPriorities(l)
  {
    var snap := SnapshotPendingBatch(l.pending);
    rests, pris := [], [];
    if |snap| > 0 { rests, pris := [snap], [PRIORITY_PENDING]; }
    rests, pris := rests + [l.active], pris + [PRIORITY_ACTIVE];
    ghost var rests0, pris0 := rests, pris;
    var i := |l.queue|;
    while i > 0
      invariant 0 <= i <= |l.queue|
      invariant rests == rests0 + Reverse(l.queue)[..|l.queue| - i]
      invariant pris == pris0 + seq(|l.queue| - i, j => PRIORITY_IMMUTABLE - j)
    {
      i := i - 1;
      rests, pris := rests + [l.queue[i]], pris + [PRIORITY_IMMUTABLE - (|l.queue| - 1 - i)];
    }
    assert rests == MemSources(l);
    ghost var pris1 := pris;
    for t := 0 to |l.tables|
      invariant rests == MemSources(l) + l.tables[..t]
      invariant pris == pris1 + seq(t, i => i)
    {
      rests, pris := rests + [l.tables[t]], pris + [t];
    }
    assert l.tables[..|l.tables|] == l.tables;
  }

  method NewIterators(rests: Rests, pris: seq<int>) returns (srcs: seq<Source>)
    requires |rests| == |pris|
    ensures |srcs| == |rests| && Apart(srcs) && fresh(Iters(srcs))
    ensures Entries(srcs) == rests && Priorities(srcs) == pris && forall j :: 0 <= j < |srcs| ==> srcs[j].it.idx == 0
  {
    srcs := [];
    for i := 0 to |rests|
      invariant |srcs| == i && Apart(srcs)
      invariant forall j :: 0 <= j < i ==>
        fresh(srcs[j].it) && srcs[j].it.entries == rests[j] && srcs[j].priority == pris[j] && srcs[j].it.idx == 0
    {
      var it := new SliceIter(rests[i]);
      srcs := srcs + [Source(it, pris[i])];
    }
  }

  lemma ByteOrder(es: seq<Record>)
    requires Sorted(es)
    ensures forall i, k :: 0 <= i < k < |es| ==> Precedes(es[i].key, es[k].key)
  {
    forall i, k | 0 <= i < k < |es| ensures Precedes(es[i].key, es[k].key) { LessIsPrecedes(es[i].key, es[k].key); }
  }

  /** Keys in dictionary order, none before the start, and all before the end if there is one. */
  ghost predicate InByteRange(out: seq<Record>, start: Bytes, end: Bytes) {
    && (forall i, k :: 0 <= i < k < |out| ==> Precedes(out[i].key, out[k].key))
    && (forall i :: 0 <= i < |out| ==>
          !Precedes(out[i].key, start) && (end == [] || Precedes(out[i].key, end)))
  }

  lemma ScanInByteRange(l: Layers, start: Bytes, end: Bytes)
    requires AllSorted(ScanRests(l)) && |l.queue| + |l.tables| <= 1_000_000
    ensures |ScanRests(l)| == |ScanPriorities(l)| && InByteRange(ScanList(l, start, end), start, end)
  {
    hide ScanRests, ScanPriorities, ScanList, Seen, Sorted, Precedes, AllSorted;
    ScanIsNewestSeen(l, start, end);
    var out := ScanList(l, start, end);
    ByteOrder(out);
    forall i | 0 <= i < |out| ensures !Precedes(out[i].key, start) && (end == [] || Precedes(out[i].key, end)) {
      assert out[i] in out;
      LessIsPrecedes(out[i].key, start);
      LessIsPrecedes(out[i].key, end);
    }
  }

  /** `Scan` followed by Next until the iterator is exhausted. */
  method ScanRange(l: Layers, start: Bytes, end: Bytes) returns (out: seq<Record>)
    ensures |ScanRests(l)| == |ScanPriorities(l)| && out == ScanList(l, start, end)
    ensures AllSorted(ScanRests(l)) && |l.queue| + |l.tables| <= 1_000_000 ==> InByteRange(out, start, end)
  {
    hide ScanRests, ScanPriorities, Emitted, Sought, RestsOf, TakeBelow, InByteRange, AllSorted;
    if AllSorted(ScanRests(l)) && |l.queue| + |l.tables| <= 1_000_000 { ScanInByteRange(l, start, end); }
    PrioritiesFollowAge(l);
    var rests, pris := BuildSources(l);
    var srcs := NewIterators(rests, pris);
    var it := new MergeIterator(srcs);
    it.Seek(start);
    out := Drain(it, end);
  }

  /** Next while `ScanIterator.Valid` holds. */
  method Drain(it: MergeIterator, end: Bytes) returns (out: seq<Record>)
    requires it.Ready()
    modifies it, Iters(it.sources)
    ensures out == TakeBelow(old(it.Upcoming()), end)
  {
    hide Emitted, RestsOf, Priorities;
    out := [];
    ghost var all, rest := it.Upcoming(), it.Upcoming();
    while it.valid && (end == [] || Less(it.key, end))
      invariant rest == it.Upcoming() && TakeBelow(all, end) == out + TakeBelow(rest, end)
      decreases |rest|
    {
      out := out + [Record(it.key, it.value, false)];
      it.Next();
      rest := rest[1..];
    }
  }
}

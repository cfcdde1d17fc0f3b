/**
 * What the merge does when sources hold the empty key. The code takes that key for no key at all: a source that
 * stands at it never moves, and the scan for the least key forgets every source listed before it.
 */
module MergeReach {
  import opened ByteStrings
  import opened Records
  import opened Merge

  ghost predicate AllSorted(rests: Rests) {
    forall i :: 0 <= i < |rests| ==> Sorted(rests[i])
  }

  /** The last source standing at the empty key, which the code takes for no key; -1 if there is none. */
  function LastEmpty(rests: Rests): (i: int)
    ensures -1 <= i < |rests| && (i >= 0 ==> AtKey(rests[i], []))
    ensures forall j :: i < j < |rests| ==> !AtKey(rests[j], [])
  {
    if rests == [] then -1
    else if AtKey(rests[|rests| - 1], []) then |rests| - 1
    else LastEmpty(rests[..|rests| - 1])
  }

  /** Some source listed after the last empty key holds the key. */
  ghost predicate Late(rests: Rests, key: Bytes) {
    exists i :: LastEmpty(rests) < i < |rests| && HasKey(rests[i], key)
  }

  /** The leading entries whose keys the late sources hold too: as long as these match, an early source keeps
      in step. */
  ghost function InStep(es: seq<Record>, rests: Rests): (r: seq<Record>)
    ensures r <= es && forall e :: e in r ==> Late(rests, e.key)
  {
    if es == [] || !Late(rests, es[0].key) then [] else [es[0]] + InStep(es[1..], rests)
  }

  /** What the merge can reach of each source. */
  ghost function Reach(rests: Rests): (r: Rests)
    ensures |r| == |rests|
    ensures forall i :: 0 <= i < |rests| ==> r[i] == if i > LastEmpty(rests) then rests[i] else InStep(rests[i], rests)
  {
    seq(|rests|, i requires 0 <= i < |rests| => if i > LastEmpty(rests) then rests[i] else InStep(rests[i], rests))
  }

  lemma LateNotEmpty(rests: Rests, key: Bytes)
    requires AllSorted(rests) && Late(rests, key)
    ensures key != []
  {
    var i :| LastEmpty(rests) < i < |rests| && HasKey(rests[i], key);
    var e: Record :| e in rests[i] && e.key == key;
    if key == [] { SortedEmptyFirst(rests[i], e); }
  }

  /** In a sorted listing only the first key can be empty. */
  lemma SortedEmptyFirst(es: seq<Record>, e: Record)
    requires Sorted(es) && e in es && e.key == []
    ensures AtKey(es, [])
  {
    var p :| 0 <= p < |es| && es[p] == e;
    assert p > 0 ==> Less(es[0].key, es[p].key);
  }

  lemma ReachWellFormed(rests: Rests)
    requires AllSorted(rests)
    ensures WellFormed(Reach(rests))
  {
    hide LastEmpty, Late, InStep;
    forall i | 0 <= i < |rests| ensures Sorted(Reach(rests)[i]) && NoEmptyKey(Reach(rests)[i]) {
      forall e | e in Reach(rests)[i] ensures e.key != [] {
        if i > LastEmpty(rests) {
          if e.key == [] { SortedEmptyFirst(rests[i], e); }
        } else {
          LateNotEmpty(rests, e.key);
        }
      }
    }
  }

  /** Without the empty key everything is reached. */
  lemma ReachAll(rests: Rests)
    requires WellFormed(rests)
    ensures Reach(rests) == rests
  {
    forall i | 0 <= i < |rests| ensures !AtKey(rests[i], []) { assert rests[i] != [] ==> rests[i][0] in rests[i]; }
  }

  lemma SameEmpties(a: Rests, b: Rests)
    requires |a| == |b| && forall i :: 0 <= i < |a| ==> (AtKey(a[i], []) <==> AtKey(b[i], []))
    ensures LastEmpty(a) == LastEmpty(b)
  {
    hide LastEmpty, AtKey;
  }

  /** The late sources alone. */
  ghost function Tail(rests: Rests): (r: Rests)
    ensures |r| == |rests| && forall i :: 0 <= i < |rests| ==> r[i] == if i > LastEmpty(rests) then rests[i] else []
  {
    seq(|rests|, i requires 0 <= i < |rests| => if i > LastEmpty(rests) then rests[i] else [])
  }

  lemma TailWellFormed(rests: Rests)
    requires AllSorted(rests)
    ensures WellFormed(Tail(rests))
  {
    hide LastEmpty;
    forall i | 0 <= i < |rests| ensures Sorted(Tail(rests)[i]) && NoEmptyKey(Tail(rests)[i]) {
      forall e | e in Tail(rests)[i] ensures e.key != [] { if e.key == [] { SortedEmptyFirst(rests[i], e); } }
    }
  }

  lemma {:induction false} MinOfNothing(rests: Rests, n: nat)
    requires n <= |rests| && forall i :: 0 <= i < n ==> rests[i] == []
    ensures MinKey(rests, n) == []
  {
    if n > 0 { MinOfNothing(rests, n - 1); }
  }

  /** An empty head makes the scan for the least key start again behind it. */
  lemma {:induction false} MinKeyOfTail(rests: Rests, n: nat)
    requires LastEmpty(rests) < n <= |rests|
    ensures MinKey(rests, n) == MinKey(Tail(rests), n)
  {
    hide LastEmpty;
    if n == LastEmpty(rests) + 1 {
      MinOfNothing(Tail(rests), n);
    } else {
      MinKeyOfTail(rests, n - 1);
    }
  }

  lemma LateIsTail(rests: Rests, key: Bytes)
    ensures Late(rests, key) <==> exists i :: 0 <= i < |rests| && HasKey(Tail(rests)[i], key)
  {
    hide LastEmpty;
    if Late(rests, key) {
      var i :| LastEmpty(rests) < i < |rests| && HasKey(rests[i], key);
      assert HasKey(Tail(rests)[i], key);
    }
    if i :| 0 <= i < |rests| && HasKey(Tail(rests)[i], key) { assert i > LastEmpty(rests); }
  }

  /** The least key is the least late key. */
  lemma MinKeyLate(rests: Rests)
    requires AllSorted(rests)
    ensures var k := MinKey(rests, |rests|);
      && (k != [] ==> Late(rests, k))
      && forall key :: Late(rests, key) ==> k != [] && !Less(key, k)
  {
    hide LastEmpty, MinKey, Late;
    var tail, k := Tail(rests), MinKey(rests, |rests|);
    TailWellFormed(rests);
    MinKeyOfTail(rests, |rests|);
    if k != [] {
      MinKeyIsHead(tail, |rests|);
      var i :| 0 <= i < |rests| && AtKey(tail[i], k);
      assert tail[i][0] in tail[i] && HasKey(tail[i], k);
      LateIsTail(rests, k);
    }
    forall key | Late(rests, key) ensures k != [] && !Less(key, k) {
      LateIsTail(rests, key);
      var i :| 0 <= i < |rests| && HasKey(tail[i], key);
      var e: Record :| e in tail[i] && e.key == key;
      if k == [] { EmptyMinMeansDone(tail); } else { AdvanceExact(tail, i, e); LessIrreflexive(k); NotBelow(k, key); }
    }
  }

  lemma NotBelow(k: Bytes, key: Bytes)
    requires key == k || Less(k, key)
    ensures !Less(key, k)
  {
    LessIrreflexive(k);
    if Less(k, key) { LessAsymmetric(k, key); }
  }

  lemma HeadIsKey(es: seq<Record>)
    requires es != []
    ensures HasKey(es, es[0].key)
  {
    assert es[0] in es;
  }

  /** Reaching does not move the least key. */
  lemma ReachMinKey(rests: Rests)
    requires AllSorted(rests)
    ensures MinKey(Reach(rests), |rests|) == MinKey(rests, |rests|)
  {
    hide LastEmpty, MinKey, Late, HasKey;
    var reach, k := Reach(rests), MinKey(rests, |rests|);
    var m := MinKey(reach, |rests|);
    ReachWellFormed(rests);
    MinKeyLate(rests);
    if m != [] {
      MinKeyIsHead(reach, |rests|);
      var i :| 0 <= i < |rests| && AtKey(reach[i], m);
      HeadIsLate(rests, i);
    }
    if k != [] {
      HeadsNotEmpty(reach);
      var i := LateHolder(rests, k);
      MinKeyIsLeast(reach, |rests|, i);
      HeadOfLeast(rests, i, k);
      LessTotal(k, m);
    }
  }

  lemma HeadIsLate(rests: Rests, i: nat)
    requires i < |rests| && Reach(rests)[i] != []
    ensures Late(rests, Reach(rests)[i][0].key)
  {
    if i > LastEmpty(rests) { HeadIsKey(rests[i]); } else { assert Reach(rests)[i][0] in Reach(rests)[i]; }
  }

  lemma LateHolder(rests: Rests, key: Bytes) returns (i: nat)
    requires Late(rests, key)
    ensures LastEmpty(rests) < i < |rests| && HasKey(rests[i], key) && rests[i] != []
  {
    i :| LastEmpty(rests) < i < |rests| && HasKey(rests[i], key);
  }

  /** A late source that holds the least late key stands at it. */
  lemma HeadOfLeast(rests: Rests, i: nat, k: Bytes)
    requires AllSorted(rests) && LastEmpty(rests) < i < |rests| && HasKey(rests[i], k)
    requires forall key :: Late(rests, key) ==> !Less(key, k)
    ensures AtKey(rests[i], k)
  {
    hide LastEmpty;
    var e: Record :| e in rests[i] && e.key == k;
    HeadIsKey(rests[i]);
    assert Late(rests, rests[i][0].key);
    var p :| 0 <= p < |rests[i]| && rests[i][p] == e;
    assert p > 0 ==> Less(rests[i][0].key, rests[i][p].key);
  }

  // ----- one step ----------------------------------------------------------------

  lemma SameAtMin(rests: Rests, i: nat)
    requires AllSorted(rests) && i < |rests| && MinKey(rests, |rests|) != []
    ensures var k := MinKey(rests, |rests|);
      && (AtKey(rests[i], k) <==> AtKey(Reach(rests)[i], k))
      && (AtKey(rests[i], k) ==> rests[i][0] == Reach(rests)[i][0])
  {
    hide LastEmpty, MinKey;
    MinKeyLate(rests);
  }

  lemma {:induction false} SameWinner(a: Rests, b: Rests, pris: seq<int>, k: Bytes, n: nat)
    requires n <= |a| == |b| == |pris| && forall i :: 0 <= i < |a| ==> (AtKey(a[i], k) <==> AtKey(b[i], k))
    ensures Winner(a, pris, k, n) == Winner(b, pris, k, n)
  {
    if n > 0 { SameWinner(a, b, pris, k, n - 1); }
  }

  lemma AdvanceEmpties(rests: Rests, k: Bytes)
    requires AllSorted(rests) && k != []
    ensures LastEmpty(Advance(rests, k)) == LastEmpty(rests) && AllSorted(Advance(rests, k))
  {
    hide LastEmpty;
    var next := Advance(rests, k);
    forall i | 0 <= i < |rests| ensures AtKey(next[i], []) <==> AtKey(rests[i], []) {
      if AtKey(rests[i], k) && |rests[i]| > 1 { assert Less(rests[i][0].key, rests[i][1].key); }
    }
    SameEmpties(next, rests);
  }

  /** The step takes exactly the least key away from the late keys. */
  lemma AdvanceLate(rests: Rests, key: Bytes)
    requires AllSorted(rests) && MinKey(rests, |rests|) != []
    ensures var k := MinKey(rests, |rests|); Late(Advance(rests, k), key) <==> Late(rests, key) && key != k
  {
    hide LastEmpty, MinKey, HasKey, Late;
    var k, tail := MinKey(rests, |rests|), Tail(rests);
    var next := Advance(rests, k);
    AdvanceEmpties(rests, k);
    TailWellFormed(rests);
    MinKeyOfTail(rests, |rests|);
    assert Tail(next) == Advance(tail, k);
    LateIsTail(rests, key);
    LateIsTail(next, key);
    forall i | 0 <= i < |rests| ensures HasKey(Tail(next)[i], key) <==> HasKey(tail[i], key) && key != k {
      if key == k { LeastIsGone(tail, i); } else { KeyAfterAdvance(tail, i, key); }
    }
  }

  lemma LeastIsGone(rests: Rests, i: nat)
    requires WellFormed(rests) && i < |rests| && MinKey(rests, |rests|) != []
    ensures !HasKey(Advance(rests, MinKey(rests, |rests|))[i], MinKey(rests, |rests|))
  {
    hide MinKey;
    var k := MinKey(rests, |rests|);
    if HasKey(Advance(rests, k)[i], k) {
      var e: Record :| e in Advance(rests, k)[i] && e.key == k;
      AdvanceExact(rests, i, e);
    }
  }

  lemma {:induction false} InStepSame(es: seq<Record>, rests: Rests, next: Rests, k: Bytes)
    requires forall key :: Late(next, key) <==> Late(rests, key) && key != k
    requires forall e :: e in InStep(es, rests) ==> e.key != k
    ensures InStep(es, next) == InStep(es, rests)
  {
    hide Late;
    if es != [] && Late(rests, es[0].key) {
      assert InStep(es, rests)[0] == es[0];
      assert forall e :: e in InStep(es[1..], rests) ==> e in InStep(es, rests);
      InStepSame(es[1..], rests, next, k);
    }
  }

  /** A source in step meets the least key only at its head. */
  lemma InStepMeetsLeast(es: seq<Record>, rests: Rests, k: Bytes, e: Record)
    requires Sorted(es) && (forall key :: Late(rests, key) ==> !Less(key, k)) && e in InStep(es, rests) && e.key == k
    ensures AtKey(es, k)
  {
    hide Late;
    var r := InStep(es, rests);
    var p :| 0 <= p < |r| && r[p] == e;
    assert r[0] in r && es[0] == r[0] && es[p] == e;
    assert !Less(es[0].key, es[p].key);
  }

  lemma ReachAdvances(rests: Rests)
    requires AllSorted(rests) && MinKey(rests, |rests|) != []
    ensures var k := MinKey(rests, |rests|); Reach(Advance(rests, k)) == Advance(Reach(rests), k)
  {
    hide LastEmpty, MinKey, Late, InStep;
    var k := MinKey(rests, |rests|);
    var next, reach := Advance(rests, k), Reach(rests);
    AdvanceEmpties(rests, k);
    forall i | 0 <= i < |rests| ensures Reach(next)[i] == Advance(reach, k)[i] {
      SameAtMin(rests, i);
      if i <= LastEmpty(rests) { EarlyAdvances(rests, i); }
    }
  }

  lemma EarlyAdvances(rests: Rests, i: nat)
    requires AllSorted(rests) && MinKey(rests, |rests|) != [] && i < |rests|
    ensures AtKey(rests[i], MinKey(rests, |rests|)) ==> InStep(rests[i], rests) != []
    ensures var k := MinKey(rests, |rests|);
      InStep(Advance(rests, k)[i], Advance(rests, k)) ==
        if AtKey(rests[i], k) then InStep(rests[i], rests)[1..] else InStep(rests[i], rests)
  {
    hide LastEmpty, MinKey, Late;
    var k, es := MinKey(rests, |rests|), rests[i];
    var next := Advance(rests, k);
    MinKeyLate(rests);
    forall key ensures Late(next, key) <==> Late(rests, key) && key != k { AdvanceLate(rests, key); }
    if AtKey(es, k) {
      assert InStep(es, rests) == [es[0]] + InStep(es[1..], rests);
      forall e | e in InStep(es[1..], rests) ensures e.key != k { LaterIsGreater(es, e); }
      InStepSame(es[1..], rests, next, k);
    } else {
      forall e | e in InStep(es, rests) ensures e.key != k { if e.key == k { InStepMeetsLeast(es, rests, k, e); } }
      InStepSame(es, rests, next, k);
    }
  }

  lemma LaterIsGreater(es: seq<Record>, e: Record)
    requires Sorted(es) && es != [] && e in es[1..]
    ensures e.key != es[0].key
  {
    var p :| 0 <= p < |es[1..]| && es[1..][p] == e;
    assert Less(es[0].key, es[p + 1].key);
    LessIrreflexive(e.key);
  }

  // ----- the merge ---------------------------------------------------------------

  /** Merging sorted sources, whatever they hold, is merging what can be reached of them. */
  lemma {:induction false} MergedIsReached(rests: Rests, pris: seq<int>)
    requires AllSorted(rests) && |rests| == |pris|
    ensures Merged(rests, pris) == Merged(Reach(rests), pris)
    decreases Total(rests)
  {
    hide MinKey, Winner, Late, LastEmpty;
    var k := MinKey(rests, |rests|);
    ReachMinKey(rests);
    if k != [] {
      StepShrinks(rests);
      AdvanceEmpties(rests, k);
      MergedIsReached(Advance(rests, k), pris);
      ReachAdvances(rests);
      forall i | 0 <= i < |rests|
        ensures AtKey(rests[i], k) <==> AtKey(Reach(rests)[i], k)
        ensures AtKey(rests[i], k) ==> rests[i][0] == Reach(rests)[i][0]
      {
        SameAtMin(rests, i);
      }
      SameWinner(rests, Reach(rests), pris, k, |rests|);
    }
  }

  /** An entry is emitted exactly when its source has the highest priority of all that reach the key. */
  lemma MergedIsBest(rests: Rests, pris: seq<int>, e: Record)
    requires AllSorted(rests) && |rests| == |pris| && Ranked(pris)
    ensures e in Merged(rests, pris) <==> IsBest(Reach(rests), pris, e)
  {
    hide Merged, IsBest;
    MergedIsReached(rests, pris);
    ReachWellFormed(rests);
    PlainMergeIsBest(Reach(rests), pris, e);
  }

  /** Emitted keys ascend strictly. */
  lemma MergedSorted(rests: Rests, pris: seq<int>)
    requires AllSorted(rests) && |rests| == |pris| && Ranked(pris)
    ensures Sorted(Merged(rests, pris)) && NoEmptyKey(Merged(rests, pris))
  {
    hide Merged, IsBest;
    MergedIsReached(rests, pris);
    ReachWellFormed(rests);
    PlainMergeSorted(Reach(rests), pris);
    forall e | e in Merged(rests, pris) ensures e.key != [] {
      MergedIsBest(rests, pris, e);
      BestComesFromSource(Reach(rests), pris, e);
    }
  }

  /**
   * K-way merge. For sorted sources and distinct non-negative priorities, the output is strictly ascending and holds
   * exactly the best reached entry of every key, minus the tombstones when they are omitted; without the empty key
   * in any source everything is reached.
   */
  lemma MergeTheorem(rests: Rests, pris: seq<int>, omitTombstones: bool)
    requires AllSorted(rests) && |rests| == |pris| && Ranked(pris)
    ensures Sorted(Emitted(rests, pris, omitTombstones))
    ensures forall e :: e in Emitted(rests, pris, omitTombstones) <==>
      IsBest(Reach(rests), pris, e) && !(omitTombstones && e.tombstone)
    ensures WellFormed(rests) ==> Reach(rests) == rests
  {
    hide Merged, LiveOnly, IsBest;
    MergedSorted(rests, pris);
    LiveOnlySorted(Merged(rests, pris));
    forall e ensures e in Emitted(rests, pris, omitTombstones) <==>
      IsBest(Reach(rests), pris, e) && !(omitTombstones && e.tombstone) {
      MergedIsBest(rests, pris, e);
      LiveOnlyExact(Merged(rests, pris), e);
    }
    if WellFormed(rests) { ReachAll(rests); }
  }

  lemma {:induction false} BestExists(rests: Rests, pris: seq<int>, key: Bytes, n: nat) returns (i: int)
    requires n <= |rests| == |pris|
    ensures -1 <= i < n
    ensures i >= 0 ==> HasKey(rests[i], key)
    ensures forall j :: 0 <= j < n && HasKey(rests[j], key) ==> i >= 0 && pris[j] <= pris[i]
  {
    if n == 0 { return -1; }
    i := BestExists(rests, pris, key, n - 1);
    if HasKey(rests[n - 1], key) && (i < 0 || pris[i] < pris[n - 1]) { i := n - 1; }
  }

  /** A key is emitted exactly when a source listed after the last one that holds the empty key holds it. */
  lemma EmittedKeysExactly(rests: Rests, pris: seq<int>, key: Bytes)
    requires AllSorted(rests) && |rests| == |pris| && Ranked(pris)
    ensures HasKey(Merged(rests, pris), key) <==> Late(rests, key)
  {
    hide Merged, Late, LastEmpty;
    var reach := Reach(rests);
    if HasKey(Merged(rests, pris), key) {
      var e: Record :| e in Merged(rests, pris) && e.key == key;
      MergedIsBest(rests, pris, e);
      BestComesFromSource(reach, pris, e);
      var i :| 0 <= i < |reach| && e in reach[i];
      ReachedIsLate(rests, i, e);
    }
    if Late(rests, key) {
      var j := LateHolder(rests, key);
      var i := BestExists(reach, pris, key, |reach|);
      assert HasKey(reach[j], key);
      var e: Record :| e in reach[i] && e.key == key;
      assert Dominates(reach, pris, i, key);
      MergedIsBest(rests, pris, e);
    }
  }

  lemma ReachedIsLate(rests: Rests, i: nat, e: Record)
    requires i < |rests| && e in Reach(rests)[i]
    ensures Late(rests, e.key)
  {
    if i > LastEmpty(rests) { assert HasKey(rests[i], e.key); }
  }

  /** The merge of sorted sources misses no best entry exactly when none of them holds the empty key. */
  lemma CompleteIffNoEmptyKey(rests: Rests, pris: seq<int>)
    requires |rests| == |pris| && Ranked(pris) && AllSorted(rests)
    ensures (forall e :: IsBest(rests, pris, e) ==> e in Merged(rests, pris)) <==> WellFormed(rests)
  {
    hide Merged;
    if WellFormed(rests) {
      hide IsBest;
      forall e | IsBest(rests, pris, e) ensures e in Merged(rests, pris) { PlainMergeIsBest(rests, pris, e); }
    } else {
      var h :| 0 <= h < |rests| && !NoEmptyKey(rests[h]);
      var x: Record :| x in rests[h] && x.key == [];
      assert HasKey(rests[h], []);
      var i := BestExists(rests, pris, [], |rests|);
      var e: Record :| e in rests[i] && e.key == [];
      assert Dominates(rests, pris, i, []);
      assert IsBest(rests, pris, e);
      MergedSorted(rests, pris);
    }
  }
}

/** The k-way merge: sources in key order, the highest priority wins a duplicate key. */
module Merge {
  import opened ByteStrings
  import opened Records

  // ----- the merge as a function of what each source has left ------------------

  type Rests = seq<seq<Record>>

  /** `minKeyAcrossSources` over the first n sources; the empty byte string is the code's nil. */
  function MinKey(rests: Rests, n: nat): Bytes
    requires n <= |rests|
  {
    if n == 0 then []
    else
      var m := MinKey(rests, n - 1);
      if rests[n - 1] == [] then m
      else
        var k := rests[n - 1][0].key;
        if m == [] || Less(k, m) then k else m
  }

  predicate AtKey(rest: seq<Record>, k: Bytes) {
    rest != [] && rest[0].key == k
  }

  /** The winner among the first n sources standing at k: the last one to raise bestPri from -1. */
  function Winner(rests: Rests, pris: seq<int>, k: Bytes, n: nat): (w: int)
    requires n <= |rests| == |pris|
    ensures -1 <= w < n && (w >= 0 ==> AtKey(rests[w], k))
  {
    if n == 0 then -1
    else
      var w := Winner(rests, pris, k, n - 1);
      if AtKey(rests[n - 1], k) && pris[n - 1] > (if w < 0 then -1 else pris[w]) then n - 1 else w
  }

  /** Source i may win the key: it stands there, and no priority below zero ever wins. */
  ghost predicate Candidate(rests: Rests, pris: seq<int>, k: Bytes, i: nat)
    requires |rests| == |pris|
  {
    i < |rests| && AtKey(rests[i], k) && pris[i] >= 0
  }

  /** The winner is the first candidate of the highest priority, also when priorities repeat. */
  lemma {:induction false} WinnerExactly(rests: Rests, pris: seq<int>, k: Bytes, n: nat)
    requires n <= |rests| == |pris|
    ensures var w := Winner(rests, pris, k, n);
      && (w < 0 <==> forall i: nat :: i < n ==> !Candidate(rests, pris, k, i))
      && (w >= 0 ==>
            && Candidate(rests, pris, k, w)
            && forall i: nat :: i < n && Candidate(rests, pris, k, i) ==>
                 if i < w then pris[i] < pris[w] else pris[i] <= pris[w])
  {
    if n > 0 {
      WinnerExactly(rests, pris, k, n - 1);
      var v, w := Winner(rests, pris, k, n - 1), Winner(rests, pris, k, n);
      assert w != v ==> w == n - 1;
      if w >= 0 { assert Candidate(rests, pris, k, w); }
      if Candidate(rests, pris, k, n - 1) && v < 0 { assert w == n - 1; }
    }
  }

  /** Every source standing at k moves on. */
  function Advance(rests: Rests, k: Bytes): (r: Rests)
    ensures |r| == |rests|
    ensures forall i :: 0 <= i < |rests| ==> r[i] == if AtKey(rests[i], k) then rests[i][1..] else rests[i]
  {
    seq(|rests|, i requires 0 <= i < |rests| => if AtKey(rests[i], k) then rests[i][1..] else rests[i])
  }

  function Total(rests: Rests): nat {
    if rests == [] then 0 else |rests[0]| + Total(rests[1..])
  }

  lemma {:induction false} TotalDrops(a: Rests, b: Rests, i: nat)
    requires |a| == |b| && i < |a| && |b[i]| < |a[i]|
    requires forall j :: 0 <= j < |a| ==> |b[j]| <= |a[j]|
    ensures Total(b) < Total(a)
  {
    if i > 0 {
      TotalDrops(a[1..], b[1..], i - 1);
    } else {
      TotalLeq(a[1..], b[1..]);
    }
  }

  lemma {:induction false} TotalLeq(a: Rests, b: Rests)
    requires |a| == |b| && forall j :: 0 <= j < |a| ==> |b[j]| <= |a[j]|
    ensures Total(b) <= Total(a)
  {
    if a != [] { TotalLeq(a[1..], b[1..]); }
  }

  lemma {:induction false} MinKeyIsHead(rests: Rests, n: nat)
    requires n <= |rests| && MinKey(rests, n) != []
    ensures exists i :: 0 <= i < n && AtKey(rests[i], MinKey(rests, n))
  {
    if MinKey(rests, n - 1) == MinKey(rests, n) {
      MinKeyIsHead(rests, n - 1);
    } else {
      assert AtKey(rests[n - 1], MinKey(rests, n));
    }
  }

  lemma StepShrinks(rests: Rests)
    requires MinKey(rests, |rests|) != []
    ensures Total(Advance(rests, MinKey(rests, |rests|))) < Total(rests)
  {
    var k := MinKey(rests, |rests|);
    MinKeyIsHead(rests, |rests|);
    var i :| 0 <= i < |rests| && AtKey(rests[i], k);
    TotalDrops(rests, Advance(rests, k), i);
  }

  /** Everything the merge emits when tombstones are kept; a key no source wins is emitted as an empty record. */
  function Merged(rests: Rests, pris: seq<int>): seq<Record>
    requires |rests| == |pris|
    decreases Total(rests)
  {
    var k := MinKey(rests, |rests|);
    if k == [] then []
    else
      var w := Winner(rests, pris, k, |rests|);
      StepShrinks(rests);
      [if w < 0 then Record([], [], false) else rests[w][0]] + Merged(Advance(rests, k), pris)
  }

  function LiveOnly(es: seq<Record>): seq<Record> {
    if es == [] then [] else (if es[0].tombstone then [] else [es[0]]) + LiveOnly(es[1..])
  }

  function Emitted(rests: Rests, pris: seq<int>, omitTombstones: bool): seq<Record>
    requires |rests| == |pris|
  {
    if omitTombstones then LiveOnly(Merged(rests, pris)) else Merged(rests, pris)
  }

  // ----- what the merge means --------------------------------------------------

  /** Sources in ascending key order, without the empty key. */
  ghost predicate WellFormed(rests: Rests) {
    forall i :: 0 <= i < |rests| ==> Sorted(rests[i]) && NoEmptyKey(rests[i])
  }

  ghost predicate NoEmptyKey(es: seq<Record>) {
    forall e :: e in es ==> e.key != []
  }

  ghost predicate Ranked(pris: seq<int>) {
    && (forall i :: 0 <= i < |pris| ==> pris[i] >= 0)
    && (forall i, j :: 0 <= i < j < |pris| ==> pris[i] != pris[j])
  }

  ghost predicate HasKey(es: seq<Record>, k: Bytes) {
    exists e: Record :: e in es && e.key == k
  }

  /** e is the entry of its key in the highest-priority source that has the key. */
  ghost predicate IsBest(rests: Rests, pris: seq<int>, e: Record)
    requires |rests| == |pris|
  {
    exists i :: 0 <= i < |rests| && e in rests[i] && Dominates(rests, pris, i, e.key)
  }

  ghost predicate Dominates(rests: Rests, pris: seq<int>, i: nat, k: Bytes)
    requires i < |rests| == |pris|
  {
    forall j :: 0 <= j < |rests| && HasKey(rests[j], k) ==> pris[j] <= pris[i]
  }

  /** No source stands before the minimum. */
  lemma {:induction false} MinKeyIsLeast(rests: Rests, n: nat, i: nat)
    requires n <= |rests| && i < n && rests[i] != []
    requires forall j :: 0 <= j < n && rests[j] != [] ==> rests[j][0].key != []
    ensures MinKey(rests, n) != [] && !Less(rests[i][0].key, MinKey(rests, n))
  {
    var m, k := MinKey(rests, n - 1), MinKey(rests, n);
    LessIrreflexive(k);
    if i < n - 1 {
      MinKeyIsLeast(rests, n - 1, i);
      if Less(rests[i][0].key, k) && k != m { LessTransitive(rests[i][0].key, k, m); }
    }
  }

  lemma EmptyMinMeansDone(rests: Rests)
    requires WellFormed(rests) && MinKey(rests, |rests|) == []
    ensures forall i :: 0 <= i < |rests| ==> rests[i] == []
  {
    HeadsNotEmpty(rests);
    forall i | 0 <= i < |rests| ensures rests[i] == [] {
      if rests[i] != [] { MinKeyIsLeast(rests, |rests|, i); }
    }
  }

  lemma HeadsNotEmpty(rests: Rests)
    requires WellFormed(rests)
    ensures forall j :: 0 <= j < |rests| && rests[j] != [] ==> rests[j][0].key != []
  {
  }

  /** Advancing past the minimum removes exactly the entries of that key, and all others come after it. */
  lemma AdvanceExact(rests: Rests, i: nat, e: Record)
    requires WellFormed(rests) && i < |rests| && MinKey(rests, |rests|) != []
    ensures var k := MinKey(rests, |rests|);
      && (e in Advance(rests, k)[i] <==> e in rests[i] && e.key != k)
      && (e in rests[i] ==> e.key == k || Less(k, e.key))
      && (e in rests[i] && e.key == k ==> e == rests[i][0])
  {
    hide MinKey;
    var k, es := MinKey(rests, |rests|), rests[i];
    if es != [] {
      HeadsNotEmpty(rests);
      MinKeyIsLeast(rests, |rests|, i);
      LessTotal(k, es[0].key);
      LessIrreflexive(k);
      if e in es {
        var p :| 0 <= p < |es| && es[p] == e;
        if p > 0 {
          assert Less(es[0].key, es[p].key);
          if es[0].key != k { LessTransitive(k, es[0].key, e.key); }
        }
      }
      assert forall x :: x in es <==> x == es[0] || x in es[1..];
      if e in es[1..] { var p :| 0 <= p < |es[1..]| && es[1..][p] == e; assert Less(es[0].key, es[p + 1].key); }
      LessIrreflexive(e.key);
    }
  }

  lemma AdvanceWellFormed(rests: Rests, k: Bytes)
    requires WellFormed(rests)
    ensures WellFormed(Advance(rests, k))
  {
    forall i | 0 <= i < |rests| ensures Sorted(Advance(rests, k)[i]) && NoEmptyKey(Advance(rests, k)[i]) {
      if AtKey(rests[i], k) { assert forall e :: e in rests[i][1..] ==> e in rests[i]; }
    }
  }

  /** The code's scan for the winner finds the source of highest priority at k. */
  lemma {:induction false} WinnerIsHighest(rests: Rests, pris: seq<int>, k: Bytes, n: nat, i: nat)
    requires n <= |rests| == |pris| && i < n && AtKey(rests[i], k)
    requires forall j :: 0 <= j < |pris| ==> pris[j] >= 0
    ensures var w := Winner(rests, pris, k, n); w >= 0 && pris[i] <= pris[w]
  {
    if i < n - 1 { WinnerIsHighest(rests, pris, k, n - 1, i); }
  }

  /** An entry with another key is best before the step exactly when it is best after it. */
  lemma BestAfterAdvance(rests: Rests, pris: seq<int>, e: Record)
    requires WellFormed(rests) && |rests| == |pris| && MinKey(rests, |rests|) != [] && e.key != MinKey(rests, |rests|)
    ensures IsBest(rests, pris, e) <==> IsBest(Advance(rests, MinKey(rests, |rests|)), pris, e)
  {
    hide MinKey;
    var next := Advance(rests, MinKey(rests, |rests|));
    forall j | 0 <= j < |rests| ensures HasKey(rests[j], e.key) <==> HasKey(next[j], e.key) {
      KeyAfterAdvance(rests, j, e.key);
    }
    forall i | 0 <= i < |rests| ensures e in rests[i] <==> e in next[i] { AdvanceExact(rests, i, e); }
    forall i | 0 <= i < |rests| ensures Dominates(rests, pris, i, e.key) <==> Dominates(next, pris, i, e.key) { }
  }

  lemma KeyAfterAdvance(rests: Rests, j: nat, key: Bytes)
    requires WellFormed(rests) && j < |rests| && MinKey(rests, |rests|) != [] && key != MinKey(rests, |rests|)
    ensures HasKey(rests[j], key) <==> HasKey(Advance(rests, MinKey(rests, |rests|))[j], key)
  {
    hide MinKey;
    var next := Advance(rests, MinKey(rests, |rests|));
    if HasKey(rests[j], key) { var x: Record :| x in rests[j] && x.key == key; AdvanceExact(rests, j, x); }
    if HasKey(next[j], key) { var x: Record :| x in next[j] && x.key == key; AdvanceExact(rests, j, x); }
  }

  /** Only sources standing at the minimum hold an entry of that key, and it is their head. */
  lemma HoldersStandAtMin(rests: Rests, j: nat)
    requires WellFormed(rests) && j < |rests| && MinKey(rests, |rests|) != []
    ensures HasKey(rests[j], MinKey(rests, |rests|)) <==> AtKey(rests[j], MinKey(rests, |rests|))
  {
    hide MinKey;
    var k := MinKey(rests, |rests|);
    if HasKey(rests[j], k) {
      var x: Record :| x in rests[j] && x.key == k;
      AdvanceExact(rests, j, x);
    }
    if AtKey(rests[j], k) { assert rests[j][0] in rests[j]; }
  }

  lemma WinnerDominates(rests: Rests, pris: seq<int>)
    requires WellFormed(rests) && |rests| == |pris| && Ranked(pris) && MinKey(rests, |rests|) != []
    ensures var k := MinKey(rests, |rests|); var w := Winner(rests, pris, k, |rests|);
      w >= 0 && Dominates(rests, pris, w, k) && AtKey(rests[w], k)
  {
    hide MinKey, Winner, HasKey;
    var k := MinKey(rests, |rests|);
    MinKeyIsHead(rests, |rests|);
    var i0 :| 0 <= i0 < |rests| && AtKey(rests[i0], k);
    WinnerIsHighest(rests, pris, k, |rests|, i0);
    var w := Winner(rests, pris, k, |rests|);
    forall j | 0 <= j < |rests| && HasKey(rests[j], k) ensures pris[j] <= pris[w] {
      HoldersStandAtMin(rests, j);
      WinnerIsHighest(rests, pris, k, |rests|, j);
    }
  }

  /** The winner at the minimum key is the best entry of that key, and the only one. */
  lemma WinnerIsBest(rests: Rests, pris: seq<int>, e: Record)
    requires WellFormed(rests) && |rests| == |pris| && Ranked(pris) && MinKey(rests, |rests|) != []
    requires e.key == MinKey(rests, |rests|)
    ensures var w := Winner(rests, pris, e.key, |rests|); w >= 0 && (IsBest(rests, pris, e) <==> e == rests[w][0])
  {
    hide MinKey, Winner, WellFormed;
    var k := e.key;
    WinnerDominates(rests, pris);
    var w := Winner(rests, pris, k, |rests|);
    assert rests[w][0] in rests[w];
    if IsBest(rests, pris, e) {
      var i :| 0 <= i < |rests| && e in rests[i] && Dominates(rests, pris, i, k);
      AdvanceExact(rests, i, e);
      assert HasKey(rests[w], k) && HasKey(rests[i], k);
      assert pris[i] == pris[w];
    }
  }

  /** The merge misses no key, invents none, and gives each key its highest-priority entry. */
  lemma {:induction false} PlainMergeIsBest(rests: Rests, pris: seq<int>, e: Record)
    requires WellFormed(rests) && |rests| == |pris| && Ranked(pris)
    ensures e in Merged(rests, pris) <==> IsBest(rests, pris, e)
    decreases Total(rests)
  {
    hide MinKey, Winner, IsBest;
    var k := MinKey(rests, |rests|);
    if k == [] {
      EmptyMinMeansDone(rests);
      NothingIsBest(rests, pris, e);
    } else {
      StepShrinks(rests);
      AdvanceWellFormed(rests, k);
      PlainMergeIsBest(Advance(rests, k), pris, e);
      MergedUnfold(rests, pris);
      MinRecordIsBest(rests, pris, e);
    }
  }

  lemma NothingIsBest(rests: Rests, pris: seq<int>, e: Record)
    requires |rests| == |pris| && forall i :: 0 <= i < |rests| ==> rests[i] == []
    ensures !IsBest(rests, pris, e)
  {
  }

  lemma MergedUnfold(rests: Rests, pris: seq<int>)
    requires WellFormed(rests) && |rests| == |pris| && Ranked(pris) && MinKey(rests, |rests|) != []
    ensures var k := MinKey(rests, |rests|); var w := Winner(rests, pris, k, |rests|);
      w >= 0 && rests[w][0].key == k && Merged(rests, pris) == [rests[w][0]] + Merged(Advance(rests, k), pris)
  {
    hide MinKey, Winner;
    var k := MinKey(rests, |rests|);
    MinKeyIsHead(rests, |rests|);
    var i0 :| 0 <= i0 < |rests| && AtKey(rests[i0], k);
    WinnerIsHighest(rests, pris, k, |rests|, i0);
  }

  lemma MinRecordIsBest(rests: Rests, pris: seq<int>, e: Record)
    requires WellFormed(rests) && |rests| == |pris| && Ranked(pris) && MinKey(rests, |rests|) != []
    ensures var k := MinKey(rests, |rests|); var w := Winner(rests, pris, k, |rests|);
      w >= 0 && (IsBest(rests, pris, e) <==> e == rests[w][0] || IsBest(Advance(rests, k), pris, e))
  {
    hide MinKey, Winner;
    var k := MinKey(rests, |rests|);
    MergedUnfold(rests, pris);
    if e.key == k {
      WinnerIsBest(rests, pris, e);
      forall i | 0 <= i < |rests| ensures e !in Advance(rests, k)[i] { AdvanceExact(rests, i, e); }
    } else {
      BestAfterAdvance(rests, pris, e);
    }
  }

  /** The merge emits strictly ascending keys, at or after the minimum. */
  lemma {:induction false} PlainMergeSorted(rests: Rests, pris: seq<int>)
    requires WellFormed(rests) && |rests| == |pris| && Ranked(pris)
    ensures Sorted(Merged(rests, pris))
    decreases Total(rests)
  {
    hide MinKey, Winner, IsBest, Merged;
    var k := MinKey(rests, |rests|);
    if k == [] {
      MergedDone(rests, pris);
    } else {
      StepShrinks(rests);
      AdvanceWellFormed(rests, k);
      var next := Advance(rests, k);
      PlainMergeSorted(next, pris);
      MergedUnfold(rests, pris);
      forall e | e in Merged(next, pris) ensures Less(k, e.key) {
        PlainMergeIsBest(next, pris, e);
        BestComesFromSource(next, pris, e);
        var i :| 0 <= i < |next| && e in next[i];
        AdvanceExact(rests, i, e);
      }
    }
  }

  lemma MergedDone(rests: Rests, pris: seq<int>)
    requires |rests| == |pris| && MinKey(rests, |rests|) == []
    ensures Merged(rests, pris) == []
  {
  }

  lemma BestComesFromSource(rests: Rests, pris: seq<int>, e: Record)
    requires |rests| == |pris| && IsBest(rests, pris, e)
    ensures exists i :: 0 <= i < |rests| && e in rests[i]
  {
  }

  lemma {:induction false} LiveOnlyExact(es: seq<Record>, e: Record)
    ensures e in LiveOnly(es) <==> e in es && !e.tombstone
  {
    if es != [] {
      LiveOnlyExact(es[1..], e);
      assert forall x :: x in es <==> x == es[0] || x in es[1..];
    }
  }

  lemma {:induction false} LiveOnlySorted(es: seq<Record>)
    requires Sorted(es)
    ensures Sorted(LiveOnly(es))
  {
    if es != [] {
      LiveOnlySorted(es[1..]);
      forall e | e in LiveOnly(es[1..]) ensures Less(es[0].key, e.key) {
        LiveOnlyExact(es[1..], e);
        var i :| 0 <= i < |es[1..]| && es[1..][i] == e;
        assert Less(es[0].key, es[i + 1].key);
      }
    }
  }
}

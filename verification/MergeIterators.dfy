/** The merge code itself: iterators advanced in place. */
module MergeIterators {
  import opened ByteStrings
  import opened Records
  import opened Merge

  /** `snapshotMemIter`: a position in a listing; every source of a merge is used through these operations. */
  class SliceIter {
    const entries: seq<Record>
    var idx: nat

    constructor (entries: seq<Record>)
      ensures this.entries == entries && idx == 0
    {
      this.entries, this.idx := entries, 0;
    }

    function Rest(): seq<Record>
      reads this
    {
      if idx <= |entries| then entries[idx..] else []
    }

    predicate Valid()
      reads this
      ensures Valid() <==> Rest() != []
    {
      idx < |entries|
    }

    method Next()
      modifies this
      ensures Rest() == if old(Rest()) == [] then [] else old(Rest())[1..]
    {
      if idx < |entries| { idx := idx + 1; }
    }

    /** Positions at the first entry whose key is not below `key`. */
    method Seek(key: Bytes)
      modifies this
      ensures Rest() == From(entries, key)
    {
      idx := 0;
      while idx < |entries| && Less(entries[idx].key, key)
        invariant idx <= |entries|
        invariant From(entries[idx..], key) == From(entries, key)
        decreases |entries| - idx
      {
        assert entries[idx..][1..] == entries[idx + 1..];
        idx := idx + 1;
      }
    }
  }

  /** Drop the leading entries with keys below `key`. */
  function From(es: seq<Record>, key: Bytes): seq<Record> {
    if es == [] then [] else if Less(es[0].key, key) then From(es[1..], key) else es
  }

  /** In a sorted listing that leaves exactly the entries at or after `key`, in order. */
  lemma {:induction false} FromExact(es: seq<Record>, key: Bytes)
    requires Sorted(es)
    ensures Sorted(From(es, key)) && forall e :: e in From(es, key) <==> e in es && !Less(e.key, key)
  {
    if es != [] {
      if Less(es[0].key, key) {
        FromExact(es[1..], key);
        assert forall x :: x in es <==> x == es[0] || x in es[1..];
      } else {
        forall e | e in es ensures !Less(e.key, key) {
          var i :| 0 <= i < |es| && es[i] == e;
          if i > 0 && Less(e.key, key) { LessTransitive(es[0].key, es[i].key, key); }
        }
      }
    }
  }

  datatype Source = Source(it: SliceIter, priority: int)

  ghost function Iters(srcs: seq<Source>): set<object> {
    set i | 0 <= i < |srcs| :: srcs[i].it
  }

  ghost predicate Apart(srcs: seq<Source>) {
    forall i, j :: 0 <= i < j < |srcs| ==> srcs[i].it != srcs[j].it
  }

  ghost function RestsOf(srcs: seq<Source>): (r: Rests)
    reads Iters(srcs)
    ensures |r| == |srcs| && forall i :: 0 <= i < |srcs| ==> r[i] == srcs[i].it.Rest()
  {
    if srcs == [] then [] else
      assert Iters(srcs[..|srcs| - 1]) <= Iters(srcs);
      RestsOf(srcs[..|srcs| - 1]) + [srcs[|srcs| - 1].it.Rest()]
  }

  function Priorities(srcs: seq<Source>): (pris: seq<int>)
    ensures |pris| == |srcs|
  {
    seq(|srcs|, i requires 0 <= i < |srcs| => srcs[i].priority)
  }

  method MinKeyAcrossSources(srcs: seq<Source>) returns (minKey: Bytes)
    ensures minKey == MinKey(RestsOf(srcs), |srcs|)
  {
    minKey := [];
    for i := 0 to |srcs|
      invariant minKey == MinKey(RestsOf(srcs), i)
    {
      if !srcs[i].it.Valid() { continue; }
      var k := srcs[i].it.Rest()[0].key;
      if minKey == [] || Less(k, minKey) { minKey := k; }
    }
  }

  /** The sources among the first n that stand at k. */
  ghost function Standing(rests: Rests, k: Bytes, n: nat): (at: seq<nat>)
    requires n <= |rests|
    ensures forall j :: 0 <= j < |at| ==> at[j] < n
    ensures forall i :: i in at <==> 0 <= i < n && AtKey(rests[i], k)
    ensures forall i, j :: 0 <= i < j < |at| ==> at[i] < at[j]
  {
    if n == 0 then [] else Standing(rests, k, n - 1) + if AtKey(rests[n - 1], k) then [n - 1] else []
  }

  /** The scan for the winner and for the iterators to advance. */
  method PickWinner(srcs: seq<Source>, minKey: Bytes) returns (winner: Record, toAdvance: seq<nat>)
    ensures var w := Winner(RestsOf(srcs), Priorities(srcs), minKey, |srcs|);
      winner == if w < 0 then Record([], [], false) else RestsOf(srcs)[w][0]
    ensures toAdvance == Standing(RestsOf(srcs), minKey, |srcs|)
  {
    hide RestsOf;
    var bestPri := -1;
    winner, toAdvance := Record([], [], false), [];
    ghost var rests, pris := RestsOf(srcs), Priorities(srcs);
    for i := 0 to |srcs|
      invariant bestPri == if Winner(rests, pris, minKey, i) < 0 then -1 else pris[Winner(rests, pris, minKey, i)]
      invariant winner == if Winner(rests, pris, minKey, i) < 0 then Record([], [], false)
        else rests[Winner(rests, pris, minKey, i)][0]
      invariant toAdvance == Standing(rests, minKey, i)
    {
      assert rests[i] == srcs[i].it.Rest() && pris[i] == srcs[i].priority;
      if !srcs[i].it.Valid() { continue; }
      if srcs[i].it.Rest()[0].key != minKey { continue; }
      if srcs[i].priority > bestPri {
        bestPri := srcs[i].priority;
        winner := srcs[i].it.Rest()[0];
      }
      toAdvance := toAdvance + [i];
    }
  }

  method AdvanceAll(srcs: seq<Source>, toAdvance: seq<nat>, minKey: Bytes)
    requires Apart(srcs) && toAdvance == Standing(RestsOf(srcs), minKey, |srcs|)
    modifies Iters(srcs)
    ensures RestsOf(srcs) == Advance(old(RestsOf(srcs)), minKey)
  {
    hide Standing, RestsOf, Advance;
    ghost var before, done := RestsOf(srcs), {};
    for j := 0 to |toAdvance|
      invariant forall t :: t in done <==> t in toAdvance[..j]
      invariant forall t :: t in done ==> t < |srcs| && before[t] != []
      invariant forall i :: 0 <= i < |srcs| ==> srcs[i].it.Rest() == if i in done then before[i][1..] else before[i]
    {
      var t := toAdvance[j];
      AdvanceOne(srcs, t);
      assert t !in done && toAdvance[..j + 1] == toAdvance[..j] + [t];
      done := done + {t};
    }
    assert toAdvance[..|toAdvance|] == toAdvance;
    AdvancedRests(before, RestsOf(srcs), minKey, done);
  }

  method AdvanceOne(srcs: seq<Source>, t: nat)
    requires Apart(srcs) && t < |srcs| && srcs[t].it.Rest() != []
    modifies srcs[t].it
    ensures srcs[t].it.Rest() == old(srcs[t].it.Rest())[1..]
    ensures forall i :: 0 <= i < |srcs| && i != t ==> srcs[i].it.Rest() == old(srcs[i].it.Rest())
  {
    srcs[t].it.Next();
  }

  lemma AdvancedRests(before: Rests, after: Rests, minKey: Bytes, done: set<nat>)
    requires |after| == |before| && forall i :: 0 <= i < |before| ==> (i in done <==> AtKey(before[i], minKey))
    requires forall i :: 0 <= i < |before| ==>
      (i in done ==> before[i] != []) && after[i] == if i in done then before[i][1..] else before[i]
    ensures after == Advance(before, minKey)
  {
    hide AtKey;
  }

  /** `mergeStep`: the next emitted entry, or ok false when nothing is left to emit. */
  method MergeStep(srcs: seq<Source>, omitTombstones: bool) returns (e: Record, ok: bool)
    requires Apart(srcs)
    modifies Iters(srcs)
    ensures var all := Emitted(old(RestsOf(srcs)), Priorities(srcs), omitTombstones);
      && ok == (all != [])
      && all == if ok then [e] + Emitted(RestsOf(srcs), Priorities(srcs), omitTombstones) else []
  {
    hide MinKey, Winner, RestsOf, Emitted, Priorities, Standing, Total, Advance;
    ghost var all := Emitted(RestsOf(srcs), Priorities(srcs), omitTombstones);
    while true
      invariant Emitted(RestsOf(srcs), Priorities(srcs), omitTombstones) == all
      decreases Total(RestsOf(srcs))
    {
      ghost var rests := RestsOf(srcs);
      var minKey := MinKeyAcrossSources(srcs);
      if minKey == [] {
        EmittedDone(rests, Priorities(srcs), omitTombstones);
        return Record([], [], false), false;
      }
      var winner, toAdvance := PickWinner(srcs, minKey);
      AdvanceAll(srcs, toAdvance, minKey);
      StepShrinks(rests);
      EmittedStep(rests, Priorities(srcs), omitTombstones, winner);
      if winner.tombstone && omitTombstones { continue; }
      return winner, true;
    }
  }

  lemma EmittedDone(rests: Rests, pris: seq<int>, omitTombstones: bool)
    requires |rests| == |pris| && MinKey(rests, |rests|) == []
    ensures Emitted(rests, pris, omitTombstones) == []
  {
    MergedDone(rests, pris);
  }

  lemma EmittedStep(rests: Rests, pris: seq<int>, omitTombstones: bool, winner: Record)
    requires |rests| == |pris| && MinKey(rests, |rests|) != []
    requires var w := Winner(rests, pris, MinKey(rests, |rests|), |rests|);
      winner == if w < 0 then Record([], [], false) else rests[w][0]
    ensures var rest := Emitted(Advance(rests, MinKey(rests, |rests|)), pris, omitTombstones);
      Emitted(rests, pris, omitTombstones) == if winner.tombstone && omitTombstones then rest else [winner] + rest
  {
    hide MinKey, Winner;
    var rest := Merged(Advance(rests, MinKey(rests, |rests|)), pris);
    assert Merged(rests, pris) == [winner] + rest;
    assert ([winner] + rest)[1..] == rest;
  }

  /** `ForEachMerged`, with the entries handed to the callback collected in order. */
  method ForEachMerged(srcs: seq<Source>, omitTombstones: bool) returns (out: seq<Record>)
    requires Apart(srcs)
    modifies Iters(srcs)
    ensures out == Emitted(old(RestsOf(srcs)), Priorities(srcs), omitTombstones)
  {
    hide Emitted, RestsOf, Priorities;
    out := [];
    ghost var all := Emitted(RestsOf(srcs), Priorities(srcs), omitTombstones);
    ghost var rest := all;
    while true
      invariant rest == Emitted(RestsOf(srcs), Priorities(srcs), omitTombstones) && all == out + rest
      decreases |rest|
    {
      var e, ok := MergeStep(srcs, omitTombstones);
      if !ok { return; }
      out, rest := out + [e], rest[1..];
    }
  }
}

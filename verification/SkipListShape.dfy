/** The shape of a skip list: towers of links over one ascending sequence, and splicing a tower in. */
module SkipListShape {
  import opened ByteStrings
  import opened Records

  class Node {
    var key: Bytes
    var value: Bytes
    var tombstone: bool
    var next: seq<Node?>

    constructor (key: Bytes, value: Bytes, tombstone: bool, height: nat)
      ensures this.key == key && this.value == value && this.tombstone == tombstone
      ensures next == seq(height, _ => null)
    {
      this.key, this.value, this.tombstone := key, value, tombstone;
      this.next := seq(height, _ => null);
    }
  }

  // ----- towers ------------------------------------------------------------------------

  /** The first position at or after q whose tower reaches level i. */
  ghost function First(hs: seq<nat>, q: nat, i: nat): (f: nat)
    ensures q <= |hs| ==> q <= f <= |hs|
    ensures f < |hs| ==> hs[f] > i
    decreases |hs| - q
  {
    if q >= |hs| then |hs| else if hs[q] > i then q else First(hs, q + 1, i)
  }

  lemma {:induction false} FirstIsLeast(hs: seq<nat>, q: nat, i: nat, r: nat)
    requires q <= r < |hs| && hs[r] > i
    ensures First(hs, q, i) <= r
    decreases r - q
  {
    if q < r && hs[q] <= i { FirstIsLeast(hs, q + 1, i, r); }
  }

  lemma {:induction false} FirstSkips(hs: seq<nat>, q: nat, i: nat, r: nat)
    requires q <= r <= First(hs, q, i) && q <= |hs|
    ensures First(hs, r, i) == First(hs, q, i)
    decreases r - q
  {
    if q < r { FirstSkips(hs, q + 1, i, r); }
  }

  function Insert<T>(s: seq<T>, k: nat, x: T): (r: seq<T>)
    requires k <= |s|
    ensures |r| == |s| + 1
    ensures forall p :: 0 <= p < |r| ==> r[p] == if p < k then s[p] else if p == k then x else s[p - 1]
  {
    s[..k] + [x] + s[k..]
  }

  function LinkTarget(f: nat, k: nat, h: nat, i: nat): nat {
    if f < k then f else if i < h then k else f + 1
  }

  /** Where a link leads after a tower of height h is put in at position k. */
  lemma {:induction false} FirstAfterInsert(hs: seq<nat>, k: nat, h: nat, q: nat, i: nat)
    requires k <= |hs| && q <= |hs| + 1
    ensures q <= k ==> First(Insert(hs, k, h), q, i) == LinkTarget(First(hs, q, i), k, h, i)
    ensures q > k ==> First(Insert(hs, k, h), q, i) == First(hs, q - 1, i) + 1
    decreases |hs| + 1 - q
  {
    var hs' := Insert(hs, k, h);
    if q <= |hs| {
      if q < k {
        assert hs'[q] == hs[q];
      } else if q > k {
        assert hs'[q] == hs[q - 1];
      }
      FirstAfterInsert(hs, k, h, q + 1, i);
    }
  }

  // ----- links -------------------------------------------------------------------------

  function At(all: seq<Node>, q: nat): Node? {
    if q < |all| then all[q] else null
  }

  /** Every level links each tower that reaches it to the next tower that reaches it. */
  ghost predicate Linked(all: seq<Node>, nexts: seq<seq<Node?>>, hs: seq<nat>) {
    && |nexts| == |hs| == |all|
    && (forall p :: 0 <= p < |all| ==> |nexts[p]| == hs[p])
    && (forall p, i :: 0 <= p < |all| && 0 <= i < hs[p] ==> nexts[p][i] == At(all, First(hs, p + 1, i)))
  }

  /** us[i] is the last position before k whose tower reaches level i. */
  ghost predicate Predecessors(hs: seq<nat>, us: seq<nat>, k: nat, h: nat) {
    && h <= |us|
    && forall i :: 0 <= i < h ==> us[i] < k <= |hs| && us[i] < |hs| && hs[us[i]] > i && First(hs, us[i] + 1, i) >= k
  }

  /** The links of the tower at p once level i of each us[i] points to the new node, for levels below n. */
  ghost function Redirected(nexts: seq<seq<Node?>>, us: seq<nat>, n: nat, node: Node, p: nat): (r: seq<Node?>)
    requires p < |nexts| && n <= |us|
    ensures |r| == |nexts[p]|
    ensures forall i :: 0 <= i < |r| ==> r[i] == if i < n && p == us[i] then node else nexts[p][i]
  {
    seq(|nexts[p]|, i requires 0 <= i < |nexts[p]| => if i < n && p == us[i] then node else nexts[p][i])
  }

  ghost function NewTower(nexts: seq<seq<Node?>>, us: seq<nat>, h: nat): (r: seq<Node?>)
    requires h <= |us| && forall i :: 0 <= i < h ==> us[i] < |nexts| && i < |nexts[us[i]]|
    ensures |r| == h && forall i :: 0 <= i < h ==> r[i] == nexts[us[i]][i]
  {
    seq(h, i requires 0 <= i < h => nexts[us[i]][i])
  }

  ghost function Spliced(nexts: seq<seq<Node?>>, us: seq<nat>, k: nat, h: nat, node: Node): (r: seq<seq<Node?>>)
    requires k <= |nexts| && h <= |us| && forall i :: 0 <= i < h ==> us[i] < |nexts| && i < |nexts[us[i]]|
    ensures |r| == |nexts| + 1
    ensures forall p :: 0 <= p < |r| ==> r[p] == if p < k then Redirected(nexts, us, h, node, p)
                                               else if p == k then NewTower(nexts, us, h)
                                               else Redirected(nexts, us, h, node, p - 1)
  {
    seq(|nexts| + 1, p requires 0 <= p < |nexts| + 1 =>
      if p < k then Redirected(nexts, us, h, node, p)
      else if p == k then NewTower(nexts, us, h)
      else Redirected(nexts, us, h, node, p - 1))
  }

  lemma OnlyPredecessor(hs: seq<nat>, u: nat, k: nat, p: nat, i: nat)
    requires u < k && u < |hs| && hs[u] > i && First(hs, u + 1, i) >= k
    requires p < k && p < |hs| && hs[p] > i && First(hs, p + 1, i) >= k
    ensures p == u
  {
    if p < u { FirstIsLeast(hs, p + 1, i, u); }
    if u < p { FirstIsLeast(hs, u + 1, i, p); }
  }

  lemma LinkBefore(all: seq<Node>, nexts: seq<seq<Node?>>, hs: seq<nat>, us: seq<nat>, k: nat, h: nat, node: Node,
                   p: nat, i: nat)
    requires Linked(all, nexts, hs) && Predecessors(hs, us, k, h) && k <= |all| && p < k && i < hs[p]
    ensures Redirected(nexts, us, h, node, p)[i] == At(Insert(all, k, node), First(Insert(hs, k, h), p + 1, i))
  {
    hide First, Insert, At;
    FirstAfterInsert(hs, k, h, p + 1, i);
    var f := First(hs, p + 1, i);
    if i < h && f >= k { OnlyPredecessor(hs, us[i], k, p, i); }
    assert nexts[p][i] == At(all, f);
    ShiftedAt(all, k, node, f);
  }

  lemma LinkNew(all: seq<Node>, nexts: seq<seq<Node?>>, hs: seq<nat>, us: seq<nat>, k: nat, h: nat, node: Node, i: nat)
    requires Linked(all, nexts, hs) && Predecessors(hs, us, k, h) && k <= |all| && i < h
    ensures us[i] < |nexts| && i < |nexts[us[i]]|
    ensures nexts[us[i]][i] == At(Insert(all, k, node), First(Insert(hs, k, h), k + 1, i))
  {
    hide First, Insert, At;
    FirstAfterInsert(hs, k, h, k + 1, i);
    FirstSkips(hs, us[i] + 1, i, k);
    ShiftedAt(all, k, node, First(hs, k, i));
  }

  lemma LinkAfter(all: seq<Node>, nexts: seq<seq<Node?>>, hs: seq<nat>, us: seq<nat>, k: nat, h: nat, node: Node,
                  p: nat, i: nat)
    requires Linked(all, nexts, hs) && Predecessors(hs, us, k, h) && k <= p < |all| && i < hs[p]
    ensures Redirected(nexts, us, h, node, p)[i] == At(Insert(all, k, node), First(Insert(hs, k, h), p + 2, i))
  {
    hide First, Insert, At;
    FirstAfterInsert(hs, k, h, p + 2, i);
    ShiftedAt(all, k, node, First(hs, p + 1, i));
  }

  lemma ShiftedAt(all: seq<Node>, k: nat, node: Node, f: nat)
    requires k <= |all|
    ensures f < k ==> At(Insert(all, k, node), f) == At(all, f)
    ensures At(Insert(all, k, node), k) == node
    ensures f >= k ==> At(Insert(all, k, node), f + 1) == At(all, f)
  {
  }

  lemma SplicedHeights(all: seq<Node>, nexts: seq<seq<Node?>>, hs: seq<nat>, us: seq<nat>, k: nat, h: nat, node: Node)
    requires Linked(all, nexts, hs) && Predecessors(hs, us, k, h) && k <= |all|
    ensures |Spliced(nexts, us, k, h, node)| == |Insert(hs, k, h)| == |Insert(all, k, node)|
    ensures forall p :: 0 <= p < |hs| + 1 ==> |Spliced(nexts, us, k, h, node)[p]| == Insert(hs, k, h)[p]
  {
    hide First, At;
    var nexts', hs' := Spliced(nexts, us, k, h, node), Insert(hs, k, h);
    forall p | 0 <= p < |hs| + 1 ensures |nexts'[p]| == hs'[p] {
      if p < k { assert hs'[p] == hs[p]; } else if p > k { assert hs'[p] == hs[p - 1]; }
    }
  }

  /** Splicing a node of any height after its predecessors keeps every level linked. */
  lemma SpliceKeepsLinks(all: seq<Node>, nexts: seq<seq<Node?>>, hs: seq<nat>, us: seq<nat>, k: nat, h: nat, node: Node)
    requires Linked(all, nexts, hs) && Predecessors(hs, us, k, h) && k <= |all|
    ensures Linked(Insert(all, k, node), Spliced(nexts, us, k, h, node), Insert(hs, k, h))
  {
    hide First, At;
    var all', nexts', hs' := Insert(all, k, node), Spliced(nexts, us, k, h, node), Insert(hs, k, h);
    SplicedHeights(all, nexts, hs, us, k, h, node);
    forall p, i | 0 <= p < |all'| && 0 <= i < hs'[p] ensures nexts'[p][i] == At(all', First(hs', p + 1, i)) {
      if p < k {
        LinkBefore(all, nexts, hs, us, k, h, node, p, i);
      } else if p == k {
        LinkNew(all, nexts, hs, us, k, h, node, i);
      } else {
        LinkAfter(all, nexts, hs, us, k, h, node, p - 1, i);
      }
    }
  }

  // ----- levels --------------------------------------------------------------------------

  /** The records of the towers that reach level i, in list order; records[p] belongs to tower p. */
  ghost function Level(records: seq<Record>, hs: seq<nat>, i: nat): seq<Record>
    requires |records| == |hs|
  {
    if hs == [] then [] else (if hs[0] > i then [records[0]] else []) + Level(records[1..], hs[1..], i)
  }

  /** a is a subsequence of b. */
  ghost predicate Sublist(a: seq<Record>, b: seq<Record>) {
    a == [] || (b != [] && ((a[0] == b[0] && Sublist(a[1..], b[1..])) || Sublist(a, b[1..])))
  }

  /** Each level is a sublist of the level below it. */
  lemma {:induction false} LevelsNest(records: seq<Record>, hs: seq<nat>, i: nat)
    requires |records| == |hs|
    ensures Sublist(Level(records, hs, i + 1), Level(records, hs, i))
  {
    if hs != [] {
      LevelsNest(records[1..], hs[1..], i);
      var a, b := Level(records[1..], hs[1..], i + 1), Level(records[1..], hs[1..], i);
      SublistKeep(a, records[0], b);
      SublistSkip(a, records[0], b);
      assert [] + a == a && [] + b == b;
    }
  }

  lemma SublistKeep(a: seq<Record>, x: Record, b: seq<Record>)
    requires Sublist(a, b)
    ensures Sublist([x] + a, [x] + b)
  {
    assert ([x] + a)[1..] == a && ([x] + b)[1..] == b;
  }

  lemma SublistSkip(a: seq<Record>, x: Record, b: seq<Record>)
    requires Sublist(a, b)
    ensures Sublist(a, [x] + b)
  {
    assert ([x] + b)[1..] == b;
  }

  lemma {:induction false} LevelSorted(records: seq<Record>, hs: seq<nat>, i: nat)
    requires |records| == |hs| && Sorted(records)
    ensures Sorted(Level(records, hs, i)) && forall e :: e in Level(records, hs, i) ==> e in records
  {
    if hs != [] {
      LevelSorted(records[1..], hs[1..], i);
      forall e | e in Level(records[1..], hs[1..], i) ensures Less(records[0].key, e.key) {
        var j :| 0 <= j < |records[1..]| && records[1..][j] == e;
        assert Less(records[0].key, records[j + 1].key);
      }
    }
  }
}

/** The memtable: a skip list that refines a sorted listing of records. */
module Memtable {
  import opened ByteStrings
  import opened Records
  import opened SkipListShape

  const MAX_HEIGHT := 20

  // ----- key comparison ------------------------------------------------------------------

  /** `less`, byte by byte: the dictionary order. */
  method LessThan(a: Bytes, b: Bytes) returns (r: bool)
    ensures r <==> Precedes(a, b)
    ensures r == Less(a, b)
  {
    LessIsPrecedes(a, b);
    var i := 0;
    while i < |a| && i < |b|
      invariant 0 <= i <= |a| && i <= |b| && a[..i] == b[..i]
      decreases |a| - i
    {
      if a[i] != b[i] {
        DecidedAt(a, b, i);
        return a[i] < b[i];
      }
      i := i + 1;
    }
    DecidedAt(a, b, i);
    return |a| < |b|;
  }

  /** The first position where the strings differ, or one ends, decides. */
  lemma DecidedAt(a: Bytes, b: Bytes, i: nat)
    requires i <= |a| && i <= |b| && a[..i] == b[..i]
    requires i == |a| || i == |b| || a[i] != b[i]
    ensures Precedes(a, b) <==> PrecedesAt(a, b, i)
  {
    forall j: nat ensures PrecedesAt(a, b, j) ==> j == i {
      if j < i { assert a[..i][j] == a[j] && b[..i][j] == b[j]; }
      if i < j && j <= |a| && j <= |b| { assert a[..j][i] == a[i] && b[..j][i] == b[i]; }
    }
  }

  /** `equal`. */
  method EqualTo(a: Bytes, b: Bytes) returns (r: bool)
    ensures r == (a == b)
  {
    if |a| != |b| { return false; }
    for i := 0 to |a|
      invariant a[..i] == b[..i]
    {
      if a[i] != b[i] { return false; }
    }
    return true;
  }

  // ----- listings --------------------------------------------------------------------------

  /** Accounted bytes of the entries: key, value and eight more each. */
  function SizeOf(es: seq<Record>): nat {
    if es == [] then 0 else |es[0].key| + |es[0].value| + 8 + SizeOf(es[1..])
  }

  lemma {:induction false} SizeOfAppend(a: seq<Record>, b: seq<Record>)
    ensures SizeOf(a + b) == SizeOf(a) + SizeOf(b)
  {
    if a == [] {
      assert a + b == b;
    } else {
      assert (a + b)[1..] == a[1..] + b;
      SizeOfAppend(a[1..], b);
    }
  }

  /** What an update adds: a new key with its value and eight bytes, or the difference of the values. */
  lemma {:induction false} SizeOfUpsert(es: seq<Record>, r: Record)
    requires Sorted(es)
    ensures SizeOf([]) == 0
    ensures SizeOf(Upsert(es, r)) == match Find(es, r.key)
                                     case None => SizeOf(es) + |r.key| + |r.value| + 8
                                     case Some(e) => SizeOf(es) - |e.value| + |r.value|
    decreases |es|
  {
    if es == [] {
      SizeOfOne(r);
    } else if es[0].key == r.key {
      assert ([r] + es[1..])[1..] == es[1..];
    } else if Less(r.key, es[0].key) {
      assert ([r] + es)[1..] == es;
      forall e | e in es[1..] ensures e.key != r.key {
        var i :| 1 <= i < |es| && es[i] == e;
        LessTransitive(r.key, es[0].key, es[i].key);
        LessIrreflexive(r.key);
      }
      FindNone(es[1..], r.key);
    } else {
      SizeOfUpsert(es[1..], r);
      assert ([es[0]] + Upsert(es[1..], r))[1..] == Upsert(es[1..], r);
    }
  }

  lemma SizeOfOne(r: Record)
    ensures SizeOf([r]) == |r.key| + |r.value| + 8
  {
    assert [r][1..] == [];
  }

  lemma SizeOfInsert(es: seq<Record>, k: nat, r: Record)
    requires k <= |es|
    ensures SizeOf(Insert(es, k, r)) == SizeOf(es) + |r.key| + |r.value| + 8
  {
    hide SizeOf;
    assert es == es[..k] + es[k..];
    SizeOfAppend(es[..k], es[k..]);
    SizeOfAppend(es[..k] + [r], es[k..]);
    SizeOfAppend(es[..k], [r]);
    SizeOfOne(r);
  }

  lemma SizeOfReplace(es: seq<Record>, k: nat, r: Record)
    requires k < |es|
    ensures SizeOf(es[k := r]) == SizeOf(es) - (|es[k].key| + |es[k].value| + 8) + |r.key| + |r.value| + 8
  {
    var a, b := es[..k], es[k + 1..];
    assert es == a + [es[k]] + b && es[k := r] == a + [r] + b;
    SizeOfAppend(a + [es[k]], b);
    SizeOfAppend(a, [es[k]]);
    SizeOfAppend(a + [r], b);
    SizeOfAppend(a, [r]);
    SizeOfOne(es[k]);
    SizeOfOne(r);
  }

  /** How many leading entries have a smaller key. */
  function Rank(es: seq<Record>, key: Bytes): (k: nat)
    ensures k <= |es|
  {
    if es == [] || !Less(es[0].key, key) then 0 else 1 + Rank(es[1..], key)
  }

  lemma {:induction false} RankSplits(es: seq<Record>, key: Bytes, p: nat)
    requires Sorted(es) && p < |es|
    ensures p < Rank(es, key) <==> Less(es[p].key, key)
  {
    if Less(es[0].key, key) {
      if p > 0 { RankSplits(es[1..], key, p - 1); }
    } else if p > 0 && Less(es[p].key, key) {
      LessTransitive(es[0].key, es[p].key, key);
    }
  }

  /** Upsert, by position: replace at the rank if the key is there, insert at the rank otherwise. */
  lemma {:induction false} UpsertByRank(es: seq<Record>, r: Record)
    requires Sorted(es)
    ensures var k := Rank(es, r.key);
      Upsert(es, r) == if k < |es| && es[k].key == r.key then es[k := r] else Insert(es, k, r)
  {
    hide Insert;
    if es != [] {
      LessTotal(es[0].key, r.key);
      if Less(es[0].key, r.key) {
        LessAsymmetric(es[0].key, r.key);
        UpsertByRank(es[1..], r);
        ConsReplace(es, Rank(es, r.key), r);
      } else if es[0].key == r.key {
        assert [r] + es[1..] == es[0 := r];
      } else {
        InsertFront(es, r);
      }
    } else {
      InsertFront(es, r);
    }
  }

  lemma ConsReplace(es: seq<Record>, k: nat, r: Record)
    requires 0 < k <= |es|
    ensures k < |es| ==> [es[0]] + es[1..][k - 1 := r] == es[k := r]
    ensures [es[0]] + Insert(es[1..], k - 1, r) == Insert(es, k, r)
  {
  }

  lemma InsertFront(es: seq<Record>, r: Record)
    ensures Insert(es, 0, r) == [r] + es
  {
  }

  lemma {:induction false} FindByRank(es: seq<Record>, key: Bytes)
    requires Sorted(es)
    ensures var k := Rank(es, key); Find(es, key) == if k < |es| && es[k].key == key then Some(es[k]) else None
  {
    var k := Rank(es, key);
    if k < |es| && es[k].key == key {
      FindAt(es, k);
    } else {
      LessIrreflexive(key);
      forall e | e in es ensures e.key != key {
        var p :| 0 <= p < |es| && es[p] == e;
        RankSplits(es, key, p);
        if e.key == key && p > k { RankSplits(es, key, k); }
      }
      FindNone(es, key);
    }
  }

  // ----- the skip list -----------------------------------------------------------------------

  class SkipList {
    const head: Node
    var height: nat
    var length: nat
    var size: int
    /** The head and then the nodes in key order, their tower heights, and what the nodes hold. */
    ghost var all: seq<Node>
    ghost var hs: seq<nat>
    ghost var contents: seq<Record>

    ghost function Nexts(): (r: seq<seq<Node?>>)
      reads `all, (set n | n in all)`next
      ensures |r| == |all| && forall p :: 0 <= p < |all| ==> r[p] == all[p].next
    {
      NextsOf(all)
    }

    ghost predicate Shape()
      reads `all, `hs, `height, `contents, (set n | n in all)`next
    {
      && |all| == |hs| == |contents| + 1 && all[0] == head && hs[0] == MAX_HEIGHT
      && 1 <= height <= MAX_HEIGHT
      && (forall p, q :: 0 <= p < q < |all| ==> all[p] != all[q])
      && (forall p :: 1 <= p < |all| ==> 1 <= hs[p] <= height)
      && Linked(all, Nexts(), hs)
    }

    ghost predicate Holds()
      reads `all, `contents, all
      requires |all| == |contents| + 1
    {
      && (forall p :: 0 <= p < |contents| ==>
            contents[p] == Record(all[p + 1].key, all[p + 1].value, all[p + 1].tombstone)
            && (contents[p].tombstone ==> contents[p].value == []))
      && Sorted(contents)
    }

    ghost predicate Valid()
      reads this, all
    {
      Shape() && Holds() && length == |contents| && size == SizeOf(contents)
    }

    constructor ()
      ensures Valid() && fresh(all) && contents == [] && size == 0 && length == 0 && height == 1 && |head.next| == 20
    {
      var h := new Node([], [], false, MAX_HEIGHT);
      head, height, length, size := h, 1, 0, 0;
      all, hs, contents := [h], [MAX_HEIGHT], [];
      new;
      forall i | 0 <= i < MAX_HEIGHT ensures h.next[i] == At(all, First(hs, 1, i)) { }
    }

    /** The descent shared by Put, Get, Delete and Seek; `update` holds the last node before the key on each level. */
    method Descend(key: Bytes) returns (x: Node, update: seq<Node>, ghost us: seq<nat>)
      requires Valid()
      ensures var k := Rank(contents, key) + 1;
        && |us| == |update| == height && Predecessors(hs, us, k, height) && k <= |all|
        && (forall i :: 0 <= i < height ==> update[i] == all[us[i]])
        && x == all[k - 1] && 0 < |x.next| && x.next[0] == At(all, k)
    {
      hide First, Rank, SizeOf, Linked;
      ghost var k := Rank(contents, key) + 1;
      x := head;
      ghost var p := 0;
      update, us := seq(height, _ => head), seq(height, _ => 0);
      var i := height;
      while i > 0
        invariant 0 <= i <= height && |us| == |update| == height
        invariant p < k && p < |all| && x == all[p] && hs[p] >= i
        invariant forall j :: i <= j < height ==> Reached(us[j], update[j], k, j)
        invariant i < height ==> us[i] == p
      {
        i := i - 1;
        x, p := WalkLevel(key, i, x, p);
        update, us := update[i := x], us[i := p];
      }
      assert Reached(p, x, k, 0);
      FirstAtGround(hs, p + 1);
      LinkOf(p, 0);
    }

    ghost predicate Reached(u: nat, x: Node, k: nat, j: nat)
      reads this
    {
      u < k && u < |all| && u < |hs| && x == all[u] && hs[u] > j && First(hs, u + 1, j) >= k
    }

    lemma LinkOf(p: nat, i: nat)
      requires Shape() && p < |all| && i < hs[p]
      ensures |all[p].next| == hs[p] && all[p].next[i] == At(all, First(hs, p + 1, i))
    {
      assert Nexts()[p] == all[p].next;
    }

    /** Walk right on one level while the next key is smaller. */
    method WalkLevel(key: Bytes, i: nat, x0: Node, ghost p0: nat) returns (x: Node, ghost p: nat)
      requires Valid() && p0 < |all| && x0 == all[p0] && hs[p0] > i && p0 <= Rank(contents, key)
      ensures p0 <= p < |all| && x == all[p] && hs[p] > i && p <= Rank(contents, key)
      ensures First(hs, p + 1, i) > Rank(contents, key)
    {
      hide First, Rank, SizeOf;
      x, p := x0, p0;
      while true
        invariant p0 <= p < |all| && x == all[p] && hs[p] > i && p <= Rank(contents, key)
        decreases Rank(contents, key) - p
      {
        LinkOf(p, i);
        ghost var f := First(hs, p + 1, i);
        if x.next[i] == null { return; }
        assert f < |all| && contents[f - 1].key == x.next[i].key;
        RankSplits(contents, key, f - 1);
        var smaller := LessThan(x.next[i].key, key);
        if !smaller { return; }
        x, p := x.next[i], f;
      }
    }

    /** The splice loop: level by level the new tower takes over its predecessor's link. */
    method Splice(node: Node, h: nat, update: seq<Node>, ghost us: seq<nat>, ghost nexts: seq<seq<Node?>>)
      requires node !in all && |node.next| == h && nexts == Nexts()
      requires forall p, q :: 0 <= p < q < |all| ==> all[p] != all[q]
      requires |update| == |us| && h <= |us|
      requires forall i :: 0 <= i < h ==> us[i] < |all| && update[i] == all[us[i]] && i < |nexts[us[i]]|
      modifies (set n | n in all)`next, node`next
      ensures forall p :: 0 <= p < |all| ==> all[p].next == Redirected(nexts, us, h, node, p)
      ensures node.next == NewTower(nexts, us, h)
    {
      var i := 0;
      while i < h
        invariant 0 <= i <= h && |node.next| == h
        invariant forall p :: 0 <= p < |all| ==> all[p].next == Redirected(nexts, us, i, node, p)
        invariant forall j :: 0 <= j < i ==> node.next[j] == nexts[us[j]][j]
      {
        var u := update[i];
        assert u.next == Redirected(nexts, us, i, node, us[i]);
        node.next := node.next[i := u.next[i]];
        u.next := u.next[i := node];
        forall p | 0 <= p < |all| ensures all[p].next == Redirected(nexts, us, i + 1, node, p) {
          if p != us[i] { assert all[p] != u; }
          RedirectOne(nexts, us, i, node, p);
        }
        i := i + 1;
      }
    }

    /** New levels above the current height start at the head. */
    method Raise(h: nat, update: seq<Node>, ghost us: seq<nat>, ghost k: nat)
      returns (up: seq<Node>, ghost us': seq<nat>)
      requires Shape() && 1 <= k <= |all| && |us| == |update| == height && Predecessors(hs, us, k, height) &&
        h <= MAX_HEIGHT
      requires forall i :: 0 <= i < height ==> update[i] == all[us[i]]
      ensures |us'| == |up| >= h && Predecessors(hs, us', k, h)
      ensures forall i :: 0 <= i < |up| ==> us'[i] < |all| && up[i] == all[us'[i]]
    {
      hide First, Linked;
      up, us' := update, us;
      while |up| < h
        invariant height <= |up| == |us'| && |up| <= (if h < height then height else h)
        invariant Predecessors(hs, us', k, |us'|)
        invariant forall i :: 0 <= i < |up| ==> us'[i] < |all| && up[i] == all[us'[i]]
      {
        NoneAbove(hs, 1, |up|);
        up, us' := up + [head], us' + [0];
      }
    }

    /** Insert a node of random height before the first node whose key is not smaller. */
    method AddNode(r: Record, update: seq<Node>, ghost us: seq<nat>)
      requires Valid() && (r.tombstone ==> r.value == [])
      requires var k := Rank(contents, r.key) + 1;
        && |us| == |update| == height && Predecessors(hs, us, k, height)
        && (forall i :: 0 <= i < height ==> update[i] == all[us[i]])
        && (k <= |contents| ==> contents[k - 1].key != r.key)
      modifies this, all
      ensures Valid() && contents == Upsert(old(contents), r)
      ensures forall n :: n in all ==> n in old(all) || fresh(n)
    {
      hide First, Rank, SizeOf, Upsert, Linked, Holds, Shape;
      ShapeFacts();
      var h: nat :| 1 <= h <= MAX_HEIGHT;
      ghost var k, es := Rank(contents, r.key) + 1, contents;
      var up, us' := Raise(h, update, us, k);
      SizeOfInsert(es, k - 1, r);
      LinkTower(r, h, up, us', k);
      length, size := length + 1, size + (|r.key| + |r.value| + 8);
    }

    method LinkTower(r: Record, h: nat, up: seq<Node>, ghost us: seq<nat>, ghost k: nat)
      requires Shape() && Holds() && k == Rank(contents, r.key) + 1 && (r.tombstone ==> r.value == [])
      requires k <= |contents| ==> contents[k - 1].key != r.key
      requires 1 <= h <= MAX_HEIGHT && h <= |us| == |up| && Predecessors(hs, us, k, h)
      requires forall i :: 0 <= i < h ==> us[i] < |all| && up[i] == all[us[i]]
      modifies this`height, this`all, this`hs, this`contents, (set n | n in all)`next
      ensures Shape() && Holds() && contents == Insert(old(contents), k - 1, r) && contents == Upsert(old(contents), r)
      ensures forall n :: n in all ==> n in old(all) || fresh(n)
    {
      hide First, Rank, Upsert, Linked, Insert, Redirected, NewTower;
      var node := new Node(r.key, r.value, r.tombstone, h);
      ghost var nexts, all0, hs0, es := Nexts(), all, hs, contents;
      PredecessorLinks(nexts, us, k, h);
      Splice(node, h, up, us, nexts);
      if h > height { height := h; }
      all, hs, contents := Insert(all, k, node), Insert(hs, k, h), Insert(contents, k - 1, r);
      InsertedShape(all0, nexts, hs0, us, k, h, node);
      InsertedHolds(all0, es, k, r, node);
      InsertMembers(all0, k, node);
    }

    lemma ShapeFacts()
      requires Shape()
      ensures |all| == |hs| == |contents| + 1 && 1 <= height <= MAX_HEIGHT
    {
    }

    lemma ContentsSorted()
      requires Valid()
      ensures Sorted(contents)
    {
    }

    /** The node of the key, if there is one, and the predecessors on every level. */
    method Locate(key: Bytes) returns (n: Node?, update: seq<Node>, ghost us: seq<nat>)
      requires Valid()
      ensures var k := Rank(contents, key) + 1;
        && |us| == |update| == height && k <= |hs| && Predecessors(hs, us, k, height)
        && (forall i :: 0 <= i < height ==> us[i] < |all| && update[i] == all[us[i]])
        && (n == null ==> k <= |contents| ==> contents[k - 1].key != key)
        && (n != null ==> k < |all| && n == all[k] && n.key == key)
    {
      hide First, Rank, SizeOf, Linked;
      var x;
      x, update, us := Descend(key);
      n := x.next[0];
      if n != null {
        var same := EqualTo(n.key, key);
        if !same { n := null; }
      }
    }

    /** `Put`: insert, or overwrite in place, clearing a tombstone. */
    method Put(key: Bytes, value: Bytes)
      requires Valid()
      modifies this, all
      ensures Valid() && contents == Upsert(old(contents), Record(key, value, false))
      ensures size == match Find(old(contents), key)
                      case None => old(size) + |key| + |value| + 8
                      case Some(e) => old(size) - |e.value| + |value|
      ensures forall n :: n in all ==> n in old(all) || fresh(n)
    {
      hide First, Rank, SizeOf, Upsert, Linked, Insert, Shape, Holds, Find, Sorted;
      ShapeFacts();
      ContentsSorted();
      SizeOfUpsert(contents, Record(key, value, false));
      var n, update, us := Locate(key);
      if n == null {
        AddNode(Record(key, value, false), update, us);
      } else {
        ghost var k := Rank(contents, key) + 1;
        size := size - (|n.key| + |n.value| + 8);
        Overwrite(n, key, value, false, k);
        size := size + (|key| + |value| + 8);
      }
    }

    /** `Delete`: leave a tombstone, freeing only the accounted value bytes of a live entry. */
    method Delete(key: Bytes)
      requires Valid()
      modifies this, all
      ensures Valid() && contents == Upsert(old(contents), Record(key, [], true))
      ensures size == match Find(old(contents), key)
                      case None => old(size) + |key| + 8
                      case Some(e) => old(size) - |e.value|
      ensures forall n :: n in all ==> n in old(all) || fresh(n)
    {
      hide First, Rank, SizeOf, Upsert, Linked, Insert, Shape, Holds, Find, Sorted;
      ShapeFacts();
      ContentsSorted();
      SizeOfUpsert(contents, Record(key, [], true));
      var n, update, us := Locate(key);
      if n == null {
        AddNode(Record(key, [], true), update, us);
      } else if !n.tombstone {
        ghost var k := Rank(contents, key) + 1;
        size := size - |n.value|;
        Overwrite(n, n.key, [], true, k);
      } else {
        AlreadyDeleted(key, n);
      }
    }

    lemma AlreadyDeleted(key: Bytes, n: Node)
      requires Valid() && Rank(contents, key) + 1 < |all| && n == all[Rank(contents, key) + 1] && n.key == key &&
        n.tombstone
      ensures contents == Upsert(contents, Record(key, [], true))
    {
      hide Rank, Upsert, SizeOf, Shape;
      ShapeFacts();
      UpsertByRank(contents, Record(key, [], true));
    }

    /** Each level is sorted and a sublist of the level below; the ground level is the whole listing. */
    lemma Levels(i: nat)
      requires Valid()
      ensures Sorted(Level(contents, hs[1..], i))
      ensures Sublist(Level(contents, hs[1..], i + 1), Level(contents, hs[1..], i))
      ensures Level(contents, hs[1..], 0) == contents
    {
      LevelSorted(contents, hs[1..], i);
      LevelsNest(contents, hs[1..], i);
      GroundLevel(contents, hs[1..]);
    }

    /** Change what an existing node holds; the towers stay as they are. */
    method Overwrite(n: Node, key: Bytes, value: Bytes, tombstone: bool, ghost k: nat)
      requires Shape() && Holds() && k == Rank(contents, key) + 1 && k < |all| && n == all[k] && n.key == key
      requires tombstone ==> value == []
      modifies this`contents, n`key, n`value, n`tombstone
      ensures Shape() && Holds() && contents == old(contents)[k - 1 := Record(key, value, tombstone)]
      ensures contents == Upsert(old(contents), Record(key, value, tombstone))
      ensures SizeOf(contents) == SizeOf(old(contents)) - (|old(n.key)| + |old(n.value)| + 8) + |key| + |value| + 8
    {
      hide First, Rank, SizeOf, Upsert, Linked;
      ghost var es, r := contents, Record(key, value, tombstone);
      UpsertByRank(es, r);
      UpsertSorted(es, r);
      SizeOfReplace(es, k - 1, r);
      n.key, n.value, n.tombstone := key, value, tombstone;
      contents := es[k - 1 := r];
    }

    /** `Get`: found, and whether it is a tombstone. */
    method Get(key: Bytes) returns (value: Bytes, found: bool, isTombstone: bool)
      requires Valid()
      ensures found <==> Find(contents, key).Some?
      ensures found ==> Find(contents, key).value == Record(key, value, isTombstone)
      ensures !found ==> value == [] && !isTombstone
    {
      hide First, Rank, SizeOf, Linked, Find;
      var x, _, _ := Descend(key);
      FindByRank(contents, key);
      var n := x.next[0];
      if n != null {
        var same := EqualTo(n.key, key);
        if same {
          if n.tombstone { return [], true, true; }
          return n.value, true, false;
        }
      }
      return [], false, false;
    }

    /** `Snapshot`: walk the ground level. */
    method Snapshot() returns (out: seq<Record>)
      requires Valid()
      ensures out == contents
    {
      hide First, SizeOf, Linked;
      out := [];
      ghost var p := 0;
      LinkOf(0, 0);
      FirstAtGround(hs, 1);
      var x := head.next[0];
      while x != null
        invariant p < |all| && x == At(all, p + 1) && out == contents[..p]
        decreases |all| - p
      {
        p := p + 1;
        out := out + [Record(x.key, if x.tombstone then [] else x.value, x.tombstone)];
        LinkOf(p, 0);
        FirstAtGround(hs, p + 1);
        x := x.next[0];
      }
    }

    lemma PredecessorLinks(nexts: seq<seq<Node?>>, us: seq<nat>, k: nat, h: nat)
      requires Shape() && nexts == Nexts() && Predecessors(hs, us, k, h)
      ensures forall i :: 0 <= i < h ==> us[i] < |nexts| && i < |nexts[us[i]]|
    {
    }

    lemma InsertedShape(all0: seq<Node>, nexts: seq<seq<Node?>>, hs0: seq<nat>, us: seq<nat>, k: nat, h: nat,
                        node: Node)
      requires 1 <= k <= |all0| && Linked(all0, nexts, hs0) && Predecessors(hs0, us, k, h) &&
        1 <= h <= height <= MAX_HEIGHT
      requires all == Insert(all0, k, node) && hs == Insert(hs0, k, h) && |contents| == |all0|
      requires all0[0] == head && hs0[0] == MAX_HEIGHT && node !in all0
      requires forall p, q :: 0 <= p < q < |all0| ==> all0[p] != all0[q]
      requires forall p :: 1 <= p < |all0| ==> 1 <= hs0[p] <= height
      requires forall p :: 0 <= p < |all0| ==> all0[p].next == Redirected(nexts, us, h, node, p)
      requires forall i :: 0 <= i < h ==> us[i] < |nexts| && i < |nexts[us[i]]|
      requires node.next == NewTower(nexts, us, h)
      ensures Shape()
    {
      hide First, Redirected, NewTower;
      SpliceKeepsLinks(all0, nexts, hs0, us, k, h, node);
      var spliced := Spliced(nexts, us, k, h, node);
      forall p | 0 <= p < |all| ensures Nexts()[p] == spliced[p] {
        if p < k { assert all[p] == all0[p]; } else if p > k { assert all[p] == all0[p - 1]; }
      }
      assert Nexts() == spliced;
    }

    lemma InsertedHolds(all0: seq<Node>, es: seq<Record>, k: nat, r: Record, node: Node)
      requires |all0| == |es| + 1 && k == Rank(es, r.key) + 1 && Sorted(es) && (r.tombstone ==> r.value == [])
      requires all == Insert(all0, k, node) && contents == Insert(es, k - 1, r)
      requires k <= |es| ==> es[k - 1].key != r.key
      requires node.key == r.key && node.value == r.value && node.tombstone == r.tombstone
      requires forall p :: 0 <= p < |es| ==>
        es[p] == Record(all0[p + 1].key, all0[p + 1].value, all0[p + 1].tombstone) &&
          (es[p].tombstone ==> es[p].value == [])
      ensures |all| == |contents| + 1 && Holds() && contents == Upsert(es, r)
    {
      hide Rank, Upsert;
      UpsertByRank(es, r);
      UpsertSorted(es, r);
    }
  }

  /** `SkipListIterator`, positioned at a node of a list that does not change meanwhile. */
  class SkipListIterator {
    const sl: SkipList
    var node: Node?
    ghost var pos: nat

    ghost predicate Ready()
      reads this, sl, sl.all
    {
      sl.Valid() && pos <= |sl.contents| && node == At(sl.all, pos + 1)
    }

    /** The current entry and everything after it. */
    ghost function Rest(): seq<Record>
      reads this, sl, sl.all
      requires Ready()
    {
      sl.contents[pos..]
    }

    constructor (sl: SkipList)
      requires sl.Valid()
      ensures this.sl == sl && Ready() && Rest() == sl.contents
    {
      sl.LinkOf(0, 0);
      FirstAtGround(sl.hs, 1);
      this.sl, this.node, this.pos := sl, sl.head.next[0], 0;
    }

    method Next()
      requires Ready()
      modifies this
      ensures Ready() && Rest() == if old(Rest()) == [] then [] else old(Rest())[1..]
    {
      if node != null {
        sl.LinkOf(pos + 1, 0);
        FirstAtGround(sl.hs, pos + 2);
        node := node.next[0];
        pos := pos + 1;
      }
    }

    /** Exactly the entries at or after the key remain. */
    method Seek(key: Bytes)
      requires Ready()
      modifies this
      ensures Ready() && Rest() == sl.contents[Rank(sl.contents, key)..]
      ensures forall p :: 0 <= p < |sl.contents| ==> (p < |sl.contents| - |Rest()| <==> Less(sl.contents[p].key, key))
    {
      forall p | 0 <= p < |sl.contents| ensures p < Rank(sl.contents, key) <==> Less(sl.contents[p].key, key) {
        RankSplits(sl.contents, key, p);
      }
      hide Rank, First, SizeOf, Linked;
      var x, _, _ := sl.Descend(key);
      node := x.next[0];
      pos := Rank(sl.contents, key);
    }
  }

  lemma {:induction false} GroundLevel(records: seq<Record>, hs: seq<nat>)
    requires |records| == |hs| && forall p :: 0 <= p < |hs| ==> hs[p] >= 1
    ensures Level(records, hs, 0) == records
  {
    if hs != [] {
      GroundLevel(records[1..], hs[1..]);
      assert records == [records[0]] + records[1..];
    }
  }

  ghost function NextsOf(nodes: seq<Node>): (r: seq<seq<Node?>>)
    reads (set n | n in nodes)`next
    ensures |r| == |nodes| && forall p :: 0 <= p < |nodes| ==> r[p] == nodes[p].next
  {
    if nodes == [] then [] else
      assert forall n :: n in nodes[..|nodes| - 1] ==> n in nodes;
      NextsOf(nodes[..|nodes| - 1]) + [nodes[|nodes| - 1].next]
  }

  /** Every tower after the head reaches the ground level. */
  lemma FirstAtGround(hs: seq<nat>, q: nat)
    requires 1 <= q <= |hs| && forall p :: 1 <= p < |hs| ==> hs[p] >= 1
    ensures First(hs, q, 0) == q
  {
  }

  lemma {:induction false} NoneAbove(hs: seq<nat>, q: nat, i: nat)
    requires q <= |hs| && forall p :: q <= p < |hs| ==> hs[p] <= i
    ensures First(hs, q, i) == |hs|
    decreases |hs| - q
  {
    if q < |hs| { NoneAbove(hs, q + 1, i); }
  }

  lemma InsertMembers(s: seq<Node>, k: nat, x: Node)
    requires k <= |s|
    ensures forall y :: y in Insert(s, k, x) ==> y == x || y in s
  {
  }

  lemma RedirectOne(nexts: seq<seq<Node?>>, us: seq<nat>, i: nat, node: Node, p: nat)
    requires p < |nexts| && i < |us| && us[i] < |nexts| && i < |nexts[us[i]]|
    ensures p != us[i] ==> Redirected(nexts, us, i + 1, node, p) == Redirected(nexts, us, i, node, p)
    ensures p == us[i] ==> Redirected(nexts, us, i + 1, node, p) == Redirected(nexts, us, i, node, p)[i := node]
  {
  }
}

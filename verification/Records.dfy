/** Records, the tables they build, and sorted listings of them. */
module Records {
  import opened ByteStrings

  datatype Option<+T> = None | Some(value: T)

  /** A log record, a memtable snapshot entry and an SSTable entry all have this shape. */
  datatype Record = Record(key: Bytes, value: Bytes, tombstone: bool)

  /** What a layer knows about a key: its value, or that it was deleted. */
  datatype Cell = Live(value: Bytes) | Deleted

  type Table = map<Bytes, Cell>

  function CellOf(r: Record): Cell {
    if r.tombstone then Deleted else Live(r.value)
  }

  /** `applyRecordToMemtable`: the last writer of a key wins. */
  function Apply(t: Table, r: Record): Table {
    t[r.key := CellOf(r)]
  }

  function Replay(t: Table, rs: seq<Record>): Table
    decreases |rs|
  {
    if rs == [] then t else Replay(Apply(t, rs[0]), rs[1..])
  }

  /** The meaning of a history of writes. */
  function Fold(rs: seq<Record>): Table {
    Replay(map[], rs)
  }

  lemma {:induction false} ReplayAppend(t: Table, a: seq<Record>, b: seq<Record>)
    ensures Replay(t, a + b) == Replay(Replay(t, a), b)
    decreases |a|
  {
    if a == [] {
      assert a + b == b;
    } else {
      assert (a + b)[1..] == a[1..] + b;
      ReplayAppend(Apply(t, a[0]), a[1..], b);
    }
  }

  /** Replaying onto a table is laying the replayed writes over it. */
  lemma {:induction false} ReplayIsOverlay(t: Table, rs: seq<Record>)
    ensures Replay(t, rs) == t + Fold(rs)
    decreases |rs|
  {
    if rs != [] {
      ReplayIsOverlay(Apply(t, rs[0]), rs[1..]);
      ReplayIsOverlay(Apply(map[], rs[0]), rs[1..]);
    }
  }

  lemma FoldAppend(a: seq<Record>, b: seq<Record>)
    ensures Fold(a + b) == Fold(a) + Fold(b)
  {
    ReplayAppend(map[], a, b);
    ReplayIsOverlay(Fold(a), b);
  }

  /** Record i is the last one of its key. */
  ghost predicate LastWrite(rs: seq<Record>, key: Bytes, i: nat) {
    i < |rs| && rs[i].key == key && forall j :: i < j < |rs| ==> rs[j].key != key
  }

  /** The last record of the key puts this value. */
  ghost predicate LastPuts(rs: seq<Record>, key: Bytes, value: Bytes) {
    exists i: nat :: LastWrite(rs, key, i) && !rs[i].tombstone && rs[i].value == value
  }

  /** The fold has a key exactly if a record does, and then what the last record of the key says. */
  lemma {:induction false} FoldIsLastWrite(rs: seq<Record>, key: Bytes)
    ensures key !in Fold(rs) <==> forall i :: 0 <= i < |rs| ==> rs[i].key != key
    ensures forall i: nat :: LastWrite(rs, key, i) ==>
      key in Fold(rs) && Fold(rs)[key] == if rs[i].tombstone then Deleted else Live(rs[i].value)
    ensures key in Fold(rs) ==> exists i: nat :: LastWrite(rs, key, i)
  {
    if rs != [] {
      var n := |rs| - 1;
      var front := rs[..n];
      FoldIsLastWrite(front, key);
      assert rs == front + [rs[n]];
      FoldAppend(front, [rs[n]]);
      FoldOne(rs[n]);
      hide Fold;
      if rs[n].key == key {
        assert LastWrite(rs, key, n);
      } else {
        forall i: nat ensures LastWrite(rs, key, i) <==> LastWrite(front, key, i) {
          if LastWrite(front, key, i) { assert forall j :: i < j < n ==> front[j] == rs[j]; }
          if LastWrite(rs, key, i) { assert forall j :: i < j < n ==> front[j] == rs[j]; }
        }
        if key in Fold(front) {
          var i: nat :| LastWrite(front, key, i);
          assert LastWrite(rs, key, i);
        }
      }
    }
  }

  lemma FoldOne(r: Record)
    ensures Fold([r]) == map[r.key := CellOf(r)]
  {
    assert [r][1..] == [];
    assert Replay(Apply(map[], r), []) == Apply(map[], r);
  }

  /** In particular it has a live value exactly if the last record of the key puts that value. */
  lemma FoldHolds(rs: seq<Record>, key: Bytes, value: Bytes)
    ensures LastPuts(rs, key, value) <==> key in Fold(rs) && Fold(rs)[key] == Live(value)
  {
    hide Fold;
    FoldIsLastWrite(rs, key);
    if key in Fold(rs) && Fold(rs)[key] == Live(value) {
      var i: nat :| LastWrite(rs, key, i);
    }
  }

  /** Replaying records that a prefix already holds changes nothing, as long as none is skipped. */
  lemma OverlapIsHarmless(h: seq<Record>, from: nat, upto: nat)
    requires from <= upto <= |h|
    ensures Fold(h[..upto]) + Fold(h[from..]) == Fold(h)
  {
    assert h[..upto] == h[..from] + h[from..upto];
    assert h[from..] == h[from..upto] + h[upto..];
    assert h == h[..upto] + h[upto..];
    FoldAppend(h[..from], h[from..upto]);
    FoldAppend(h[from..upto], h[upto..]);
    FoldAppend(h[..upto], h[upto..]);
  }

  /** Keys strictly ascending: the form of every memtable snapshot and SSTable. */
  ghost predicate Sorted(es: seq<Record>) {
    forall i, j :: 0 <= i < j < |es| ==> Less(es[i].key, es[j].key)
  }

  /** Linear search, the reference every other search is compared with. */
  function Find(es: seq<Record>, key: Bytes): Option<Record> {
    if es == [] then None
    else if es[0].key == key then Some(es[0])
    else Find(es[1..], key)
  }

  lemma {:induction false} FindNone(es: seq<Record>, key: Bytes)
    ensures Find(es, key).None? <==> forall e :: e in es ==> e.key != key
  {
    if es != [] {
      FindNone(es[1..], key);
      assert forall e :: e in es <==> e == es[0] || e in es[1..];
    }
  }

  lemma {:induction false} FindAt(es: seq<Record>, i: nat)
    requires Sorted(es) && i < |es|
    ensures Find(es, es[i].key) == Some(es[i])
  {
    if i > 0 {
      LessIrreflexive(es[0].key);
      assert Less(es[0].key, es[i].key);
      FindAt(es[1..], i - 1);
    }
  }

  lemma {:induction false} FindSome(es: seq<Record>, key: Bytes)
    requires Find(es, key).Some?
    ensures Find(es, key).value in es && Find(es, key).value.key == key
  {
    if es[0].key != key { FindSome(es[1..], key); }
  }

  lemma FindIsMembership(es: seq<Record>, e: Record)
    requires Sorted(es)
    ensures e in es <==> Find(es, e.key) == Some(e)
  {
    if e in es {
      var i :| 0 <= i < |es| && es[i] == e;
      FindAt(es, i);
    }
    if Find(es, e.key) == Some(e) { FindSome(es, e.key); }
  }

  /** A sorted listing as a table. */
  function TableOf(es: seq<Record>): Table {
    if es == [] then map[] else TableOf(es[1..])[es[0].key := CellOf(es[0])]
  }

  lemma {:induction false} TableOfFind(es: seq<Record>, key: Bytes)
    ensures key in TableOf(es) <==> Find(es, key).Some?
    ensures key in TableOf(es) ==> TableOf(es)[key] == CellOf(Find(es, key).value)
  {
    if es != [] { TableOfFind(es[1..], key); }
  }

  /** Insert into a sorted listing, replacing the entry of the same key. */
  function Upsert(es: seq<Record>, r: Record): seq<Record> {
    if es == [] then [r]
    else if es[0].key == r.key then [r] + es[1..]
    else if Less(r.key, es[0].key) then [r] + es
    else [es[0]] + Upsert(es[1..], r)
  }

  lemma {:induction false} UpsertMembers(es: seq<Record>, r: Record, e: Record)
    requires e in Upsert(es, r)
    ensures e == r || e in es
  {
    if es != [] && es[0].key != r.key && !Less(r.key, es[0].key) && e != es[0] { UpsertMembers(es[1..], r, e); }
  }

  lemma {:induction false} UpsertSorted(es: seq<Record>, r: Record)
    requires Sorted(es)
    ensures Sorted(Upsert(es, r))
  {
    if es != [] {
      var rest := es[1..];
      if es[0].key == r.key {
        assert forall i :: 0 <= i < |rest| ==> rest[i] == es[i + 1];
      } else if Less(r.key, es[0].key) {
        forall i | 0 <= i < |es| ensures Less(r.key, es[i].key) {
          if i > 0 { LessTransitive(r.key, es[0].key, es[i].key); }
        }
      } else {
        UpsertSorted(rest, r);
        LessTotal(es[0].key, r.key);
        forall e | e in Upsert(rest, r) ensures Less(es[0].key, e.key) {
          UpsertMembers(rest, r, e);
          if e != r {
            var i :| 0 <= i < |rest| && rest[i] == e;
            assert Less(es[0].key, es[i + 1].key);
          }
        }
      }
    }
  }

  lemma {:induction false} UpsertFind(es: seq<Record>, r: Record, key: Bytes)
    ensures Find(Upsert(es, r), key) == if key == r.key then Some(r) else Find(es, key)
  {
    if es == [] || es[0].key == r.key {
      assert ([r] + if es == [] then [] else es[1..])[1..] == if es == [] then [] else es[1..];
    } else if Less(r.key, es[0].key) {
      assert ([r] + es)[1..] == es;
    } else {
      UpsertFind(es[1..], r, key);
      assert ([es[0]] + Upsert(es[1..], r))[1..] == Upsert(es[1..], r);
    }
  }

  /** A sorted listing is determined by its members. */
  lemma {:induction false} SortedIsUnique(a: seq<Record>, b: seq<Record>)
    requires Sorted(a) && Sorted(b) && forall e :: e in a <==> e in b
    ensures a == b
  {
    assert (a != [] ==> a[0] in b) && (b != [] ==> b[0] in a);
    if a != [] {
      HeadsAgree(a, b);
      assert a[0] == b[0];
      forall e ensures e in a[1..] <==> e in b[1..] { TailMember(a, e); TailMember(b, e); }
      SortedIsUnique(a[1..], b[1..]);
      assert a == [a[0]] + a[1..] && b == [b[0]] + b[1..];
    }
  }

  lemma TailMember(es: seq<Record>, e: Record)
    requires Sorted(es) && es != []
    ensures e in es[1..] <==> e in es && e != es[0]
  {
    if e in es[1..] {
      var i :| 0 <= i < |es[1..]| && es[1..][i] == e;
      assert Less(es[0].key, es[i + 1].key);
      LessIrreflexive(e.key);
    }
    if e in es && e != es[0] {
      var i :| 0 <= i < |es| && es[i] == e;
      assert es[1..][i - 1] == e;
    }
  }

  lemma HeadsAgree(a: seq<Record>, b: seq<Record>)
    requires Sorted(a) && Sorted(b) && a != [] && b != [] && forall e :: e in a <==> e in b
    ensures a[0] == b[0]
  {
    assert a[0] in a && b[0] in b;
    var i :| 0 <= i < |b| && b[i] == a[0];
    var j :| 0 <= j < |a| && a[j] == b[0];
    if i > 0 && j > 0 { LessAsymmetric(b[0].key, b[i].key); }
  }
}

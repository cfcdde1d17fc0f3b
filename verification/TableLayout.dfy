/** How the entries of a table are cut into blocks and found again. */
module TableLayout {
  import opened ByteStrings
  import opened Records
  import opened TableFormat

  type Blocks = seq<seq<Record>>

  ghost predicate NonEmptyBlocks(blocks: Blocks) {
    forall i :: 0 <= i < |blocks| ==> blocks[i] != []
  }

  /** All entries in order. */
  ghost function Entries(blocks: Blocks): seq<Record> {
    if blocks == [] then [] else Entries(blocks[..|blocks| - 1]) + blocks[|blocks| - 1]
  }

  /** The data region of the file. */
  ghost function Data(blocks: Blocks): Bytes {
    if blocks == [] then [] else Data(blocks[..|blocks| - 1]) + EncodeBlock(blocks[|blocks| - 1])
  }

  ghost function LastKey(es: seq<Record>): Bytes {
    if es == [] then [] else es[|es| - 1].key
  }

  /** The index: last key, offset and length of every block. */
  ghost function IndexFor(blocks: Blocks): (index: seq<IndexEntry>)
    requires |Data(blocks)| < TWO_63
    ensures |index| == |blocks|
  {
    if blocks == [] then []
    else
      var front, last := blocks[..|blocks| - 1], blocks[|blocks| - 1];
      IndexFor(front) + [IndexEntry(LastKey(last), |Data(front)|, |EncodeBlock(last)|)]
  }

  lemma SnocBlocks(blocks: Blocks, b: seq<Record>)
    ensures Entries(blocks + [b]) == Entries(blocks) + b
    ensures Data(blocks + [b]) == Data(blocks) + EncodeBlock(b)
    ensures |Data(blocks + [b])| < TWO_63 ==>
      IndexFor(blocks + [b]) == IndexFor(blocks) + [IndexEntry(LastKey(b), |Data(blocks)|, |EncodeBlock(b)|)]
  {
    assert (blocks + [b])[..|blocks|] == blocks;
  }

  /** What the index says about block i, and that its bytes are where it says. */
  lemma {:induction false} BlockAt(blocks: Blocks, i: nat)
    requires |Data(blocks)| < TWO_63 && i < |blocks|
    ensures |Data(blocks[..i])| + |EncodeBlock(blocks[i])| <= |Data(blocks)|
    ensures IndexFor(blocks)[i] == IndexEntry(LastKey(blocks[i]), |Data(blocks[..i])|, |EncodeBlock(blocks[i])|)
    ensures Data(blocks)[|Data(blocks[..i])|..|Data(blocks[..i])| + |EncodeBlock(blocks[i])|] == EncodeBlock(blocks[i])
  {
    hide EncodeBlock, Data, IndexFor;
    var n := |blocks| - 1;
    var front := blocks[..n];
    assert blocks == front + [blocks[n]];
    SnocBlocks(front, blocks[n]);
    if i < n {
      BlockAt(front, i);
      assert front[..i] == blocks[..i];
      Inside(Data(front), EncodeBlock(blocks[n]), |Data(blocks[..i])|, |Data(blocks[..i])| + |EncodeBlock(blocks[i])|);
    }
  }

  lemma Inside(a: Bytes, b: Bytes, from: nat, upto: nat)
    requires from <= upto <= |a|
    ensures (a + b)[from..upto] == a[from..upto]
  {
  }

  lemma {:induction false} EntriesAppend(a: Blocks, b: Blocks)
    ensures Entries(a + b) == Entries(a) + Entries(b)
  {
    if b == [] {
      assert a + b == a;
    } else {
      var n := |b| - 1;
      assert (a + b)[..|a + b| - 1] == a + b[..n];
      EntriesAppend(a, b[..n]);
    }
  }

  lemma EntriesSplit(blocks: Blocks, i: nat)
    requires i < |blocks|
    ensures Entries(blocks) == Entries(blocks[..i]) + blocks[i] + Entries(blocks[i + 1..])
  {
    hide Entries, Data, IndexFor;
    CutAround(blocks, i);
    EntriesAppend(blocks[..i + 1], blocks[i + 1..]);
    SnocBlocks(blocks[..i], blocks[i]);
  }

  lemma CutAround(blocks: Blocks, i: nat)
    requires i < |blocks|
    ensures blocks == blocks[..i + 1] + blocks[i + 1..] && blocks[..i + 1] == blocks[..i] + [blocks[i]]
  {
  }

  // ----- searching ---------------------------------------------------------------------------------

  lemma {:induction false} FindAppend(a: seq<Record>, b: seq<Record>, key: Bytes)
    ensures Find(a + b, key) == match Find(a, key) case Some(e) => Some(e) case None => Find(b, key)
  {
    if a == [] {
      assert a + b == b;
    } else {
      assert (a + b)[1..] == a[1..] + b;
      FindAppend(a[1..], b, key);
    }
  }

  ghost predicate AllBelow(es: seq<Record>, key: Bytes) {
    forall e :: e in es ==> Less(e.key, key)
  }

  ghost predicate AllAbove(es: seq<Record>, key: Bytes) {
    forall e :: e in es ==> Less(key, e.key)
  }

  lemma NotFoundBelow(es: seq<Record>, key: Bytes)
    requires AllBelow(es, key) || AllAbove(es, key)
    ensures Find(es, key).None?
  {
    LessIrreflexive(key);
    FindNone(es, key);
  }

  /** Everything up to a block whose last key is below the key is below it. */
  lemma BelowLastKey(blocks: Blocks, i: nat, key: Bytes)
    requires NonEmptyBlocks(blocks) && Sorted(Entries(blocks)) && i <= |blocks|
    requires i > 0 ==> Less(LastKey(blocks[i - 1]), key)
    ensures AllBelow(Entries(blocks[..i]), key)
  {
    if i > 0 {
      var es := Entries(blocks[..i]);
      assert blocks[..i][..i - 1] == blocks[..i - 1];
      EntriesAppend(blocks[..i], blocks[i..]);
      assert blocks == blocks[..i] + blocks[i..];
      assert es[|es| - 1].key == LastKey(blocks[i - 1]);
      forall e | e in es ensures Less(e.key, key) {
        var p :| 0 <= p < |es| && es[p] == e;
        assert Entries(blocks)[p] == e && Entries(blocks)[|es| - 1] == es[|es| - 1];
        if p < |es| - 1 { LessTransitive(e.key, es[|es| - 1].key, key); }
      }
    } else {
      assert blocks[..0] == [];
    }
  }

  /** Everything after a block whose last key is not below the key is above it. */
  lemma AboveLastKey(blocks: Blocks, i: nat, key: Bytes)
    requires NonEmptyBlocks(blocks) && Sorted(Entries(blocks)) && i < |blocks| && !Less(LastKey(blocks[i]), key)
    ensures AllAbove(Entries(blocks[i + 1..]), key)
  {
    EntriesSplit(blocks, i);
    var all, pre, b, post := Entries(blocks), Entries(blocks[..i]), blocks[i], Entries(blocks[i + 1..]);
    var q := |pre| + |b| - 1;
    assert all[q] == b[|b| - 1];
    LessTotal(key, LastKey(b));
    forall e | e in post ensures Less(key, e.key) {
      var p :| 0 <= p < |post| && post[p] == e;
      assert all[q + 1 + p] == e;
      assert Less(all[q].key, all[q + 1 + p].key);
      if key != LastKey(b) { LessTransitive(key, LastKey(b), e.key); }
    }
  }

  /** i is the first block whose last key is not below the key. */
  ghost predicate IsSearchResult(blocks: Blocks, key: Bytes, i: nat) {
    && i <= |blocks|
    && (forall j :: 0 <= j < i ==> Less(LastKey(blocks[j]), key))
    && (i < |blocks| ==> !Less(LastKey(blocks[i]), key))
  }

  /** A key can only be in the block that the index search selects. */
  lemma FindInBlock(blocks: Blocks, key: Bytes, i: nat)
    requires NonEmptyBlocks(blocks) && Sorted(Entries(blocks)) && IsSearchResult(blocks, key, i)
    ensures Find(Entries(blocks), key) == if i < |blocks| then Find(blocks[i], key) else None
  {
    BelowLastKey(blocks, i, key);
    NotFoundBelow(Entries(blocks[..i]), key);
    if i < |blocks| {
      EntriesSplit(blocks, i);
      AboveLastKey(blocks, i, key);
      NotFoundBelow(Entries(blocks[i + 1..]), key);
      FindAppend(Entries(blocks[..i]) + blocks[i], Entries(blocks[i + 1..]), key);
      FindAppend(Entries(blocks[..i]), blocks[i], key);
    } else {
      assert blocks[..i] == blocks;
    }
  }

  lemma {:induction false} LastKeysAscend(blocks: Blocks, i: nat, j: nat)
    requires NonEmptyBlocks(blocks) && Sorted(Entries(blocks)) && i < j < |blocks|
    ensures Less(LastKey(blocks[i]), LastKey(blocks[j]))
  {
    EntriesSplit(blocks, i);
    EntriesSplit(blocks, j);
    var all := Entries(blocks);
    var p, q := |Entries(blocks[..i])| + |blocks[i]| - 1, |Entries(blocks[..j])| + |blocks[j]| - 1;
    assert all[p] == blocks[i][|blocks[i]| - 1] && all[q] == blocks[j][|blocks[j]| - 1];
    EntriesAppend(blocks[..i + 1], blocks[i + 1..j]);
    assert blocks[..j] == blocks[..i + 1] + blocks[i + 1..j];
    CutAround(blocks, i);
    SnocBlocks(blocks[..i], blocks[i]);
  }
}

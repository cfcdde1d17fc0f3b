/** Writing a table: block cutting, index, filter, footer; and opening what was written. */
module TableWriter {
  import opened ByteStrings
  import opened Records
  import opened TableFormat
  import opened TableLayout
  import Bloom

  datatype WriteError = KeyOutOfOrder | KeyTooLarge

  /** The bytes of a finished table. */
  ghost function TableFile(blocks: Blocks, f: Bloom.Filter): Bytes
    requires |Data(blocks)| < TWO_63
    requires TableSize(blocks, f) < TWO_63
  {
    var data, index, bloom := Data(blocks), EncodeIndex(IndexFor(blocks)), Bloom.Encode(f);
    data + index + bloom + EncodeFooter(Footer(|data|, |index|, |data| + |index|, |bloom|, VERSION, MAGIC))
  }

  ghost function TableSize(blocks: Blocks, f: Bloom.Filter): nat
    requires |Data(blocks)| < TWO_63
  {
    |Data(blocks)| + |EncodeIndex(IndexFor(blocks))| + |Bloom.Encode(f)| + FOOTER_SIZE
  }

  ghost function Hashes(fnv: Bytes -> uint64, es: seq<Record>): (sums: seq<uint64>)
    ensures |sums| == |es| && forall i :: 0 <= i < |es| ==> sums[i] == fnv(es[i].key)
  {
    if es == [] then [] else Hashes(fnv, es[..|es| - 1]) + [fnv(es[|es| - 1].key)]
  }

  /** A block holds at most blockSize bytes, or a single entry. */
  ghost predicate CutAt(b: seq<Record>, blockSize: int) {
    |EncodeBlock(b)| <= blockSize || |b| <= 1
  }

  /** Every block but the last is full: with the next entry it would be over the block size. */
  ghost predicate AllFull(blocks: Blocks, blockSize: int) {
    forall i :: 0 <= i < |blocks| - 1 && blocks[i + 1] != [] ==>
      |EncodeBlock(blocks[i])| + |blocks[i + 1][0].key| + |blocks[i + 1][0].value| + 9 > blockSize
  }

  class Writer {
    const blockSize: int
    const filter: Bloom.Builder
    ghost const empty: Bloom.Filter
    var file: Bytes
    var current: Bytes
    var index: seq<IndexEntry>
    var lastKey: Bytes
    var offset: nat
    ghost var blocks: Blocks
    ghost var cur: seq<Record>

    /** Everything added so far. */
    ghost function Written(): seq<Record>
      reads `blocks, `cur
    {
      Entries(blocks) + cur
    }

    ghost predicate LayoutValid()
      reads this
    {
      && file == Data(blocks) && |file| + |current| < TWO_63 && index == IndexFor(blocks) && offset == |file|
      && current == EncodeBlock(cur) && NonEmptyBlocks(blocks)
      && lastKey == LastKey(Written()) && AllFit(Written())
      && CutAt(cur, blockSize) && forall i :: 0 <= i < |blocks| ==> CutAt(blocks[i], blockSize)
    }

    /** Blocks are cut only when full; an entry that Add refuses for its length may cut one early. */
    ghost predicate Filled()
      reads `blocks, `cur
    {
      (blocks == [] || cur != []) && AllFull(blocks + [cur], blockSize)
    }

    ghost predicate FilterValid()
      reads `blocks, `cur, filter.bits
    {
      filter.Valid() && Bloom.WellSized(empty) && filter.Value() == Bloom.AddAll(empty, Hashes(filter.fnv, Written()))
    }

    ghost predicate Valid()
      reads this, filter.bits
    {
      LayoutValid() && FilterValid()
    }

    /** `NewWriter`, for a positive block size and the filter that New sizes. */
    constructor (blockSize: int, fnv: Bytes -> uint64, k: nat, m: nat)
      requires blockSize > 0 && 1 <= k <= 30 && m > 0 && m % 8 == 0
      ensures Valid() && Written() == [] && file == [] && current == [] && fresh(filter) && fresh(filter.bits)
      ensures Filled()
      ensures filter.fnv == fnv && filter.k == k && filter.m == m && Bloom.AsNew(filter.Value()) &&
        this.blockSize == blockSize
    {
      var b := new Bloom.Builder(fnv, k, m);
      this.blockSize, this.filter, this.empty := blockSize, b, b.Value();
      file, current, index, lastKey, offset := [], [], [], [], 0;
      blocks, cur := [], [];
    }

    /** `flushBlock`: write the current block and index it. */
    method FlushBlock()
      requires LayoutValid()
      modifies `file, `current, `index, `offset, `blocks, `cur
      ensures LayoutValid() && Written() == old(Written()) && current == [] && cur == []
      ensures |file| == |old(file)| + |old(current)| &&
        blocks == if old(cur) == [] then old(blocks) else old(blocks) + [old(cur)]
    {
      hide Data, Entries, IndexFor, EncodeBlock;
      if |current| == 0 {
        EmptyBlock(cur);
        return;
      }
      EmptyEncoding();
      SnocBlocks(blocks, cur);
      file := file + current;
      index := index + [IndexEntry(lastKey, offset, |current|)];
      offset := offset + |current|;
      blocks := blocks + [cur];
      current, cur := [], [];
    }

    /** `Writer.Add`. */
    method Add(r: Record) returns (err: Option<WriteError>)
      requires Valid() && |file| + |current| + |r.key| + |r.value| + 9 < TWO_63
      modifies this, filter.bits
      ensures Valid()
      ensures err == if old(lastKey) != [] && !Less(old(lastKey), r.key) then Some(KeyOutOfOrder)
                     else if !Fits(r) then Some(KeyTooLarge) else None
      ensures Written() == if err.None? then old(Written()) + [r] else old(Written())
      ensures |file| + |current| <= |old(file)| + |old(current)| + |r.key| + |r.value| + 9
      ensures err.None? && old(Filled()) ==> Filled()
    {
      hide Filled;
      hide Data, Entries, IndexFor, EncodeBlock, EncodeEntry, Hashes, Bloom.AddAll, Bloom.AddSum, LayoutValid, Written;
      if lastKey != [] && !Less(lastKey, r.key) { return Some(KeyOutOfOrder); }
      ghost var before := Written();
      err := AddEntry(r);
      if err.None? {
        HashesSnoc(filter.fnv, before, r, empty);
        filter.Add(r.key);
      }
    }

    /** `Writer.Add` after the order check, without the filter. */
    method AddEntry(r: Record) returns (err: Option<WriteError>)
      requires LayoutValid() && |file| + |current| + |r.key| + |r.value| + 9 < TWO_63
      modifies this
      ensures LayoutValid() && err == if !Fits(r) then Some(KeyTooLarge) else None
      ensures Written() == if err.None? then old(Written()) + [r] else old(Written())
      ensures |file| + |current| <= |old(file)| + |old(current)| + |r.key| + |r.value| + 9
      ensures err.None? && old(Filled()) ==> Filled()
    {
      hide Data, Entries, IndexFor, EncodeBlock, EncodeEntry, Written;
      if cur == [] { EmptyEncoding(); } else { NonEmptyBlock(cur); }
      if Filled() { FilledAfter(blocks, cur, r, blockSize); }
      var entrySize := 4 + |r.key| + 4 + |r.value| + 1;
      if |current| + entrySize > blockSize && |current| > 0 { FlushBlock(); }
      if |r.key| > 0xffff_ffff || |r.value| > 0xffff_ffff { return Some(KeyTooLarge); }
      AppendEntry(r);
      assert cur == old(cur) + [r] || (cur == [r] && blocks == old(blocks) + [old(cur)]);
      return None;
    }

    /** `Block.Append` and the bookkeeping after it. */
    method AppendEntry(r: Record)
      requires LayoutValid() && Fits(r) && |file| + |current| + |r.key| + |r.value| + 9 < TWO_63
      requires |current| + |r.key| + |r.value| + 9 <= blockSize || |current| == 0
      modifies `current, `lastKey, `cur
      ensures LayoutValid() && Written() == old(Written()) + [r] && cur == old(cur) + [r]
      ensures |current| == |old(current)| + |r.key| + |r.value| + 9
    {
      hide Data, Entries, IndexFor, EncodeBlock, EncodeEntry;
      if |current| == 0 { EmptyBlock(cur); }
      EncodeBlockSnoc(cur, r);
      current := current + EncodeEntry(r);
      cur := cur + [r];
      lastKey := r.key;
      assert Written() == old(Written()) + [r];
    }

    /** `Writer.Close`: the finished file. */
    method Close() returns (out: Bytes)
      requires Valid()
      requires |file| + |current| + |EncodeIndex(IndexFor(if cur == [] then blocks else blocks + [cur]))| +
        |filter.bits[..]| + 56 < TWO_63
      modifies `file, `current, `index, `offset, `blocks, `cur
      ensures Valid() && Written() == old(Written()) && cur == []
      ensures TableSize(blocks, filter.Value()) < TWO_63 && out == TableFile(blocks, filter.Value())
      ensures old(Filled()) ==> AllFull(blocks, blockSize)
    {
      hide Data, Entries, IndexFor, EncodeBlock, EncodeIndex;
      ghost var final := if cur == [] then blocks else blocks + [cur];
      CloseBlock(final);
      var indexData := EncodeIndex(index);
      var indexOffset := offset;
      var bloomData := Bloom.Encode(filter.Value());
      var bloomOffset := indexOffset + |indexData|;
      var footer := Footer(indexOffset, |indexData|, bloomOffset, |bloomData|, VERSION, MAGIC);
      out := file + indexData + bloomData + EncodeFooter(footer);
    }

    method CloseBlock(ghost final: Blocks)
      requires Valid() && final == if cur == [] then blocks else blocks + [cur]
      modifies `file, `current, `index, `offset, `blocks, `cur
      ensures Valid() && Written() == old(Written()) && cur == [] && blocks == final &&
        |file| == |old(file)| + |old(current)|
    {
      hide Data, Entries, IndexFor, EncodeBlock;
      if cur == [] { EmptyEncoding(); } else { NonEmptyBlock(cur); }
      if |current| > 0 { FlushBlock(); }
    }
  }

  /** The next entry joins the current block, or starts a new one because the current one is full. */
  lemma FilledAfter(blocks: Blocks, cur: seq<Record>, r: Record, blockSize: int)
    requires (blocks == [] || cur != []) && AllFull(blocks + [cur], blockSize)
    ensures AllFull(blocks + [cur + [r]], blockSize)
    ensures cur != [] && |EncodeBlock(cur)| + |r.key| + |r.value| + 9 > blockSize ==>
      AllFull(blocks + [cur] + [[r]], blockSize)
  {
    hide EncodeBlock;
    var old', grown: Blocks := blocks + [cur], blocks + [cur + [r]];
    var cut: Blocks := blocks + [cur] + [[r]];
    forall i | 0 <= i < |grown| - 1 && grown[i + 1] != []
      ensures |EncodeBlock(grown[i])| + |grown[i + 1][0].key| + |grown[i + 1][0].value| + 9 > blockSize
    {
      assert grown[i] == old'[i] && grown[i + 1][0] == old'[i + 1][0];
    }
    if cur != [] && |EncodeBlock(cur)| + |r.key| + |r.value| + 9 > blockSize {
      forall i | 0 <= i < |cut| - 1 && cut[i + 1] != []
        ensures |EncodeBlock(cut[i])| + |cut[i + 1][0].key| + |cut[i + 1][0].value| + 9 > blockSize
      {
        if i + 1 < |old'| { assert cut[i] == old'[i] && cut[i + 1] == old'[i + 1]; }
      }
    }
  }

  lemma EmptyEncoding()
    ensures EncodeBlock([]) == []
  {
  }

  lemma EmptyBlock(es: seq<Record>)
    requires EncodeBlock(es) == []
    ensures es == []
  {
  }

  lemma NonEmptyBlock(es: seq<Record>)
    requires es != []
    ensures EncodeBlock(es) != []
  {
  }

  lemma HashesSnoc(fnv: Bytes -> uint64, es: seq<Record>, r: Record, empty: Bloom.Filter)
    requires Bloom.WellSized(empty)
    ensures Bloom.AddAll(empty, Hashes(fnv, es + [r])) == Bloom.AddSum(Bloom.AddAll(empty, Hashes(fnv, es)), fnv(r.key))
  {
    assert (es + [r])[..|es|] == es;
    assert Hashes(fnv, es + [r])[..|es|] == Hashes(fnv, es);
  }

  // ----- writing a whole listing ---------------------------------------------------------------------

  /** What the order check of Add lets through: a last key that is empty is not compared. */
  ghost predicate Accepted(es: seq<Record>) {
    forall i :: 0 < i < |es| && es[i - 1].key != [] ==> Less(es[i - 1].key, es[i].key)
  }

  lemma SortedIsAccepted(es: seq<Record>)
    requires Sorted(es)
    ensures Accepted(es)
  {
  }

  /** The check keeps out every unsorted listing except those that repeat the empty key at the front. */
  lemma {:induction false} AcceptedExactly(es: seq<Record>)
    requires Accepted(es)
    ensures Sorted(es) <==> |es| < 2 || es[1].key != []
  {
    if |es| >= 2 && es[1].key == [] {
      assert !Less(es[0].key, es[1].key);
    } else {
      forall i, j | 0 <= i < j < |es| ensures Less(es[i].key, es[j].key) { AcceptedAscends(es, i, j); }
    }
  }

  lemma {:induction false} AcceptedAscends(es: seq<Record>, i: nat, j: nat)
    requires Accepted(es) && i < j < |es| && es[1].key != []
    ensures es[j].key != [] && Less(es[i].key, es[j].key)
  {
    if j > 1 && i < j - 1 {
      AcceptedAscends(es, i, j - 1);
      LessTransitive(es[i].key, es[j - 1].key, es[j].key);
    } else if j > 1 {
      AcceptedAscends(es, 0, j - 1);
    }
  }

  lemma {:induction false} EncodeBlockGrows(es: seq<Record>, i: nat)
    requires i < |es|
    ensures |EncodeBlock(es[..i])| + |es[i].key| + |es[i].value| + 9 <= |EncodeBlock(es)|
  {
    assert es == es[..i] + ([es[i]] + es[i + 1..]);
    EncodeBlockAppend(es[..i], [es[i]] + es[i + 1..]);
    assert ([es[i]] + es[i + 1..])[1..] == es[i + 1..];
  }

  /** The index is at most three times the data, since a block holds at least its last key and nine bytes. */
  lemma {:induction false} IndexSmall(blocks: Blocks)
    requires NonEmptyBlocks(blocks) && |Data(blocks)| < TWO_63
    ensures |EncodeIndex(IndexFor(blocks))| <= 3 * |Data(blocks)|
  {
    if blocks != [] {
      var front, last := blocks[..|blocks| - 1], blocks[|blocks| - 1];
      IndexSmall(front);
      EncodeBlockGrows(last, |last| - 1);
      EncodeIndexSnoc(IndexFor(front), IndexEntry(LastKey(last), |Data(front)|, |EncodeBlock(last)|));
    }
  }

  datatype Written = File(bytes: Bytes) | Failed(error: WriteError)

  /** The loop of a flush or a merge: every entry through Add, then Close. */
  method WriteTable(es: seq<Record>, blockSize: int, fnv: Bytes -> uint64, k: nat, m: nat)
    returns (res: Written, ghost blocks: Blocks, ghost f: Bloom.Filter)
    requires blockSize > 0 && 1 <= k <= 30 && m > 0 && m % 8 == 0
    requires 4 * |EncodeBlock(es)| + m < TWO_63 - 64
    ensures res.File? <==> Accepted(es) && AllFit(es)
    ensures res.File? ==> Bloom.AsNew(f) && f.m == m && (forall e :: e in es ==> Bloom.Passes(f, fnv(e.key)))
    ensures res.File? ==> NonEmptyBlocks(blocks) && Entries(blocks) == es && AllFull(blocks, blockSize)
    ensures res.File? ==> forall i :: 0 <= i < |blocks| ==> CutAt(blocks[i], blockSize)
    ensures res.File? ==> |Data(blocks)| < TWO_63 && TableSize(blocks, f) < TWO_63 && res.bytes == TableFile(blocks, f)
  {
    hide Data, Entries, IndexFor, EncodeBlock, EncodeIndex, Hashes, Bloom.AddAll, CutAt, TableFile, AllFit, Accepted,
      AllFull;
    var w := new Writer(blockSize, fnv, k, m);
    EmptyEncoding();
    var err := AddEntries(w, es);
    if err.Some? { return Failed(err.value), [], w.empty; }
    WriterFits(w);
    var bytes := w.Close();
    blocks, f := w.blocks, w.filter.Value();
    HashesPass(w.empty, fnv, es);
    NothingLeft(w);
    return File(bytes), blocks, f;
  }

  /** The loop: every entry through Add, up to the first error. */
  method AddEntries(w: Writer, es: seq<Record>) returns (err: Option<WriteError>)
    requires w.Valid() && w.Written() == [] && w.file == [] && w.current == [] && |EncodeBlock(es)| < TWO_63
    requires w.Filled()
    modifies w, w.filter.bits
    ensures w.Valid() && (err.None? <==> Accepted(es) && AllFit(es))
    ensures err.None? ==> w.Written() == es && |w.file| + |w.current| <= |EncodeBlock(es)| && w.Filled()
  {
    hide Data, Entries, IndexFor, EncodeBlock, Hashes, Bloom.AddAll, CutAt, AllFit, Accepted;
    EmptyEncoding();
    NoneAccepted(es);
    for i := 0 to |es|
      invariant w.Valid() && w.Written() == es[..i] && |w.file| + |w.current| <= |EncodeBlock(es[..i])|
      invariant Accepted(es[..i]) && AllFit(es[..i]) && w.Filled()
    {
      EncodeBlockGrows(es, i);
      assert es[..i + 1] == es[..i] + [es[i]];
      EncodeBlockSnoc(es[..i], es[i]);
      AcceptedSnoc(es, i);
      err := w.Add(es[i]);
      if err.Some? { return; }
    }
    assert es[..|es|] == es;
    return None;
  }

  lemma NoneAccepted(es: seq<Record>)
    ensures Accepted(es[..0]) && AllFit(es[..0]) && es[..0] == []
  {
  }

  lemma NothingLeft(w: Writer)
    requires w.LayoutValid() && w.cur == []
    ensures Entries(w.blocks) == w.Written() && NonEmptyBlocks(w.blocks)
  {
  }

  lemma AcceptedSnoc(es: seq<Record>, i: nat)
    requires i < |es| && Accepted(es[..i]) && AllFit(es[..i])
    ensures (LastKey(es[..i]) == [] || Less(LastKey(es[..i]), es[i].key)) <==> Accepted(es[..i + 1])
    ensures Accepted(es) ==> Accepted(es[..i + 1])
    ensures AllFit(es[..i + 1]) <==> Fits(es[i])
    ensures AllFit(es) ==> Fits(es[i])
  {
  }

  lemma WriterFits(w: Writer)
    requires w.LayoutValid() && 4 * (|w.file| + |w.current|) + w.filter.bits.Length < TWO_63 - 56
    ensures var blocks := if w.cur == [] then w.blocks else w.blocks + [w.cur];
      |w.file| + |w.current| + |EncodeIndex(IndexFor(blocks))| + w.filter.bits.Length + 56 < TWO_63
  {
    SnocBlocks(w.blocks, w.cur);
    IndexSmall(if w.cur == [] then w.blocks else w.blocks + [w.cur]);
  }

  lemma HashesPass(empty: Bloom.Filter, fnv: Bytes -> uint64, es: seq<Record>)
    requires Bloom.WellSized(empty)
    ensures forall e :: e in es ==> Bloom.Passes(Bloom.AddAll(empty, Hashes(fnv, es)), fnv(e.key))
  {
    hide Bloom.AddAll, Bloom.Passes;
    forall e | e in es ensures Bloom.Passes(Bloom.AddAll(empty, Hashes(fnv, es)), fnv(e.key)) {
      var i :| 0 <= i < |es| && es[i] == e;
      assert Hashes(fnv, es)[i] == fnv(e.key);
      Bloom.AddedPass(empty, Hashes(fnv, es), fnv(e.key));
    }
  }
}

/** Walking a table in key order. */
module TableIterator {
  import opened ByteStrings
  import opened Records
  import opened TableFormat
  import opened TableLayout
  import opened TableReader
  import opened MergeIterators
  import TableWriter
  import BlockCache

  /** The entries from place `at` of block `bi` on; block -1 stands for the start. */
  ghost function Ahead(blocks: Blocks, bi: int, at: nat): seq<Record> {
    if bi < 0 then Entries(blocks)
    else if bi < |blocks| && at <= |blocks[bi]| then blocks[bi][at..] + Entries(blocks[bi + 1..])
    else []
  }

  lemma AheadNext(blocks: Blocks, bi: int, at: nat)
    requires 0 <= bi < |blocks| && at < |blocks[bi]|
    ensures Ahead(blocks, bi, at) == [blocks[bi][at]] + Ahead(blocks, bi, at + 1)
  {
    hide Entries;
    ShiftHead(blocks[bi], at, Entries(blocks[bi + 1..]));
  }

  lemma ShiftHead(b: seq<Record>, at: nat, rest: seq<Record>)
    requires at < |b|
    ensures b[at..] + rest == [b[at]] + (b[at + 1..] + rest)
  {
  }

  lemma HeadBlock(blocks: Blocks, i: nat)
    requires i < |blocks|
    ensures Entries(blocks[i..]) == blocks[i] + Entries(blocks[i + 1..])
  {
    hide Entries;
    var tail := blocks[i..];
    EntriesSplit(tail, 0);
    NoEntries();
    assert tail[..0] == [] && tail[1..] == blocks[i + 1..];
    assert [] + blocks[i] == blocks[i];
  }

  /** At the end of a block the walk goes on with the next one. */
  lemma AheadBlock(blocks: Blocks, bi: int, at: nat)
    requires -1 <= bi < |blocks| && (bi >= 0 ==> at == |blocks[bi]|)
    ensures Ahead(blocks, bi, at) == Ahead(blocks, bi + 1, 0)
  {
    hide Entries;
    var next := bi + 1;
    assert blocks[0..] == blocks;
    assert Ahead(blocks, bi, at) == Entries(blocks[next..]);
    if next < |blocks| {
      HeadBlock(blocks, next);
      assert blocks[next][0..] == blocks[next];
    } else {
      assert blocks[next..] == [];
      NoEntries();
    }
  }

  lemma NoEntries()
    ensures Entries([]) == []
  {
  }

  class Iterator {
    const table: OpenTable
    const id: uint64
    const cache: BlockCache.Shared?
    ghost const blocks: Blocks
    ghost const store: map<BlockCache.Key, Bytes>
    var blockIdx: int
    var blockIt: BlockIterator?
    var current: Record
    var valid: bool
    /** How many entries of the current block have been passed. */
    ghost var at: nat

    ghost predicate Backed()
      reads cache
    {
      && Holds(table, blocks) && InStore(table, id, blocks, store)
      && (cache != null ==> BlockCache.Agrees(cache.Value(), store))
    }

    ghost predicate Placed()
      reads this, blockIt
    {
      if blockIdx == -1 then blockIt == null
      else 0 <= blockIdx < |blocks| && blockIt != null && blockIt.At(blocks[blockIdx], at)
    }

    ghost predicate Valid()
      reads this, blockIt, cache
    {
      Backed() && (valid ==> blockIdx >= 0 && Placed())
    }

    /** What is still to be delivered, the current entry first. */
    ghost function Rest(): seq<Record>
      reads this
    {
      if valid then [current] + Ahead(blocks, blockIdx, at) else []
    }

    /** `NewIterator`. */
    constructor (table: OpenTable, id: uint64, cache: BlockCache.Shared?, ghost blocks: Blocks,
                 ghost store: map<BlockCache.Key, Bytes>)
      requires Holds(table, blocks) && InStore(table, id, blocks, store)
      requires cache != null ==> BlockCache.Agrees(cache.Value(), store)
      modifies cache
      ensures Valid() && Rest() == Entries(blocks) && this.blocks == blocks && this.cache == cache &&
        (blockIt == null || fresh(blockIt))
    {
      this.table, this.id, this.cache, this.blocks, this.store := table, id, cache, blocks, store;
      blockIdx, blockIt, current, valid, at := -1, null, Record([], [], false), false, 0;
      new;
      Advance();
    }

    /** `advance`: the next entry of this block, else the first of a later one. */
    method Advance()
      requires Backed() && Placed()
      modifies this, blockIt, cache
      ensures Valid() && Rest() == old(Ahead(blocks, blockIdx, at))
      ensures blockIt == null || blockIt == old(blockIt) || fresh(blockIt)
    {
      hide Ahead, InStore, Holds, BlockCache.Agrees, EncodeBlock, Entries, Data, IndexFor;
      while true
        invariant Backed() && Placed() && Ahead(blocks, blockIdx, at) == old(Ahead(blocks, blockIdx, at))
        invariant blockIt == old(blockIt) || fresh(blockIt)
        decreases |blocks| - blockIdx
      {
        if blockIt != null {
          HoldsBlock(table, blocks, blockIdx);
          var more := blockIt.NextEntry(blocks[blockIdx], at);
          if more {
            AheadNext(blocks, blockIdx, at);
            current, valid, at := blockIt.Current(), true, at + 1;
            return;
          }
        }
        AheadBlock(blocks, blockIdx, at);
        HoldsIndex(table, blocks);
        blockIdx := blockIdx + 1;
        if blockIdx >= |table.index| {
          valid := false;
          AheadEnd(blocks, blockIdx);
          return;
        }
        EnterBlock();
      }
    }

    method EnterBlock()
      requires Backed() && 0 <= blockIdx < |table.index|
      modifies `blockIt, `at, cache
      ensures Backed() && Placed() && at == 0 && fresh(blockIt)
    {
      hide InStore, BlockCache.Agrees, Entries, IndexFor, Data;
      var data := ReadIndexed(table, id, cache, blockIdx, blocks, store);
      blockIt := new BlockIterator(data);
      at := 0;
      StartOfBlock(blocks[blockIdx]);
    }

    /** `Iterator.Next`. */
    method Next()
      requires Valid()
      modifies this, blockIt, cache
      ensures Valid() && Rest() == if old(Rest()) == [] then [] else old(Rest())[1..]
      ensures blockIt == null || blockIt == old(blockIt) || fresh(blockIt)
    {
      hide Ahead, Backed;
      if !valid { return; }
      assert Rest()[1..] == Ahead(blocks, blockIdx, at);
      Advance();
    }

    /** `Iterator.Seek`: the first entry at or after the key. */
    method Seek(key: Bytes)
      requires Valid()
      modifies this, blockIt, cache
      ensures Valid() && Rest() == From(Entries(blocks), key)
      ensures blockIt == null || blockIt == old(blockIt) || fresh(blockIt)
    {
      hide Ahead, InStore, BlockCache.Agrees, Entries, IndexFor, Data;
      if |table.index| == 0 {
        valid := false;
        NoEntries();
        return;
      }
      if |key| == 0 {
        blockIdx, blockIt := -1, null;
        FromStart(blocks, at);
        Advance();
        return;
      }
      LastKeys(blocks);
      var idx := Search(table.index, key);
      FromLater(blocks, key, idx);
      valid := false;
      SeekIn(key, idx);
    }

    /** The loop over the blocks from the one found on. */
    method SeekIn(key: Bytes, idx: nat)
      requires Backed() && !valid && idx <= |blocks|
      modifies this, cache
      ensures Valid() && Rest() == From(Entries(blocks[idx..]), key)
      ensures blockIt == null || blockIt == old(blockIt) || fresh(blockIt)
    {
      hide InStore, BlockCache.Agrees, Entries, IndexFor, Data, Holds, From, Sorted, EncodeBlock, AllFit;
      HoldsIndex(table, blocks);
      for bi := idx to |table.index|
        invariant Backed() && !valid && blockIt == old(blockIt)
        invariant From(Entries(blocks[idx..]), key) == From(Entries(blocks[bi..]), key)
      {
        HoldsBlock(table, blocks, bi);
        var data := ReadIndexed(table, id, cache, bi, blocks, store);
        var it := new BlockIterator(data);
        var found, i := it.Seek(key, blocks[bi]);
        FromBlock(blocks, key, bi);
        if found {
          blockIdx, blockIt, current, valid, at := bi, it, it.Current(), true, i + 1;
          AheadNext(blocks, bi, i);
          return;
        }
      }
      FromEnd(blocks, key);
    }
  }

  lemma HoldsBlock(t: OpenTable, blocks: Blocks, i: int)
    requires Holds(t, blocks) && 0 <= i < |blocks|
    ensures Sorted(blocks[i]) && AllFit(blocks[i]) && blocks[i] != []
  {
    BlockFacts(blocks, i);
  }

  lemma HoldsIndex(t: OpenTable, blocks: Blocks)
    requires Holds(t, blocks)
    ensures |t.index| == |blocks|
  {
  }

  lemma AheadEnd(blocks: Blocks, bi: int)
    requires bi >= |blocks|
    ensures Ahead(blocks, bi, 0) == []
  {
  }

  lemma StartOfBlock(es: seq<Record>)
    ensures EncodeBlock(es[..0]) == []
  {
    assert es[..0] == [];
  }

  /** Nothing is below the empty key. */
  lemma FromStart(blocks: Blocks, at: nat)
    ensures From(Entries(blocks), []) == Ahead(blocks, -1, at)
  {
  }

  lemma {:induction false} FromAppend(a: seq<Record>, b: seq<Record>, key: Bytes)
    ensures From(a + b, key) == if From(a, key) != [] then From(a, key) + b else From(b, key)
  {
    if a == [] {
      assert a + b == b;
    } else {
      assert (a + b)[1..] == a[1..] + b;
      FromAppend(a[1..], b, key);
    }
  }

  lemma {:induction false} FromBelow(es: seq<Record>, key: Bytes)
    requires AllBelow(es, key)
    ensures From(es, key) == []
  {
    if es != [] {
      assert es[0] in es;
      FromBelow(es[1..], key);
    }
  }

  /** The blocks before the one that the index search selects hold nothing to seek. */
  lemma FromLater(blocks: Blocks, key: Bytes, i: nat)
    requires NonEmptyBlocks(blocks) && Sorted(Entries(blocks)) && IsSearchResult(blocks, key, i)
    ensures From(Entries(blocks), key) == From(Entries(blocks[i..]), key)
  {
    hide Entries;
    BelowLastKey(blocks, i, key);
    FromBelow(Entries(blocks[..i]), key);
    assert blocks == blocks[..i] + blocks[i..];
    EntriesAppend(blocks[..i], blocks[i..]);
    FromAppend(Entries(blocks[..i]), Entries(blocks[i..]), key);
  }

  lemma FromBlock(blocks: Blocks, key: Bytes, i: nat)
    requires i < |blocks|
    ensures From(Entries(blocks[i..]), key) ==
      if From(blocks[i], key) != [] then From(blocks[i], key) + Entries(blocks[i + 1..])
      else From(Entries(blocks[i + 1..]), key)
  {
    hide Entries;
    HeadBlock(blocks, i);
    FromAppend(blocks[i], Entries(blocks[i + 1..]), key);
  }

  lemma FromEnd(blocks: Blocks, key: Bytes)
    ensures From(Entries(blocks[|blocks|..]), key) == []
  {
    assert blocks[|blocks|..] == [];
  }
}

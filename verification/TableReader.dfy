/** Opening and reading a table. */
module TableReader {
  import opened ByteStrings
  import opened Records
  import opened TableFormat
  import opened TableLayout
  import opened MergeIterators
  import TableWriter
  import Bloom
  import BlockCache

  datatype OpenError = ShortFile | BadMagic | UnsupportedVersion | CorruptIndex | CorruptBloom | ReadFailed

  datatype OpenTable = OpenTable(file: Bytes, index: seq<IndexEntry>, filter: Option<Bloom.Filter>)

  datatype Opened = Ok(table: OpenTable) | Err(error: OpenError)

  /** The cast int64(x) of an unsigned 64-bit number. */
  function AsInt64(x: uint64): int {
    if x < TWO_63 then x else x - TWO_64
  }

  /** Unsigned 64-bit addition. */
  function Plus(x: uint64, y: uint64): uint64 {
    (x + y) % TWO_64
  }

  /** `OpenReader`. */
  function OpenReader(file: Bytes): Opened {
    if |file| < FOOTER_SIZE then Err(ShortFile)
    else
      var dataEnd := |file| - FOOTER_SIZE;
      var footer := DecodeFooter(file[dataEnd..]);
      if footer.magic != MAGIC then Err(BadMagic)
      else if footer.version != VERSION then Err(UnsupportedVersion)
      else OpenWith(file, footer, dataEnd)
  }

  /** The bounds checks against the footer, then index and filter. */
  function OpenWith(file: Bytes, f: Footer, dataEnd: nat): Opened {
    if AsInt64(f.indexOffset) < 0 || AsInt64(Plus(f.indexOffset, f.indexLength)) > dataEnd then Err(CorruptIndex)
    else if f.bloomLength > 0 && (AsInt64(f.bloomOffset) < 0 || AsInt64(Plus(f.bloomOffset, f.bloomLength)) > dataEnd)
      then Err(CorruptBloom)
    else if f.bloomLength > 0 && f.bloomOffset < Plus(f.indexOffset, f.indexLength) then Err(CorruptBloom)
    else if f.indexOffset + f.indexLength > |file| then Err(ReadFailed)
    else
      var index := DecodeIndex(file[f.indexOffset..f.indexOffset + f.indexLength]);
      if index.None? then Err(CorruptIndex)
      else if f.bloomLength == 0 then Ok(OpenTable(file, index.value, None))
      else if f.bloomOffset + f.bloomLength > |file| then Err(ReadFailed)
      else
        var filter := Bloom.Decode(file[f.bloomOffset..f.bloomOffset + f.bloomLength]);
        if filter.None? then Err(CorruptBloom) else Ok(OpenTable(file, index.value, filter))
  }

  /**
   * Of any file below two to the 63 bytes: it opens if and only if the twelve bytes before the last eight are version
   * two and the magic number, the index region lies before the footer and decodes, and the filter region, if there is
   * one, lies between index and footer and decodes. Magic and version have their own errors, in this order.
   */
  lemma OpensExactly(file: Bytes)
    requires |file| < TWO_63
    ensures |file| < 48 ==> OpenReader(file) == Err(ShortFile)
    ensures |file| >= 48 ==>
      var n := |file| - 48;
      var io, il := Uint64(file[n..n + 8]), Uint64(file[n + 8..n + 16]);
      var bo, bl := Uint64(file[n + 16..n + 24]), Uint64(file[n + 24..n + 32]);
      var version, magic := Uint32(file[n + 32..n + 36]), Uint32(file[n + 36..n + 40]);
      && (OpenReader(file) == Err(BadMagic) <==> magic != 0x88e241b3)
      && (OpenReader(file) == Err(UnsupportedVersion) <==> magic == 0x88e241b3 && version != 2)
      && (OpenReader(file).Ok? <==>
            && magic == 0x88e241b3 && version == 2 && io + il <= n && DecodeIndex(file[io..io + il]).Some?
            && (bl == 0 || (io + il <= bo && bo + bl <= n && Bloom.Decode(file[bo..bo + bl]).Some?)))
      && (OpenReader(file).Ok? ==>
            && OpenReader(file).table.file == file
            && Some(OpenReader(file).table.index) == DecodeIndex(file[io..io + il])
            && OpenReader(file).table.filter == if bl == 0 then None else Bloom.Decode(file[bo..bo + bl]))
  {
    hide Uint64, Uint32, DecodeIndex, Bloom.Decode;
    if |file| >= 48 { FooterAt(file); }
  }

  /** The fields of the footer by their place in the file. */
  lemma FooterAt(file: Bytes)
    requires |file| >= 48
    ensures var n := |file| - 48;
      DecodeFooter(file[n..]) == Footer(
        Uint64(file[n..n + 8]), Uint64(file[n + 8..n + 16]), Uint64(file[n + 16..n + 24]),
        Uint64(file[n + 24..n + 32]), Uint32(file[n + 32..n + 36]), Uint32(file[n + 36..n + 40]))
  {
    hide Uint64, Uint32;
    var n := |file| - 48;
    var d := file[n..];
    assert d[0..8] == file[n..n + 8] && d[8..16] == file[n + 8..n + 16] && d[16..24] == file[n + 16..n + 24];
    assert d[24..32] == file[n + 24..n + 32] && d[32..36] == file[n + 32..n + 36] && d[36..40] == file[n + 36..n + 40];
  }

  /** A finished table opens, with the index and the filter it was written with. */
  lemma OpensAsWritten(blocks: Blocks, f: Bloom.Filter)
    requires |Data(blocks)| < TWO_63 && TableWriter.TableSize(blocks, f) < TWO_63
    requires AllFit(Entries(blocks)) && NonEmptyBlocks(blocks) && Bloom.AsNew(f) && f.m < TWO_32
    ensures OpenReader(TableWriter.TableFile(blocks, f)) ==
      Ok(OpenTable(TableWriter.TableFile(blocks, f), IndexFor(blocks), Some(f)))
  {
    hide Data, IndexFor, EncodeIndex, EncodeFooter, DecodeFooter, DecodeIndex, Entries, OpenReader, Bloom.Encode,
      Bloom.Decode, Bloom.AsNew;
    IndexKeysFit(blocks);
    IndexRoundTrip(IndexFor(blocks));
    Bloom.EncodeExact(f);
    OpensRegions(Data(blocks), IndexFor(blocks), f);
  }

  lemma OpensRegions(data: Bytes, index: seq<IndexEntry>, f: Bloom.Filter)
    requires |data| + |EncodeIndex(index)| + |Bloom.Encode(f)| + FOOTER_SIZE < TWO_63
    requires DecodeIndex(EncodeIndex(index)) == Some(index) && Bloom.Decode(Bloom.Encode(f)) == Some(f)
    ensures var ix, bl := EncodeIndex(index), Bloom.Encode(f);
      var file := data + ix + bl + EncodeFooter(Footer(|data|, |ix|, |data| + |ix|, |bl|, VERSION, MAGIC));
      OpenReader(file) == Ok(OpenTable(file, index, Some(f)))
  {
    hide EncodeIndex, EncodeFooter, DecodeFooter, DecodeIndex, OpenWith, Bloom.Encode, Bloom.Decode;
    var ix, bl := EncodeIndex(index), Bloom.Encode(f);
    var footer := Footer(|data|, |ix|, |data| + |ix|, |bl|, VERSION, MAGIC);
    var file := data + ix + bl + EncodeFooter(footer);
    Regions(data, ix, bl, EncodeFooter(footer));
    FooterRoundTrip(footer);
    ChecksPass(file, footer);
  }

  /** The checks pass for a footer whose regions follow each other. */
  lemma ChecksPass(file: Bytes, f: Footer)
    requires f.indexOffset + f.indexLength == f.bloomOffset &&
      f.bloomOffset + f.bloomLength + FOOTER_SIZE == |file| < TWO_63 && f.bloomLength > 0
    ensures var index := DecodeIndex(file[f.indexOffset..f.bloomOffset]);
      var filter := Bloom.Decode(file[f.bloomOffset..f.bloomOffset + f.bloomLength]);
      index.Some? && filter.Some? ==>
        OpenWith(file, f, |file| - FOOTER_SIZE) == Ok(OpenTable(file, index.value, filter))
  {
    hide DecodeIndex, Bloom.Decode;
  }

  lemma Regions(data: Bytes, index: Bytes, bloom: Bytes, footer: Bytes)
    ensures var file := data + index + bloom + footer;
      && file[|file| - |footer|..] == footer
      && file[|data|..|data| + |index|] == index
      && file[|data| + |index|..|data| + |index| + |bloom|] == bloom
      && data <= file
  {
  }

  lemma IndexKeysFit(blocks: Blocks)
    requires |Data(blocks)| < TWO_63 && AllFit(Entries(blocks)) && NonEmptyBlocks(blocks)
    ensures forall i :: 0 <= i < |blocks| ==> |IndexFor(blocks)[i].lastKey| < TWO_32
  {
    hide Data, IndexFor, Entries;
    forall i | 0 <= i < |blocks| ensures |IndexFor(blocks)[i].lastKey| < TWO_32 {
      BlockAt(blocks, i);
      EntriesSplit(blocks, i);
      var pre, b := Entries(blocks[..i]), blocks[i];
      assert Entries(blocks)[|pre| + |b| - 1] == b[|b| - 1];
    }
  }

  // ----- what an open table holds ------------------------------------------------------------------

  ghost predicate Holds(t: OpenTable, blocks: Blocks) {
    && |Data(blocks)| < TWO_63 && t.index == IndexFor(blocks) && Data(blocks) <= t.file
    && NonEmptyBlocks(blocks) && AllFit(Entries(blocks)) && Sorted(Entries(blocks))
  }

  /** The filter has no false negatives for these entries. */
  ghost predicate FilterCovers(t: OpenTable, fnv: Bytes -> uint64, es: seq<Record>) {
    t.filter.Some? ==> Bloom.WellSized(t.filter.value) && forall e :: e in es ==>
      Bloom.Passes(t.filter.value, fnv(e.key))
  }

  /** The files behind the shared cache hold the blocks of this table. */
  ghost predicate InStore(t: OpenTable, id: uint64, blocks: Blocks, store: map<BlockCache.Key, Bytes>)
    requires Holds(t, blocks)
  {
    forall i :: 0 <= i < |blocks| ==>
      BlockCache.Key(id, t.index[i].offset) in store &&
        store[BlockCache.Key(id, t.index[i].offset)] == EncodeBlock(blocks[i])
  }

  lemma LastKeys(blocks: Blocks)
    requires |Data(blocks)| < TWO_63 && NonEmptyBlocks(blocks) && Sorted(Entries(blocks))
    ensures forall i :: 0 <= i < |blocks| ==> IndexFor(blocks)[i].lastKey == LastKey(blocks[i])
    ensures forall i, j :: 0 <= i < j < |blocks| ==> Less(IndexFor(blocks)[i].lastKey, IndexFor(blocks)[j].lastKey)
  {
    hide Data, IndexFor, Entries, LastKey;
    forall i | 0 <= i < |blocks| ensures IndexFor(blocks)[i].lastKey == LastKey(blocks[i]) { BlockAt(blocks, i); }
    forall i, j | 0 <= i < j < |blocks| ensures Less(LastKey(blocks[i]), LastKey(blocks[j])) {
      LastKeysAscend(blocks, i, j);
    }
  }

  /** `sort.Search` over the index: the first entry whose last key is not below the key. */
  method Search(index: seq<IndexEntry>, key: Bytes) returns (i: nat)
    requires forall i, j :: 0 <= i < j < |index| ==> Less(index[i].lastKey, index[j].lastKey)
    ensures i <= |index| && (forall j :: 0 <= j < i ==> Less(index[j].lastKey, key))
    ensures i < |index| ==> !Less(index[i].lastKey, key)
  {
    i := 0;
    var j := |index|;
    while i < j
      invariant i <= j <= |index|
      invariant forall l :: 0 <= l < i ==> Less(index[l].lastKey, key)
      invariant j < |index| ==> !Less(index[j].lastKey, key)
    {
      var h := (i + j) / 2;
      if Less(index[h].lastKey, key) {
        forall l | 0 <= l < h ensures Less(index[l].lastKey, key) {
          LessTransitive(index[l].lastKey, index[h].lastKey, key);
        }
        i := h + 1;
      } else {
        j := h;
      }
    }
  }

  /** `readBlock`: from the cache even when the file is closed, else from the open file and into the cache. */
  method ReadBlock(t: OpenTable, id: uint64, cache: BlockCache.Shared?, closed: bool, offset: uint64, length: uint64,
                   ghost store: map<BlockCache.Key, Bytes>)
    returns (r: Option<Bytes>)
    requires cache != null ==> BlockCache.Agrees(cache.Value(), store)
    requires BlockCache.Key(id, offset) in store && offset + length <= |t.file| ==>
               store[BlockCache.Key(id, offset)] == t.file[offset..offset + length]
    requires cache != null ==> BlockCache.Key(id, offset) in store
    modifies cache
    ensures cache != null ==> BlockCache.Agrees(cache.Value(), store)
    ensures !closed && offset + length <= |t.file| ==> r == Some(t.file[offset..offset + length])
    ensures cache == null && (closed || offset + length > |t.file|) ==> r == None
    ensures closed && offset + length <= |t.file| ==>
      r == if cache != null && old(BlockCache.Get(cache.Value(), BlockCache.Key(id, offset))).1.Some?
           then Some(t.file[offset..offset + length]) else None
  {
    hide BlockCache.Get, BlockCache.Add;
    var key := BlockCache.Key(id, offset);
    if cache != null {
      BlockCache.GetAgrees(cache.Value(), key, store);
      var hit := cache.GetBlock(key);
      if hit.Some? { return hit; }
    }
    if closed { return None; }
    if offset + length > |t.file| { return None; }
    var block := t.file[offset..offset + length];
    if cache != null {
      BlockCache.AddAgrees(cache.Value(), key, block, store);
      cache.AddBlock(key, block);
    }
    return Some(block);
  }

  /** Reading block i through the index. */
  method ReadIndexed(t: OpenTable, id: uint64, cache: BlockCache.Shared?, i: nat, ghost blocks: Blocks,
                     ghost store: map<BlockCache.Key, Bytes>)
    returns (block: Bytes)
    requires Holds(t, blocks) && InStore(t, id, blocks, store) && i < |t.index|
    requires cache != null ==> BlockCache.Agrees(cache.Value(), store)
    modifies cache
    ensures cache != null ==> BlockCache.Agrees(cache.Value(), store)
    ensures i < |blocks| && block == EncodeBlock(blocks[i])
  {
    hide Data, IndexFor, Entries, EncodeBlock, BlockCache.Agrees;
    BlockAt(blocks, i);
    var e := t.index[i];
    assert t.file[e.offset..e.offset + e.length] == Data(blocks)[e.offset..e.offset + e.length];
    var r := ReadBlock(t, id, cache, false, e.offset, e.length, store);
    return r.value;
  }

  // ----- entries of a block --------------------------------------------------------------------------

  class BlockIterator {
    const data: Bytes
    var pos: nat
    var key: Bytes
    var val: Bytes
    var tombstone: bool

    constructor (data: Bytes)
      ensures this.data == data && pos == 0
    {
      this.data, pos, key, val, tombstone := data, 0, [], [], false;
    }

    function Current(): Record
      reads this
    {
      Record(key, val, tombstone)
    }

    /** Standing before entry i of the block. */
    ghost predicate At(es: seq<Record>, i: nat)
      reads this
    {
      data == EncodeBlock(es) && i <= |es| && pos == |EncodeBlock(es[..i])|
    }

    /** `BlockIterator.Next`. */
    method Next() returns (ok: bool)
      requires pos <= |data|
      modifies this
      ensures old(pos) <= pos <= |data|
      ensures var r := ReadEntry(data[old(pos)..]);
        ok == r.Entry? && (ok ==> pos == old(pos) + r.size && Current() == r.record)
    {
      ghost var rest := data[pos..];
      if pos + 4 > |data| { return false; }
      var keyLen := Uint32(data[pos..pos + 4]);
      assert data[pos..pos + 4] == rest[..4];
      pos := pos + 4;
      if pos + keyLen > |data| { return false; }
      key := data[pos..pos + keyLen];
      assert key == rest[4..keyLen + 4];
      pos := pos + keyLen;
      ghost var tail := rest[keyLen + 4..];
      assert tail == data[pos..];
      ok := NextValue();
    }

    /** The value and the tombstone byte of the entry. */
    method NextValue() returns (ok: bool)
      requires pos <= |data|
      modifies `pos, `val, `tombstone
      ensures old(pos) <= pos <= |data|
      ensures var r := ReadEntryValue(key, data[old(pos)..]);
        ok == r.Entry? && (ok ==> pos + |key| + 4 == old(pos) + r.size && Current() == r.record)
    {
      ghost var rest := data[pos..];
      if pos + 4 > |data| { return false; }
      var valLen := Uint32(data[pos..pos + 4]);
      assert data[pos..pos + 4] == rest[..4];
      pos := pos + 4;
      if pos + valLen > |data| { return false; }
      val := data[pos..pos + valLen];
      assert val == rest[4..valLen + 4];
      pos := pos + valLen;
      if pos >= |data| { return false; }
      var tombByte := data[pos];
      assert tombByte == rest[valLen + 4];
      pos := pos + 1;
      tombstone := tombByte == 1;
      return true;
    }

    /** Next over an encoded block: entry i, or the end. */
    method NextEntry(ghost es: seq<Record>, ghost i: nat) returns (ok: bool)
      requires AllFit(es) && At(es, i)
      modifies this
      ensures ok == (i < |es|)
      ensures ok ==> At(es, i + 1) && Current() == es[i]
    {
      hide EncodeBlock, ReadEntry;
      EntryAt(es, i);
      ok := Next();
    }

    /** `BlockIterator.Seek`. */
    method Seek(target: Bytes, ghost es: seq<Record>) returns (ok: bool, ghost i: nat)
      requires AllFit(es) && data == EncodeBlock(es)
      modifies this
      ensures ok == (From(es, target) != [])
      ensures ok ==> i < |es| && From(es, target) == es[i..] && Current() == es[i] && At(es, i + 1)
    {
      hide EncodeBlock;
      pos, key, val, tombstone := 0, [], [], false;
      i := 0;
      assert EncodeBlock(es[..0]) == [] by { TableWriter.EmptyEncoding(); assert es[..0] == []; }
      assert es[0..] == es;
      while true
        invariant At(es, i) && From(es, target) == From(es[i..], target)
        decreases |es| - i
      {
        ok := NextEntry(es, i);
        if !ok { break; }
        if !Less(key, target) { return true, i; }
        assert es[i..][1..] == es[i + 1..];
        i := i + 1;
      }
      key, val := [], [];
    }
  }

  lemma EntryAt(es: seq<Record>, i: nat)
    requires AllFit(es) && i <= |es|
    ensures |EncodeBlock(es[..i])| <= |EncodeBlock(es)|
    ensures var rest := EncodeBlock(es)[|EncodeBlock(es[..i])|..];
      ReadEntry(rest) == if i < |es| then Entry(es[i], |EncodeEntry(es[i])|) else NoEntry
    ensures i < |es| ==> |EncodeBlock(es[..i + 1])| == |EncodeBlock(es[..i])| + |EncodeEntry(es[i])|
  {
    hide EncodeEntry;
    assert es == es[..i] + es[i..];
    EncodeBlockAppend(es[..i], es[i..]);
    if i < |es| {
      ReadBack(es[i], EncodeBlock(es[i..][1..]));
      assert es[..i + 1] == es[..i] + [es[i]];
      EncodeBlockSnoc(es[..i], es[i]);
    } else {
      assert es[i..] == [];
    }
  }

  /** The scan of one block in `Reader.Get`. */
  method FindInBlockData(block: Bytes, key: Bytes, ghost es: seq<Record>) returns (r: Option<Record>)
    requires AllFit(es) && Sorted(es) && block == EncodeBlock(es)
    ensures r == Find(es, key)
  {
    hide EncodeBlock;
    var it := new BlockIterator(block);
    ghost var i := 0;
    assert EncodeBlock(es[..0]) == [] by { TableWriter.EmptyEncoding(); assert es[..0] == []; }
    assert es[0..] == es;
    while true
      invariant fresh(it) && it.At(es, i) && Find(es, key) == Find(es[i..], key)
      decreases |es| - i
    {
      var ok := it.NextEntry(es, i);
      if !ok { break; }
      if key == it.key { return Some(it.Current()); }
      if Less(key, it.key) {
        NothingBelowFirst(es, i, key);
        break;
      }
      assert es[i..][1..] == es[i + 1..];
      i := i + 1;
    }
    return None;
  }

  lemma NothingBelowFirst(es: seq<Record>, i: nat, key: Bytes)
    requires Sorted(es) && i < |es| && Less(key, es[i].key)
    ensures Find(es[i..], key).None?
  {
    forall e | e in es[i..] ensures Less(key, e.key) {
      var j :| i <= j < |es| && es[j] == e;
      if j > i { LessTransitive(key, es[i].key, es[j].key); }
    }
    NotFoundBelow(es[i..], key);
  }

  /** `Reader.Get`: what the entries say, whatever the filter and the cache do. */
  method Get(t: OpenTable, id: uint64, cache: BlockCache.Shared?, fnv: Bytes -> uint64, key: Bytes,
             ghost blocks: Blocks, ghost store: map<BlockCache.Key, Bytes>)
    returns (r: Option<Record>)
    requires Holds(t, blocks) && FilterCovers(t, fnv, Entries(blocks)) && InStore(t, id, blocks, store)
    requires cache != null ==> BlockCache.Agrees(cache.Value(), store)
    modifies cache
    ensures cache != null ==> BlockCache.Agrees(cache.Value(), store)
    ensures r == Find(Entries(blocks), key)
  {
    hide Data, IndexFor, Entries, EncodeBlock, BlockCache.Agrees, InStore;
    if t.filter.Some? {
      var may := Bloom.MayContain(t.filter.value, fnv, key);
      if !may {
        FindNone(Entries(blocks), key);
        return None;
      }
    }
    LastKeys(blocks);
    var idx := Search(t.index, key);
    assert IsSearchResult(blocks, key, idx);
    FindInBlock(blocks, key, idx);
    if idx == |t.index| { return None; }
    var block := ReadIndexed(t, id, cache, idx, blocks, store);
    BlockFacts(blocks, idx);
    r := FindInBlockData(block, key, blocks[idx]);
  }

  lemma BlockFacts(blocks: Blocks, i: nat)
    requires i < |blocks| && Sorted(Entries(blocks)) && AllFit(Entries(blocks))
    ensures Sorted(blocks[i]) && AllFit(blocks[i])
  {
    hide Entries;
    EntriesSplit(blocks, i);
    MiddleFacts(Entries(blocks[..i]), blocks[i], Entries(blocks[i + 1..]));
  }

  lemma MiddleFacts(a: seq<Record>, b: seq<Record>, c: seq<Record>)
    requires Sorted(a + b + c) && AllFit(a + b + c)
    ensures Sorted(b) && AllFit(b)
  {
    var all := a + b + c;
    assert forall j :: 0 <= j < |b| ==> all[|a| + j] == b[j];
    forall j | 0 <= j < |b| ensures Fits(b[j]) { assert Fits(all[|a| + j]); }
    forall i, j | 0 <= i < j < |b| ensures Less(b[i].key, b[j].key) { assert Less(all[|a| + i].key, all[|a| + j].key); }
  }
}

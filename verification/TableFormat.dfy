/** The SSTable file format: blocks, index, footer. */
module TableFormat {
  import opened ByteStrings
  import opened Records

  // ----- entries and blocks ----------------------------------------------------------------------

  function EncodeEntry(r: Record): (s: Bytes)
    ensures |s| == |r.key| + |r.value| + 9
  {
    Field(r.key) + Field(r.value) + [if r.tombstone then 1 else 0]
  }

  /** Lengths fit their 32-bit fields, as `Block.Append` demands. */
  predicate Fits(r: Record) {
    |r.key| < TWO_32 && |r.value| < TWO_32
  }

  ghost predicate AllFit(es: seq<Record>) {
    forall i :: 0 <= i < |es| ==> Fits(es[i])
  }

  function EncodeBlock(es: seq<Record>): Bytes {
    if es == [] then [] else EncodeEntry(es[0]) + EncodeBlock(es[1..])
  }

  lemma {:induction false} EncodeBlockAppend(a: seq<Record>, b: seq<Record>)
    ensures EncodeBlock(a + b) == EncodeBlock(a) + EncodeBlock(b)
  {
    hide EncodeEntry;
    if a == [] {
      assert a + b == b;
    } else {
      assert (a + b)[1..] == a[1..] + b;
      EncodeBlockAppend(a[1..], b);
    }
  }

  lemma EncodeBlockSnoc(es: seq<Record>, r: Record)
    ensures EncodeBlock(es + [r]) == EncodeBlock(es) + EncodeEntry(r)
  {
    EncodeBlockAppend(es, [r]);
    assert [r][1..] == [];
    assert EncodeBlock([r]) == EncodeEntry(r) + [];
  }

  datatype EntryRead = Entry(record: Record, size: nat) | NoEntry

  /** `BlockIterator.Next` on the bytes from its position on. */
  function ReadEntry(d: Bytes): (r: EntryRead)
    ensures r.Entry? ==> 9 <= r.size <= |d|
  {
    if |d| < 4 then NoEntry
    else
      var k := Uint32(d[..4]);
      if |d| < k + 4 then NoEntry else ReadEntryValue(d[4..k + 4], d[k + 4..])
  }

  function ReadEntryValue(key: Bytes, d: Bytes): (r: EntryRead)
    ensures r.Entry? ==> |key| + 9 <= r.size <= |key| + 4 + |d|
  {
    if |d| < 4 then NoEntry
    else
      var v := Uint32(d[..4]);
      if |d| < v + 5 then NoEntry else Entry(Record(key, d[4..v + 4], d[v + 4] == 1), |key| + v + 9)
  }

  /** Key, value, flag: any bytes of this form are an entry, deleting exactly if the flag is one; a strict prefix of
      them is none. */
  lemma ReadRaw(key: Bytes, value: Bytes, flag: byte, rest: Bytes)
    requires |key| < TWO_32 && |value| < TWO_32
    ensures ReadEntry(Field(key) + (Field(value) + ([flag] + rest))) ==
      Entry(Record(key, value, flag == 1), |key| + |value| + 9)
  {
    var tail := Field(value) + ([flag] + rest);
    FieldSlices(key, tail);
    FieldSlices(value, [flag] + rest);
    assert tail[|value| + 4] == tail[|value| + 4..][0];
  }

  lemma ReadShort(key: Bytes, value: Bytes, n: nat)
    requires |key| < TWO_32 && |value| < TWO_32 && n < |key| + |value| + 9
    ensures ReadEntry((Field(key) + (Field(value) + [0]))[..n]) == NoEntry
  {
    hide Field;
    var tail := Field(value) + [0];
    var w, k := Field(key) + tail, |key|;
    FieldSlices(key, tail);
    FieldSlices(value, [0]);
    if n >= 4 {
      assert w[..n][..4] == w[..4];
      if n >= k + 4 {
        assert w[..n][k + 4..] == tail[..n - k - 4];
        if n >= k + 8 { assert tail[..n - k - 4][..4] == tail[..4]; }
      }
    }
  }

  lemma ReadBack(r: Record, rest: Bytes)
    requires Fits(r)
    ensures ReadEntry(EncodeEntry(r) + rest) == Entry(r, |EncodeEntry(r)|)
  {
    hide ReadEntry, Field;
    var flag: byte := if r.tombstone then 1 else 0;
    ReadRaw(r.key, r.value, flag, rest);
    assert EncodeEntry(r) + rest == Field(r.key) + (Field(r.value) + ([flag] + rest));
  }

  // ----- index -------------------------------------------------------------------------------------

  datatype IndexEntry = IndexEntry(lastKey: Bytes, offset: uint64, length: uint64)

  function EncodeIndexEntry(e: IndexEntry): (s: Bytes)
    ensures |s| == |e.lastKey| + 20
  {
    Field(e.lastKey) + (PutUint64(e.offset) + PutUint64(e.length))
  }

  function EncodeIndex(es: seq<IndexEntry>): Bytes {
    if es == [] then [] else EncodeIndexEntry(es[0]) + EncodeIndex(es[1..])
  }

  lemma {:induction false} EncodeIndexSnoc(es: seq<IndexEntry>, e: IndexEntry)
    ensures EncodeIndex(es + [e]) == EncodeIndex(es) + EncodeIndexEntry(e)
  {
    hide EncodeIndexEntry;
    if es == [] {
      assert es + [e] == [e] && [e][1..] == [];
    } else {
      assert (es + [e])[1..] == es[1..] + [e];
      EncodeIndexSnoc(es[1..], e);
    }
  }

  datatype IndexRead = IndexRead(entry: IndexEntry, size: nat) | CorruptEntry

  function ReadIndexEntry(d: Bytes): (r: IndexRead)
    ensures r.IndexRead? ==> 20 <= r.size <= |d|
  {
    if |d| < 4 then CorruptEntry
    else
      var k := Uint32(d[..4]);
      if |d| < k + 20 then CorruptEntry
      else
        var tail := d[k + 4..];
        IndexRead(IndexEntry(d[4..k + 4], Uint64(tail[..8]), Uint64(tail[8..16])), k + 20)
  }

  /** `decodeIndex`; None is ErrCorruptIndex. */
  function DecodeIndex(d: Bytes): Option<seq<IndexEntry>>
    decreases |d|
  {
    if d == [] then Some([])
    else
      match ReadIndexEntry(d)
      case CorruptEntry => None
      case IndexRead(e, n) =>
        match DecodeIndex(d[n..]) case None => None case Some(es) => Some([e] + es)
  }

  /** Last key, offset, length: any bytes of this form are an index entry. */
  lemma ReadIndexRaw(key: Bytes, offset: uint64, length: uint64, rest: Bytes)
    requires |key| < TWO_32
    ensures ReadIndexEntry(Field(key) + (PutUint64(offset) + PutUint64(length) + rest)) ==
      IndexRead(IndexEntry(key, offset, length), |key| + 20)
  {
    var a, b := PutUint64(offset), PutUint64(length);
    var tail := a + b + rest;
    FieldSlices(key, tail);
    assert tail[..8] == a && tail[8..16] == b;
    Uint64RoundTrip(offset, []);
    Uint64RoundTrip(length, []);
  }

  lemma ReadIndexBack(e: IndexEntry, rest: Bytes)
    requires |e.lastKey| < TWO_32
    ensures ReadIndexEntry(EncodeIndexEntry(e) + rest) == IndexRead(e, |EncodeIndexEntry(e)|)
  {
    hide ReadIndexEntry, PutUint64, Field;
    ReadIndexRaw(e.lastKey, e.offset, e.length, rest);
    assert EncodeIndexEntry(e) + rest == Field(e.lastKey) + (PutUint64(e.offset) + PutUint64(e.length) + rest);
  }

  /** A strict prefix of an index entry makes the index corrupt, whatever stands before it. */
  lemma {:induction false} CutIndexIsCorrupt(es: seq<IndexEntry>, e: IndexEntry, n: nat)
    requires (forall i :: 0 <= i < |es| ==> |es[i].lastKey| < TWO_32) && |e.lastKey| < TWO_32
    requires 0 < n < |EncodeIndexEntry(e)|
    ensures DecodeIndex(EncodeIndex(es) + EncodeIndexEntry(e)[..n]) == None
  {
    hide DecodeIndex, EncodeIndexEntry;
    var cut := EncodeIndexEntry(e)[..n];
    if es == [] {
      CutAlone(e, n);
      assert EncodeIndex(es) + cut == cut;
    } else {
      CutIndexIsCorrupt(es[1..], e, n);
      IndexHead(es[0], EncodeIndex(es[1..]) + cut);
      assert EncodeIndex(es) + cut == EncodeIndexEntry(es[0]) + (EncodeIndex(es[1..]) + cut);
    }
  }

  lemma CutAlone(e: IndexEntry, n: nat)
    requires |e.lastKey| < TWO_32 && 0 < n < |EncodeIndexEntry(e)|
    ensures DecodeIndex(EncodeIndexEntry(e)[..n]) == None
  {
    hide ReadIndexEntry, EncodeIndexEntry;
    CutEntry(e, n);
  }

  lemma CutEntry(e: IndexEntry, n: nat)
    requires |e.lastKey| < TWO_32 && n < |EncodeIndexEntry(e)|
    ensures ReadIndexEntry(EncodeIndexEntry(e)[..n]) == CorruptEntry
  {
    hide PutUint64, Field;
    var d, tail := EncodeIndexEntry(e), PutUint64(e.offset) + PutUint64(e.length);
    FieldSlices(e.lastKey, tail);
    if n >= 4 { assert d[..n][..4] == d[..4]; }
  }

  lemma {:induction false} IndexRoundTrip(es: seq<IndexEntry>)
    requires forall i :: 0 <= i < |es| ==> |es[i].lastKey| < TWO_32
    ensures DecodeIndex(EncodeIndex(es)) == Some(es)
  {
    assert DecodeIndex([]) == Some([]);
    if es != [] {
      hide DecodeIndex, EncodeIndexEntry;
      IndexRoundTrip(es[1..]);
      IndexHead(es[0], EncodeIndex(es[1..]));
      assert es == [es[0]] + es[1..];
    }
  }

  lemma IndexHead(e: IndexEntry, rest: Bytes)
    requires |e.lastKey| < TWO_32
    ensures DecodeIndex(EncodeIndexEntry(e) + rest) ==
      match DecodeIndex(rest) case None => None case Some(es) => Some([e] + es)
  {
    hide ReadIndexEntry, EncodeIndexEntry;
    ReadIndexBack(e, rest);
    assert (EncodeIndexEntry(e) + rest)[|EncodeIndexEntry(e)|..] == rest;
  }

  /** The loop of `decodeIndex`. */
  method DecodeIndexBytes(d: Bytes) returns (res: Option<seq<IndexEntry>>)
    ensures res == DecodeIndex(d)
  {
    hide ReadIndexEntry;
    var es, pos := [], 0;
    assert d[0..] == d;
    while pos < |d|
      invariant pos <= |d|
      invariant DecodeIndex(d).None? <==> DecodeIndex(d[pos..]).None?
      invariant DecodeIndex(d).Some? ==> DecodeIndex(d).value == es + DecodeIndex(d[pos..]).value
    {
      var r := ReadIndexEntry(d[pos..]);
      if r.CorruptEntry? { return None; }
      assert d[pos..][r.size..] == d[pos + r.size..];
      es, pos := es + [r.entry], pos + r.size;
    }
    assert d[pos..] == [] && es + [] == es;
    return Some(es);
  }

  // ----- footer ------------------------------------------------------------------------------------------

  const FOOTER_SIZE := 48
  const MAGIC: uint32 := 0x88e241b3
  const VERSION: uint32 := 2

  datatype Footer = Footer(indexOffset: uint64, indexLength: uint64, bloomOffset: uint64, bloomLength: uint64,
                           version: uint32, magic: uint32)

  function EncodeFooter(f: Footer): (s: Bytes)
    ensures |s| == FOOTER_SIZE
  {
    PutUint64(f.indexOffset) + PutUint64(f.indexLength) + (PutUint64(f.bloomOffset) + PutUint64(f.bloomLength))
    + (PutUint32(f.version) + PutUint32(f.magic) + [0, 0, 0, 0, 0, 0, 0, 0])
  }

  function DecodeFooter(d: Bytes): Footer
    requires |d| >= FOOTER_SIZE
  {
    Footer(Uint64(d[0..8]), Uint64(d[8..16]), Uint64(d[16..24]), Uint64(d[24..32]), Uint32(d[32..36]),
      Uint32(d[36..40]))
  }

  lemma FooterRoundTrip(f: Footer)
    ensures DecodeFooter(EncodeFooter(f)) == f
  {
    FooterSlices(f);
    Uint64RoundTrip(f.indexOffset, []);
    Uint64RoundTrip(f.indexLength, []);
    Uint64RoundTrip(f.bloomOffset, []);
    Uint64RoundTrip(f.bloomLength, []);
    Uint32RoundTrip(f.version, []);
    Uint32RoundTrip(f.magic, []);
  }

  lemma FooterSlices(f: Footer)
    ensures var d := EncodeFooter(f);
      && d[0..8] == PutUint64(f.indexOffset) && d[8..16] == PutUint64(f.indexLength)
      && d[16..24] == PutUint64(f.bloomOffset) && d[24..32] == PutUint64(f.bloomLength)
      && d[32..36] == PutUint32(f.version) && d[36..40] == PutUint32(f.magic) && d[40..] == [0, 0, 0, 0, 0, 0, 0, 0]
  {
    hide PutUint64, PutUint32;
    var a := PutUint64(f.indexOffset) + PutUint64(f.indexLength);
    var b := PutUint64(f.bloomOffset) + PutUint64(f.bloomLength);
    var c := PutUint32(f.version) + PutUint32(f.magic) + [0, 0, 0, 0, 0, 0, 0, 0];
    var d := EncodeFooter(f);
    assert d == a + b + c;
    assert d[..16] == a && d[16..32] == b && d[32..] == c;
    assert d[0..8] == a[0..8] && d[8..16] == a[8..16];
    assert d[16..24] == b[0..8] && d[24..32] == b[8..16];
    assert d[32..36] == c[0..4] && d[36..40] == c[4..8] && d[40..] == c[8..];
  }
}

/** The manifest: edit codec, replay with tail salvage, and rotation under crashes. */
module Manifest {
  import opened ByteStrings
  import opened Records

  // ----- edits -----------------------------------------------------------------------

  datatype Edit = NewFile(id: uint64) | DeleteFile(id: uint64) | SetFileSet(ids: seq<uint64>)

  function EncodeIds(ids: seq<uint64>): (s: Bytes)
    ensures |s| == 8 * |ids|
  {
    if ids == [] then [] else PutUint64(ids[0]) + EncodeIds(ids[1..])
  }

  function Payload(e: Edit): (s: Bytes)
    ensures |s| >= 1
  {
    match e
    case NewFile(id) => [0x01] + PutUint64(id)
    case DeleteFile(id) => [0x02] + PutUint64(id)
    case SetFileSet(ids) => [0x03] + PutUint32(|ids| % TWO_32) + EncodeIds(ids)
  }

  /** The record length fits its 32-bit field. */
  predicate Fits(e: Edit) {
    |Payload(e)| + 4 < TWO_32
  }

  /** The meaning of an edit. */
  function Apply(live: set<uint64>, e: Edit): set<uint64> {
    match e
    case NewFile(id) => live + {id}
    case DeleteFile(id) => live - {id}
    case SetFileSet(ids) => set id | id in ids
  }

  function ApplyAll(live: set<uint64>, es: seq<Edit>): set<uint64>
    decreases |es|
  {
    if es == [] then live else ApplyAll(Apply(live, es[0]), es[1..])
  }

  lemma {:induction false} ApplyAllSnoc(live: set<uint64>, es: seq<Edit>, e: Edit)
    ensures ApplyAll(live, es + [e]) == Apply(ApplyAll(live, es), e)
    decreases |es|
  {
    if es == [] {
      assert es + [e] == [e] && [e][1..] == [];
    } else {
      assert (es + [e])[1..] == es[1..] + [e];
      ApplyAllSnoc(Apply(live, es[0]), es[1..], e);
    }
  }

  /** The ids stored one after the other in d. */
  function IdsIn(d: Bytes, count: nat): seq<uint64>
    requires |d| >= 8 * count
  {
    if count == 0 then [] else [Uint64(d[..8])] + IdsIn(d[8..], count - 1)
  }

  /** `applyEdit` on raw payload bytes; None is an error. */
  function ApplyEdit(live: set<uint64>, p: Bytes): Option<set<uint64>> {
    if |p| < 1 then None
    else if p[0] == 0x01 then if |p| < 9 then None else Some(live + {Uint64(p[1..9])})
    else if p[0] == 0x02 then if |p| < 9 then None else Some(live - {Uint64(p[1..9])})
    else if p[0] == 0x03 then
      if |p| < 5 then None
      else
        var count := Uint32(p[1..5]);
        if |p| < 5 + 8 * count then None else Some(set id | id in IdsIn(p[5..], count))
    else None
  }

  lemma {:induction false} IdsRoundTrip(ids: seq<uint64>)
    ensures IdsIn(EncodeIds(ids), |ids|) == ids
  {
    if ids != [] {
      var d := EncodeIds(ids);
      assert d[..8] == PutUint64(ids[0]) && d[8..] == EncodeIds(ids[1..]);
      Uint64RoundTrip(ids[0], []);
      IdsRoundTrip(ids[1..]);
    }
  }

  /** Decoding an encoded edit performs it. */
  lemma ApplyEncoded(live: set<uint64>, e: Edit)
    requires Fits(e)
    ensures ApplyEdit(live, Payload(e)) == Some(Apply(live, e))
  {
    var p := Payload(e);
    match e
    case SetFileSet(ids) => ApplySetFileSet(live, ids);
    case NewFile(id) => TaggedId(p, 0x01, id);
    case DeleteFile(id) => TaggedId(p, 0x02, id);
  }

  lemma TaggedId(p: Bytes, tag: byte, id: uint64)
    requires p == [tag] + PutUint64(id)
    ensures |p| == 9 && p[0] == tag && Uint64(p[1..9]) == id
  {
    assert p[1..9] == PutUint64(id);
    Uint64RoundTrip(id, []);
  }

  lemma ApplySetFileSet(live: set<uint64>, ids: seq<uint64>)
    requires Fits(SetFileSet(ids))
    ensures ApplyEdit(live, Payload(SetFileSet(ids))) == Some(Apply(live, SetFileSet(ids)))
  {
    var p := Payload(SetFileSet(ids));
    assert |ids| % TWO_32 == |ids|;
    assert p[0] == 0x03 && p[1..5] == PutUint32(|ids|) && p[5..] == EncodeIds(ids);
    Uint32RoundTrip(|ids|, []);
    IdsRoundTrip(ids);
    assert (set id | id in IdsIn(p[5..], |ids|)) == Apply(live, SetFileSet(ids));
  }

  // ----- records ---------------------------------------------------------------------

  type Checksum = Bytes -> uint32

  /** `encodeRecord`: length of checksum and payload, checksum, payload. */
  function Frame(crc: Checksum, p: Bytes): (s: Bytes)
    ensures |s| == |p| + 8
  {
    PutUint32((|p| + 4) % TWO_32) + (PutUint32(crc(p)) + p)
  }

  function EncodeEdits(crc: Checksum, es: seq<Edit>): Bytes {
    if es == [] then [] else Frame(crc, Payload(es[0])) + EncodeEdits(crc, es[1..])
  }

  lemma {:induction false} EncodeEditsSnoc(crc: Checksum, es: seq<Edit>, e: Edit)
    ensures EncodeEdits(crc, es + [e]) == EncodeEdits(crc, es) + Frame(crc, Payload(e))
  {
    hide Frame;
    if es == [] {
      assert es + [e] == [e] && [e][1..] == [];
    } else {
      assert (es + [e])[1..] == es[1..] + [e];
      EncodeEditsSnoc(crc, es[1..], e);
    }
  }

  datatype ReadResult = Got(payload: Bytes, size: nat) | EndOfFile | Torn

  /** One turn of the replay loop: header, rest, decodeRecord. */
  function ReadFrame(crc: Checksum, d: Bytes): (r: ReadResult)
    ensures r.Got? ==> 8 <= r.size <= |d|
  {
    if d == [] then EndOfFile
    else if |d| < 4 then Torn
    else
      var n := Uint32(d[..4]);
      if n < 4 || |d| < n + 4 then Torn
      else
        var rest := d[4..n + 4];
        if crc(rest[4..]) != Uint32(rest[..4]) then Torn else Got(rest[4..], n + 4)
  }

  /** The bytes of any frame, also one with a wrong checksum. */
  function RawFrame(p: Bytes, sum: uint32): (d: Bytes)
    ensures |d| == |p| + 8
  {
    PutUint32((|p| + 4) % TWO_32) + (PutUint32(sum) + p)
  }

  /** Any frame, whatever follows: its payload if the checksum is right, else a torn tail. */
  lemma ReadRaw(crc: Checksum, p: Bytes, sum: uint32, rest: Bytes)
    requires |p| + 4 < TWO_32
    ensures ReadFrame(crc, RawFrame(p, sum) + rest) == if crc(p) == sum then Got(p, |p| + 8) else Torn
  {
    var d, n := RawFrame(p, sum) + rest, |p| + 4;
    assert d[..4] == PutUint32(n);
    Uint32RoundTrip(n, []);
    assert d[4..n + 4] == PutUint32(sum) + p;
    assert (PutUint32(sum) + p)[..4] == PutUint32(sum) && (PutUint32(sum) + p)[4..] == p;
    Uint32RoundTrip(sum, []);
  }

  lemma ReadBack(crc: Checksum, p: Bytes, rest: Bytes)
    requires |p| + 4 < TWO_32
    ensures ReadFrame(crc, Frame(crc, p) + rest) == Got(p, |p| + 8)
  {
    ReadRaw(crc, p, crc(p), rest);
  }

  /** A length below four, or one that reaches past the end, is a torn tail. */
  lemma ReadShort(crc: Checksum, n: uint32, rest: Bytes)
    requires n < 4 || |rest| < n
    ensures ReadFrame(crc, PutUint32(n) + rest) == Torn
  {
    assert (PutUint32(n) + rest)[..4] == PutUint32(n);
    Uint32RoundTrip(n, []);
  }

  lemma ReadTorn(crc: Checksum, p: Bytes, n: nat)
    requires |p| + 4 < TWO_32 && n < |Frame(crc, p)|
    ensures ReadFrame(crc, Frame(crc, p)[..n]) == if n == 0 then EndOfFile else Torn
  {
    FrameLength(crc, p);
    hide Frame, PutUint32, Uint32;
    var d := Frame(crc, p);
    if n >= 4 { assert d[..n][..4] == d[..4]; }
  }

  lemma FrameLength(crc: Checksum, p: Bytes)
    requires |p| + 4 < TWO_32
    ensures Uint32(Frame(crc, p)[..4]) == |p| + 4
  {
    hide PutUint32, Uint32;
    assert Frame(crc, p)[..4] == PutUint32(|p| + 4);
    Uint32RoundTrip(|p| + 4, []);
  }

  // ----- replay ------------------------------------------------------------------------

  /** `failed` means a record with a good checksum held a bad edit, which fails the open. */
  datatype Replayed = Replayed(live: set<uint64>, records: nat, valid: nat, failed: bool)

  function Replay(crc: Checksum, live: set<uint64>, d: Bytes): (r: Replayed)
    ensures r.valid <= |d|
    decreases |d|
  {
    match ReadFrame(crc, d)
    case Got(p, n) =>
      (match ApplyEdit(live, p)
       case None => Replayed(live, 0, 0, true)
       case Some(next) =>
         var r := Replay(crc, next, d[n..]);
         Replayed(r.live, r.records + 1, n + r.valid, r.failed))
    case _ => Replayed(live, 0, 0, false)
  }

  ghost predicate AllFit(es: seq<Edit>) {
    forall i :: 0 <= i < |es| ==> Fits(es[i])
  }

  lemma ReplayEdit(crc: Checksum, live: set<uint64>, e: Edit, d: Bytes)
    requires Fits(e)
    ensures var r := Replay(crc, Apply(live, e), d);
      Replay(crc, live, Frame(crc, Payload(e)) + d) ==
        Replayed(r.live, r.records + 1, |Frame(crc, Payload(e))| + r.valid, r.failed)
  {
    hide ReadFrame, ApplyEdit, Frame, Apply;
    ReadBack(crc, Payload(e), d);
    ApplyEncoded(live, e);
    assert (Frame(crc, Payload(e)) + d)[|Frame(crc, Payload(e))|..] == d;
  }

  lemma {:induction false} ReplayAfter(crc: Checksum, live: set<uint64>, es: seq<Edit>, d: Bytes)
    requires AllFit(es)
    ensures var r := Replay(crc, ApplyAll(live, es), d);
      Replay(crc, live, EncodeEdits(crc, es) + d) ==
        Replayed(r.live, |es| + r.records, |EncodeEdits(crc, es)| + r.valid, r.failed)
    decreases |es|
  {
    hide Replay, Frame, Apply, Payload;
    if es == [] {
      assert EncodeEdits(crc, es) + d == d;
    } else {
      assert EncodeEdits(crc, es) + d == Frame(crc, Payload(es[0])) + (EncodeEdits(crc, es[1..]) + d);
      ReplayEdit(crc, live, es[0], EncodeEdits(crc, es[1..]) + d);
      ReplayAfter(crc, Apply(live, es[0]), es[1..], d);
    }
  }

  /** Any appended edits, then any strict prefix of one more: replay gives the set held before that edit. */
  lemma ReplayOfTornManifest(crc: Checksum, es: seq<Edit>, next: Edit, n: nat)
    requires AllFit(es) && n < |Frame(crc, Payload(next))| && (n > 0 ==> Fits(next))
    ensures Replay(crc, {}, EncodeEdits(crc, es) + Frame(crc, Payload(next))[..n])
         == Replayed(ApplyAll({}, es), |es|, |EncodeEdits(crc, es)|, false)
  {
    if n > 0 { ReadTorn(crc, Payload(next), n); }
    ReplayAfter(crc, {}, es, Frame(crc, Payload(next))[..n]);
  }

  /** A frame with a wrong checksum, or whose length cannot be, ends the replay at the boundary before it, without an
      error and whatever follows. */
  lemma CorruptionDropsSuffix(crc: Checksum, es: seq<Edit>, p: Bytes, sum: uint32, n: uint32, after: Bytes)
    requires AllFit(es)
    ensures |p| + 4 < TWO_32 && sum != crc(p) ==>
      Replay(crc, {}, EncodeEdits(crc, es) + (RawFrame(p, sum) + after))
        == Replayed(ApplyAll({}, es), |es|, |EncodeEdits(crc, es)|, false)
    ensures n < 4 || |after| < n ==>
      Replay(crc, {}, EncodeEdits(crc, es) + (PutUint32(n) + after))
        == Replayed(ApplyAll({}, es), |es|, |EncodeEdits(crc, es)|, false)
  {
    hide ReadFrame, RawFrame, PutUint32, ApplyAll, EncodeEdits;
    if |p| + 4 < TWO_32 && sum != crc(p) {
      ReadRaw(crc, p, sum, after);
      ReplayAfter(crc, {}, es, RawFrame(p, sum) + after);
    }
    if n < 4 || |after| < n {
      ReadShort(crc, n, after);
      ReplayAfter(crc, {}, es, PutUint32(n) + after);
    }
  }

  /** The payload is no edit: empty, of another kind, or shorter than its kind asks for. */
  ghost predicate NoEdit(p: Bytes) {
    || p == [] || p[0] == 0 || p[0] > 3
    || ((p[0] == 1 || p[0] == 2) && |p| < 9)
    || (p[0] == 3 && (|p| < 5 || |p| < 5 + 8 * Uint32(p[1..5])))
  }

  /** A frame with a right checksum around something that is no edit fails the replay, and only that does. */
  lemma BadEditFails(crc: Checksum, es: seq<Edit>, p: Bytes, after: Bytes)
    requires AllFit(es) && |p| + 4 < TWO_32
    ensures NoEdit(p) <==> ApplyEdit(ApplyAll({}, es), p).None?
    ensures NoEdit(p) ==>
      Replay(crc, {}, EncodeEdits(crc, es) + (RawFrame(p, crc(p)) + after))
        == Replayed(ApplyAll({}, es), |es|, |EncodeEdits(crc, es)|, true)
  {
    hide ReadFrame, RawFrame, ApplyAll, EncodeEdits, IdsIn;
    ReadRaw(crc, p, crc(p), after);
    ReplayAfter(crc, {}, es, RawFrame(p, crc(p)) + after);
  }

  /** The bytes of each edit, and what a decoder makes of them; extra bytes do not matter. */
  lemma EditBytes(live: set<uint64>, id: uint64, other: uint64, extra: Bytes)
    ensures ApplyEdit(live, [1] + PutUint64(id) + extra) == Some(live + {id})
    ensures ApplyEdit(live, [2] + PutUint64(id) + extra) == Some(live - {id})
    ensures ApplyEdit(live, [3] + PutUint32(2) + (PutUint64(id) + PutUint64(other)) + extra) == Some({id, other})
    ensures Payload(NewFile(id)) == [1] + PutUint64(id)
    ensures Payload(SetFileSet([id, other])) == [3] + PutUint32(2) + (PutUint64(id) + PutUint64(other))
  {
    hide PutUint64, PutUint32, Uint64, Uint32;
    Uint64RoundTrip(id, []);
    Uint64RoundTrip(other, []);
    var one, two := [1] + PutUint64(id) + extra, [2] + PutUint64(id) + extra;
    assert one[1..9] == PutUint64(id) && two[1..9] == PutUint64(id);
    TwoIds(live, id, other, extra);
  }

  lemma TwoIds(live: set<uint64>, id: uint64, other: uint64, extra: Bytes)
    ensures ApplyEdit(live, [3] + PutUint32(2) + (PutUint64(id) + PutUint64(other)) + extra) == Some({id, other})
    ensures Payload(SetFileSet([id, other])) == [3] + PutUint32(2) + (PutUint64(id) + PutUint64(other))
  {
    hide PutUint64, PutUint32, Uint64, Uint32;
    var ids := [id, other];
    assert ids[1..] == [other] && [other][1..] == [];
    assert EncodeIds([other]) == PutUint64(other) + [] == PutUint64(other);
    assert EncodeIds(ids) == PutUint64(id) + PutUint64(other);
    var p := [3] + PutUint32(2) + (PutUint64(id) + PutUint64(other)) + extra;
    assert p[1..5] == PutUint32(2);
    Uint32RoundTrip(2, []);
    var d := p[5..];
    assert d == PutUint64(id) + (PutUint64(other) + extra);
    assert d[..8] == PutUint64(id) && d[8..][..8] == PutUint64(other);
    Uint64RoundTrip(id, []);
    Uint64RoundTrip(other, []);
    assert IdsIn(d[8..], 1) == [other] + IdsIn(d[8..][8..], 0) == [other];
    assert IdsIn(d, 2) == [id, other];
    assert p[0] == 3 && |p| >= 21 && Uint32(p[1..5]) == 2;
    assert ApplyEdit(live, p).Some? && ApplyEdit(live, p).value == {id, other};
  }

  /** The replay loop, moving a file position and changing the live set edit by edit. */
  method ReplayLog(crc: Checksum, file: Bytes) returns (res: Replayed)
    ensures res == Replay(crc, {}, file)
  {
    hide ReadFrame, ApplyEdit;
    var live, records, pos := {}, 0, 0;
    ghost var whole := Replay(crc, {}, file);
    while true
      invariant pos <= |file|
      invariant var rest := Replay(crc, live, file[pos..]);
        whole == Replayed(rest.live, records + rest.records, pos + rest.valid, rest.failed)
      decreases |file| - pos
    {
      var next := ReadFrame(crc, file[pos..]);
      if !next.Got? { return Replayed(live, records, pos, false); }
      var applied := ApplyEdit(live, next.payload);
      if applied.None? { return Replayed(live, records, pos, true); }
      assert file[pos..][next.size..] == file[pos + next.size..];
      live, records, pos := applied.value, records + 1, pos + next.size;
    }
  }
}

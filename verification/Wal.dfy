/** The write-ahead log: record codec, replay with torn-tail recovery, head truncation. */
module Wal {
  import opened ByteStrings
  import opened Records

  datatype Error = WalTooLarge | KeyTooLarge | ValueTooLarge | RecordTooLarge

  datatype Limits = Limits(maxFileSize: int, maxKeySize: uint32, maxValueSize: uint32, maxRecordSize: uint32)

  const DEFAULT_LIMITS := Limits(0x400_0000, 0x10_0000, 0x100_0000, 0x110_0000)
  const RECORD_HEADER_SIZE := 13

  function ValidateRecord(l: Limits, keyLen: uint32, valueLen: uint32): Option<Error> {
    if keyLen > l.maxKeySize then Some(KeyTooLarge)
    else if valueLen > l.maxValueSize then Some(ValueTooLarge)
    else if RECORD_HEADER_SIZE + keyLen as int + valueLen as int > l.maxRecordSize then Some(RecordTooLarge)
    else None
  }

  /** A log format: any checksum function, and the size limits in force. */
  datatype Format = Format(crc: Bytes -> uint32, limits: Limits)

  datatype Encoded = Encoded(bytes: Bytes) | Rejected(error: Error)

  /** The bytes the checksum covers. */
  function Body(r: Record): (s: Bytes)
    ensures |s| == |r.key| + |r.value| + 9
  {
    Field(r.key) + Field(r.value) + [if r.tombstone then 1 else 0]
  }

  function Wire(f: Format, r: Record): Bytes {
    Body(r) + PutUint32(f.crc(Body(r)))
  }

  function EncodeRecord(f: Format, r: Record): Encoded {
    match ValidateRecord(f.limits, |r.key| % TWO_32, |r.value| % TWO_32)
    case Some(e) => Rejected(e)
    case None => Encoded(Wire(f, r))
  }

  /** Lengths within the limits; thirteen bytes of a record are not key or value. */
  predicate InLimits(l: Limits, keyLen: int, valueLen: int) {
    keyLen <= l.maxKeySize && valueLen <= l.maxValueSize && 13 + keyLen + valueLen <= l.maxRecordSize
  }

  /** The record is within the limits, measured by its real lengths. */
  predicate Fits(f: Format, r: Record) {
    InLimits(f.limits, |r.key|, |r.value|)
  }

  /** What a caller may store under the default limits: a megabyte of key, sixteen of value, seventeen together. */
  lemma FitsByDefault(crc: Bytes -> uint32, r: Record)
    ensures Fits(Format(crc, DEFAULT_LIMITS), r) <==>
      |r.key| <= 1_048_576 && |r.value| <= 16_777_216 && |r.key| + |r.value| <= 17_825_779
    ensures DEFAULT_LIMITS.maxFileSize == 67_108_864
  {
  }

  /** The lengths that `encodeRecord` checks: narrowed to 32 bits. */
  predicate Accepted(l: Limits, r: Record) {
    InLimits(l, |r.key| % TWO_32, |r.value| % TWO_32)
  }

  /** The error of a record that is not accepted: its key is tried first, then its value, then their sum. */
  ghost predicate RejectedWith(l: Limits, r: Record, e: Error) {
    var k, v := |r.key| % TWO_32, |r.value| % TWO_32;
    && (e == KeyTooLarge <==> k > l.maxKeySize)
    && (e == ValueTooLarge <==> k <= l.maxKeySize && v > l.maxValueSize)
    && (e == RecordTooLarge <==> k <= l.maxKeySize && v <= l.maxValueSize && 13 + k + v > l.maxRecordSize)
    && e != WalTooLarge
  }

  /** A record is encoded exactly if its narrowed lengths are within the limits. */
  lemma EncodedExactly(f: Format, r: Record)
    ensures EncodeRecord(f, r).Encoded? <==> Accepted(f.limits, r)
    ensures EncodeRecord(f, r).Encoded? ==> EncodeRecord(f, r).bytes == Wire(f, r)
    ensures EncodeRecord(f, r).Rejected? ==> RejectedWith(f.limits, r, EncodeRecord(f, r).error)
  {
  }

  ghost predicate AllFit(f: Format, rs: seq<Record>) {
    forall i :: 0 <= i < |rs| ==> Fits(f, rs[i])
  }

  function EncodeAll(f: Format, rs: seq<Record>): Bytes {
    if rs == [] then [] else Wire(f, rs[0]) + EncodeAll(f, rs[1..])
  }

  lemma {:induction false} EncodeAllAppend(f: Format, a: seq<Record>, b: seq<Record>)
    ensures EncodeAll(f, a + b) == EncodeAll(f, a) + EncodeAll(f, b)
  {
    if a == [] {
      assert a + b == b;
    } else {
      assert (a + b)[1..] == a[1..] + b;
      EncodeAllAppend(f, a[1..], b);
    }
  }

  lemma EncodeAllSnoc(f: Format, rs: seq<Record>, r: Record)
    ensures EncodeAll(f, rs + [r]) == EncodeAll(f, rs) + Wire(f, r)
  {
    EncodeAllAppend(f, rs, [r]);
    assert [r][1..] == [];
    assert EncodeAll(f, [r]) == Wire(f, r) + [];
  }

  // ----- reading one record ------------------------------------------------

  datatype ReadResult = Got(record: Record, size: nat) | EndOfFile | Torn | Failed(error: Error)

  /** `readOneRecord` on the bytes from the current position to the end of the file. */
  function ReadOne(f: Format, d: Bytes): (res: ReadResult)
    ensures res.Got? ==> 13 <= res.size <= |d|
  {
    if d == [] then EndOfFile
    else if |d| < 4 then Torn
    else
      var k := Uint32(d[..4]);
      if k > f.limits.maxKeySize then Failed(KeyTooLarge)
      else if |d| < k + 4 then Torn
      else ReadValue(f, d[4..k + 4], d[k + 4..])
  }

  /** The rest of a record whose key has been read. */
  function ReadValue(f: Format, key: Bytes, d: Bytes): (res: ReadResult)
    requires |key| <= f.limits.maxKeySize
    ensures res.Got? ==> 13 <= res.size <= |key| + 4 + |d|
  {
    if |d| < 4 then Torn
    else
      var v := Uint32(d[..4]);
      if v > f.limits.maxValueSize then Failed(ValueTooLarge)
      else
        match ValidateRecord(f.limits, |key|, v)
        case Some(e) => Failed(e)
        case None =>
          if |d| < v + 9 then Torn
          else
            var value, tomb := d[4..v + 4], d[v + 4];
            if f.crc(Field(key) + Field(value) + [tomb]) != Uint32(d[v + 5..v + 9]) then Torn
            else Got(Record(key, value, tomb == 1), |key| + v + 13)
  }

  /** The bytes of any frame: also one with another flag byte or a wrong checksum. */
  function RawFrame(key: Bytes, value: Bytes, flag: byte, sum: uint32): (d: Bytes)
    ensures |d| == |key| + |value| + 13
  {
    Field(key) + (Field(value) + ([flag] + PutUint32(sum)))
  }

  /** Any frame within the limits, whatever follows: a record if the checksum is right, deleting exactly if the flag is
      one; else a torn one. */
  lemma ReadRaw(f: Format, key: Bytes, value: Bytes, flag: byte, sum: uint32, rest: Bytes)
    requires InLimits(f.limits, |key|, |value|)
    ensures ReadOne(f, RawFrame(key, value, flag, sum) + rest) ==
      if f.crc(Field(key) + Field(value) + [flag]) == sum then Got(Record(key, value, flag == 1), |key| + |value| + 13)
      else Torn
  {
    var tail := Field(value) + ([flag] + PutUint32(sum) + rest);
    assert RawFrame(key, value, flag, sum) + rest == Field(key) + tail;
    FieldSlices(key, tail);
    ReadRawValue(f, key, value, flag, sum, rest);
  }

  lemma ReadRawValue(f: Format, key: Bytes, value: Bytes, flag: byte, sum: uint32, rest: Bytes)
    requires InLimits(f.limits, |key|, |value|)
    ensures ReadValue(f, key, Field(value) + ([flag] + PutUint32(sum) + rest)) ==
      if f.crc(Field(key) + Field(value) + [flag]) == sum then Got(Record(key, value, flag == 1), |key| + |value| + 13)
      else Torn
  {
    var d, v := Field(value) + ([flag] + PutUint32(sum) + rest), |value|;
    FieldSlices(value, [flag] + PutUint32(sum) + rest);
    assert d[v + 4..] == [flag] + PutUint32(sum) + rest;
    assert d[v + 4] == d[v + 4..][0] == flag;
    assert d[v + 5..v + 9] == d[v + 4..][1..5] == PutUint32(sum);
    Uint32RoundTrip(sum, []);
  }

  /** A strict prefix of any frame within the limits is torn, or nothing. */
  lemma ReadRawTorn(f: Format, key: Bytes, value: Bytes, flag: byte, sum: uint32, n: nat)
    requires InLimits(f.limits, |key|, |value|) && n < |key| + |value| + 13
    ensures ReadOne(f, RawFrame(key, value, flag, sum)[..n]) == if n == 0 then EndOfFile else Torn
  {
    var tail := Field(value) + ([flag] + PutUint32(sum));
    var w := RawFrame(key, value, flag, sum);
    var d, k := w[..n], |key|;
    FieldSlices(key, tail);
    if n >= 4 {
      assert d[..4] == w[..4];
      if n >= k + 4 {
        Prefix(w, n, k + 4);
        FieldSlices(value, [flag] + PutUint32(sum));
        if n - k - 4 >= 4 { assert tail[..n - k - 4][..4] == tail[..4]; }
      }
    }
  }

  /** The error for a length over its limit. */
  function LengthError(l: Limits, keyLen: uint32, valueLen: uint32): Error {
    if keyLen > l.maxKeySize then KeyTooLarge else if valueLen > l.maxValueSize then ValueTooLarge else RecordTooLarge
  }

  /** A key length over the limit is an error at once; a value length, or their sum, once the key is there. */
  lemma ReadOverlong(f: Format, keyLen: uint32, valueLen: uint32, key: Bytes, rest: Bytes)
    requires !InLimits(f.limits, keyLen, valueLen) && (keyLen <= f.limits.maxKeySize ==> |key| == keyLen)
    ensures var tail := if keyLen > f.limits.maxKeySize then rest else key + (PutUint32(valueLen) + rest);
      ReadOne(f, PutUint32(keyLen) + tail) == Failed(LengthError(f.limits, keyLen, valueLen))
  {
    var tail := if keyLen > f.limits.maxKeySize then rest else key + (PutUint32(valueLen) + rest);
    var d := PutUint32(keyLen) + tail;
    assert d[..4] == PutUint32(keyLen);
    Uint32RoundTrip(keyLen, []);
    if keyLen <= f.limits.maxKeySize {
      assert d[4..keyLen + 4] == key;
      assert d[keyLen + 4..] == PutUint32(valueLen) + rest;
      assert d[keyLen + 4..][..4] == PutUint32(valueLen);
      Uint32RoundTrip(valueLen, []);
    }
  }

  /** A stored frame reads back as its record exactly when the stored checksum is right. */
  lemma ReadFrame(f: Format, r: Record, sum: uint32, rest: Bytes)
    requires Fits(f, r)
    ensures ReadOne(f, Body(r) + PutUint32(sum) + rest)
         == if f.crc(Body(r)) == sum then Got(r, |Body(r)| + 4) else Torn
  {
    var flag: byte := if r.tombstone then 1 else 0;
    ReadRaw(f, r.key, r.value, flag, sum, rest);
    assert Body(r) + PutUint32(sum) == RawFrame(r.key, r.value, flag, sum);
  }

  /** Reading looks only at the bytes of the record it returns. */
  lemma ReadOnePrefix(f: Format, d: Bytes, m: nat)
    requires ReadOne(f, d).Got? && ReadOne(f, d).size <= m <= |d|
    ensures ReadOne(f, d[..m]) == ReadOne(f, d)
  {
    var e := d[..m];
    assert e[..4] == d[..4];
    var k := Uint32(d[..4]);
    assert e[4..k + 4] == d[4..k + 4];
    assert e[k + 4..] == d[k + 4..][..m - k - 4];
    ReadValuePrefix(f, d[4..k + 4], d[k + 4..], m - k - 4);
  }

  lemma ReadValuePrefix(f: Format, key: Bytes, d: Bytes, m: nat)
    requires |key| <= f.limits.maxKeySize
    requires ReadValue(f, key, d).Got? && ReadValue(f, key, d).size <= |key| + 4 + m <= |key| + 4 + |d|
    ensures ReadValue(f, key, d[..m]) == ReadValue(f, key, d)
  {
    var e := d[..m];
    assert e[..4] == d[..4];
    var v := Uint32(d[..4]);
    assert e[4..v + 4] == d[4..v + 4];
    assert e[v + 5..v + 9] == d[v + 5..v + 9];
  }

  /** A crash in the middle of a record leaves a tail that reads as torn, never as an error or a record. */
  lemma ReadTorn(f: Format, r: Record, n: nat)
    requires Fits(f, r) && n < |Wire(f, r)|
    ensures ReadOne(f, Wire(f, r)[..n]) == if n == 0 then EndOfFile else Torn
  {
    var flag: byte := if r.tombstone then 1 else 0;
    ReadRawTorn(f, r.key, r.value, flag, f.crc(Body(r)), n);
    assert Wire(f, r) == RawFrame(r.key, r.value, flag, f.crc(Body(r)));
  }

  lemma Prefix(w: Bytes, n: nat, from: nat)
    requires from <= n <= |w|
    ensures w[..n][from..] == w[from..][..n - from]
  {
  }

  // ----- replay ------------------------------------------------------------

  datatype ScanEnd = Clean | TornTail | ScanFailed(error: Error)

  datatype Scanned = Scanned(records: seq<Record>, valid: nat, end: ScanEnd)

  /** All records readable in order, how many bytes they span, and why reading stopped. */
  function Scan(f: Format, d: Bytes): (s: Scanned)
    ensures s.valid <= |d|
    decreases |d|
  {
    match ReadOne(f, d)
    case EndOfFile => Scanned([], 0, Clean)
    case Torn => Scanned([], 0, TornTail)
    case Failed(e) => Scanned([], 0, ScanFailed(e))
    case Got(r, n) =>
      var rest := Scan(f, d[n..]);
      Scanned([r] + rest.records, n + rest.valid, rest.end)
  }

  lemma ScanRecord(f: Format, r: Record, d: Bytes)
    requires Fits(f, r)
    ensures var s := Scan(f, d); Scan(f, Wire(f, r) + d) == Scanned([r] + s.records, |Wire(f, r)| + s.valid, s.end)
  {
    ReadFrame(f, r, f.crc(Body(r)), d);
    assert (Wire(f, r) + d)[|Wire(f, r)|..] == d;
  }

  /** Records written before some bytes are scanned before them. */
  lemma {:induction false} ScanAfter(f: Format, rs: seq<Record>, d: Bytes)
    requires AllFit(f, rs)
    ensures var s := Scan(f, d);
      Scan(f, EncodeAll(f, rs) + d) == Scanned(rs + s.records, |EncodeAll(f, rs)| + s.valid, s.end)
  {
    hide Scan, Wire;
    var s := Scan(f, d);
    if rs == [] {
      assert EncodeAll(f, rs) + d == d;
      assert rs + s.records == s.records;
    } else {
      var rest := EncodeAll(f, rs[1..]);
      assert EncodeAll(f, rs) + d == Wire(f, rs[0]) + (rest + d);
      ScanRecord(f, rs[0], rest + d);
      ScanAfter(f, rs[1..], d);
      assert [rs[0]] + (rs[1..] + s.records) == rs + s.records;
    }
  }

  /** Codec theorem: any list within limits, then any strict prefix of one more record. */
  lemma ReplayOfTornLog(f: Format, rs: seq<Record>, next: Record, n: nat)
    requires AllFit(f, rs) && n < |Wire(f, next)| && (n > 0 ==> Fits(f, next))
    ensures Scan(f, EncodeAll(f, rs) + Wire(f, next)[..n])
         == Scanned(rs, |EncodeAll(f, rs)|, if n == 0 then Clean else TornTail)
  {
    if n > 0 { ReadTorn(f, next, n); }
    ScanAfter(f, rs, Wire(f, next)[..n]);
    assert rs + [] == rs;
  }

  /** A checksum mismatch silently drops that frame and everything after it; it does not fail the open. */
  lemma CorruptionDropsSuffix(
      f: Format, before: seq<Record>, key: Bytes, value: Bytes, flag: byte, sum: uint32, after: Bytes)
    requires AllFit(f, before) && InLimits(f.limits, |key|, |value|)
    requires sum != f.crc(Field(key) + Field(value) + [flag])
    ensures Scan(f, EncodeAll(f, before) + (RawFrame(key, value, flag, sum) + after))
         == Scanned(before, |EncodeAll(f, before)|, TornTail)
  {
    ReadRaw(f, key, value, flag, sum, after);
    ScanAfter(f, before, RawFrame(key, value, flag, sum) + after);
    assert before + [] == before;
  }

  /** A length over its limit fails the replay with its error: it is never taken for a torn tail. */
  lemma OverlongLengthFails(
      f: Format, before: seq<Record>, keyLen: uint32, valueLen: uint32, key: Bytes, rest: Bytes)
    requires AllFit(f, before) && !InLimits(f.limits, keyLen, valueLen)
    requires keyLen <= f.limits.maxKeySize ==> |key| == keyLen
    ensures var tail := if keyLen > f.limits.maxKeySize then rest else key + (PutUint32(valueLen) + rest);
      var file := EncodeAll(f, before) + (PutUint32(keyLen) + tail);
      |file| <= f.limits.maxFileSize ==>
        Recover(f, file, 0) == RecoveryFailed(LengthError(f.limits, keyLen, valueLen))
  {
    hide Scan, ReadOne;
    var tail := if keyLen > f.limits.maxKeySize then rest else key + (PutUint32(valueLen) + rest);
    var d := PutUint32(keyLen) + tail;
    ReadOverlong(f, keyLen, valueLen, key, rest);
    ScanStop(f, d);
    ScanAfter(f, before, d);
    var file := EncodeAll(f, before) + d;
    assert file[0..] == file;
  }

  /** The whole of recovery on what a crash can leave: skipped bytes, records, and part of one more. */
  lemma RecoverExactly(f: Format, skipped: Bytes, rs: seq<Record>, next: Record, n: nat)
    requires AllFit(f, rs) && n < |Wire(f, next)| && (n > 0 ==> Fits(f, next))
    ensures var kept := skipped + EncodeAll(f, rs);
      Recover(f, kept + Wire(f, next)[..n], |skipped|) ==
        if |kept| + n > f.limits.maxFileSize then RecoveryFailed(WalTooLarge) else Recovered(rs, |kept|, kept)
  {
    hide Scan, EncodeAll, Wire, AllFit, Fits;
    var kept, torn := skipped + EncodeAll(f, rs), Wire(f, next)[..n];
    ReplayOfTornLog(f, rs, next, n);
    assert (kept + torn)[|skipped|..] == EncodeAll(f, rs) + torn;
    assert (kept + torn)[..|kept|] == kept;
  }

  /** A start at or past the end replays nothing and leaves the file alone. */
  lemma RecoverPastEnd(f: Format, file: Bytes, start: nat)
    requires |file| <= start && |file| <= f.limits.maxFileSize
    ensures Recover(f, file, start) == Recovered([], |file|, file)
  {
    assert file[|file|..] == [];
    ReadNothing(f);
    assert Scan(f, []) == Scanned([], 0, Clean);
  }

  /** For arbitrary bytes: cutting the file at the last valid record loses nothing and leaves it clean. */
  lemma {:induction false} ScanOfValidPrefix(f: Format, d: Bytes)
    ensures var s := Scan(f, d); Scan(f, d[..s.valid]) == Scanned(s.records, s.valid, Clean)
    decreases |d|
  {
    hide ReadOne;
    var s := Scan(f, d);
    if ReadOne(f, d).Got? {
      var n := ReadOne(f, d).size;
      ReadOnePrefix(f, d, s.valid);
      ScanOfValidPrefix(f, d[n..]);
      assert d[..s.valid][n..] == d[n..][..s.valid - n];
    } else {
      assert d[..0] == [];
      ReadNothing(f);
    }
  }

  lemma ReadNothing(f: Format)
    ensures ReadOne(f, []) == EndOfFile
  {
  }

  datatype Recovery =
    | Recovered(records: seq<Record>, validEnd: nat, file: Bytes)
    | RecoveryFailed(error: Error)

  /** `ReplayFromWithRecovery`: the records handed to the callback and the file left on disk. */
  function Recover(f: Format, file: Bytes, start: nat): Recovery {
    if |file| > f.limits.maxFileSize then RecoveryFailed(WalTooLarge)
    else
      var s := if start > |file| then |file| else start;
      var scan := Scan(f, file[s..]);
      match scan.end
      case Clean => Recovered(scan.records, s + scan.valid, file)
      case TornTail => Recovered(scan.records, s + scan.valid, file[..s + scan.valid])
      case ScanFailed(e) => RecoveryFailed(e)
  }

  /** Recovery is idempotent on any file whatsoever: the second run returns the same and changes nothing. */
  lemma RecoverIdempotent(f: Format, file: Bytes, start: nat)
    requires Recover(f, file, start).Recovered?
    ensures Recover(f, Recover(f, file, start).file, start) == Recover(f, file, start)
  {
    hide Scan;
    var s := if start > |file| then |file| else start;
    var r := Recover(f, file, start);
    ScanOfValidPrefix(f, file[s..]);
    if Scan(f, file[s..]).end == TornTail {
      assert r.file[s..] == file[s..][..r.validEnd - s];
      assert start <= |file|;
    }
  }

  /** One turn of the replay loop: what is scanned at `pos` follows what was read before. */
  lemma ScanStep(f: Format, file: Bytes, pos: nat)
    requires pos <= |file| && ReadOne(f, file[pos..]).Got?
    ensures var got, rest := ReadOne(f, file[pos..]), Scan(f, file[pos + ReadOne(f, file[pos..]).size..]);
      Scan(f, file[pos..]) == Scanned([got.record] + rest.records, got.size + rest.valid, rest.end)
  {
    hide ReadOne;
    assert file[pos..][ReadOne(f, file[pos..]).size..] == file[pos + ReadOne(f, file[pos..]).size..];
  }

  lemma ScanStop(f: Format, d: Bytes)
    requires !ReadOne(f, d).Got?
    ensures Scan(f, d) == match ReadOne(f, d)
                          case EndOfFile => Scanned([], 0, Clean)
                          case Failed(e) => Scanned([], 0, ScanFailed(e))
                          case _ => Scanned([], 0, TornTail)
  {
    hide ReadOne;
  }

  /** The replay loop of `ReplayFromWithRecovery`, moving a file position. */
  method ReplayFromWithRecovery(f: Format, file: Bytes, start: nat) returns (res: Recovery)
    ensures res == Recover(f, file, start)
  {
    hide ReadOne, Scan;
    if |file| > f.limits.maxFileSize { return RecoveryFailed(WalTooLarge); }
    var from := if start > |file| then |file| else start;
    var pos := from;
    var records := [];
    ghost var whole := Scan(f, file[from..]);
    while true
      invariant from <= pos <= |file|
      invariant whole.records == records + Scan(f, file[pos..]).records
      invariant whole.valid == pos - from + Scan(f, file[pos..]).valid
      invariant whole.end == Scan(f, file[pos..]).end
      decreases |file| - pos
    {
      if !ReadOne(f, file[pos..]).Got? { ScanStop(f, file[pos..]); }
      match ReadOne(f, file[pos..])
      case EndOfFile => return Recovered(records, pos, file);
      case Torn => return Recovered(records, pos, file[..pos]);
      case Failed(e) => return RecoveryFailed(e);
      case Got(r, n) =>
        ScanStep(f, file, pos);
        records, pos := records + [r], pos + n;
    }
  }

  // ----- the open log ------------------------------------------------------

  /** `TruncateBefore`: drop the first `at` bytes. */
  function TruncateBefore(file: Bytes, at: nat): Bytes {
    if at == 0 then file else if at >= |file| then [] else file[at..]
  }

  /** The chunked copy loop behind TruncateBefore. A read at an offset may return fewer bytes than asked, as many as
      `read` allows there; one that returns none ends the copy with an error. */
  method CopyWalTail(file: Bytes, at: nat, read: nat -> nat) returns (complete: bool, tail: Bytes)
    requires at <= |file|
    ensures complete ==> tail == file[at..]
    ensures !complete ==> tail < file[at..] && read(at + |tail|) == 0
  {
    tail := [];
    var off := at;
    while off < |file|
      invariant at <= off <= |file|
      invariant tail == file[at..off]
    {
      var n := if |file| - off < 0x1_0000 then |file| - off else 0x1_0000;
      var readN := if read(off) < n then read(off) else n;
      if readN == 0 { return false, tail; }
      assert file[at..off + readN] == file[at..off] + file[off..off + readN];
      tail := tail + file[off..off + readN];
      off := off + readN;
    }
    return true, tail;
  }

  /** The log file while it is open for appending. */
  class Log {
    const format: Format
    var file: Bytes

    constructor (format: Format, file: Bytes)
      ensures this.format == format && this.file == file
    {
      this.format, this.file := format, file;
    }

    /** All records in order, or those before the first one over the limits and its error. */
    method AppendBatch(records: seq<Record>) returns (err: Option<Error>, ghost written: nat)
      modifies this
      ensures written <= |records|
      ensures file == old(file) + EncodeAll(format, records[..written])
      ensures forall i :: 0 <= i < written ==> Accepted(format.limits, records[i])
      ensures err.None? ==> written == |records|
      ensures err.Some? ==> written < |records| && !Accepted(format.limits, records[written])
      ensures err.Some? ==> RejectedWith(format.limits, records[written], err.value)
    {
      hide Wire, EncodeRecord, Accepted, RejectedWith;
      written := 0;
      var i := 0;
      while i < |records|
        invariant 0 <= i <= |records| && written == i
        invariant file == old(file) + EncodeAll(format, records[..i])
        invariant forall j :: 0 <= j < i ==> Accepted(format.limits, records[j])
      {
        EncodedExactly(format, records[i]);
        match EncodeRecord(format, records[i])
        case Rejected(e) => return Some(e), i;
        case Encoded(b) =>
          assert records[..i + 1] == records[..i] + [records[i]];
          EncodeAllSnoc(format, records[..i], records[i]);
          file := file + b;
          i := i + 1;
          written := i;
      }
      return None, i;
    }

    /** `TruncateBefore`: the tail replaces the file once it is copied whole; an error leaves the file as it was. */
    method Truncate(at: nat, read: nat -> nat) returns (ok: bool)
      modifies this
      ensures file == if ok then TruncateBefore(old(file), at) else old(file)
      ensures ok ==> if at < |old(file)| then old(file) == old(file)[..at] + file else file == []
      ensures !ok ==> 0 < at && exists off :: at <= off < |old(file)| && read(off) == 0
    {
      if at == 0 { return true; }
      if at >= |file| {
        file := [];
        return true;
      }
      var complete, tail := CopyWalTail(file, at, read);
      if !complete { return false; }
      file := tail;
      return true;
    }
  }
}

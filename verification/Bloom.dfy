/** The Bloom filter: no false negatives, also after its encoding is read back. */
module Bloom {
  import opened ByteStrings
  import opened Records

  // ----- bits of a byte ----------------------------------------------------------------------

  const POWERS: seq<int> := [1, 2, 4, 8, 16, 32, 64, 128]

  /** `b & (1 << i) != 0`. */
  predicate BitOfByte(b: byte, i: nat)
    requires i < 8
  {
    b / POWERS[i] % 2 == 1
  }

  /** `b | 1 << i`. */
  function SetInByte(b: byte, i: nat): byte
    requires i < 8
  {
    if BitOfByte(b, i) then b else
      ClearBitFits(b, i);
      b + POWERS[i]
  }

  ghost predicate Binary(d: seq<int>) {
    |d| == 8 && forall i :: 0 <= i < 8 ==> d[i] == 0 || d[i] == 1
  }

  ghost function Sum(d: seq<int>): int
    requires |d| == 8
  {
    d[0] + 2 * d[1] + 4 * d[2] + 8 * d[3] + 16 * d[4] + 32 * d[5] + 64 * d[6] + 128 * d[7]
  }

  lemma Digits(b: byte) returns (d: seq<int>)
    ensures Binary(d) && Sum(d) == b
  {
    var x: int := b;
    var x1 := x / 2;
    var x2 := x1 / 2;
    var x3 := x2 / 2;
    var x4 := x3 / 2;
    var x5 := x4 / 2;
    var x6 := x5 / 2;
    var x7 := x6 / 2;
    d := [x % 2, x1 % 2, x2 % 2, x3 % 2, x4 % 2, x5 % 2, x6 % 2, x7 % 2];
    assert x7 == x7 % 2;
  }

  lemma BitsAreDigits(b: byte, d: seq<int>)
    requires Binary(d) && Sum(d) == b
    ensures b % 2 == d[0] && b / 2 % 2 == d[1] && b / 4 % 2 == d[2] && b / 8 % 2 == d[3]
    ensures b / 16 % 2 == d[4] && b / 32 % 2 == d[5] && b / 64 % 2 == d[6] && b / 128 % 2 == d[7]
  {
    var x: int := b;
    var y2 := d[2] + 2 * d[3] + 4 * d[4] + 8 * d[5] + 16 * d[6] + 32 * d[7];
    var y4 := d[4] + 2 * d[5] + 4 * d[6] + 8 * d[7];
    var y6 := d[6] + 2 * d[7];
    assert x == d[0] + 2 * d[1] + 4 * y2 && y2 == d[2] + 2 * d[3] + 4 * y4 && y4 == d[4] + 2 * d[5] + 4 * y6;
    assert x / 2 == d[1] + 2 * y2 && x / 4 == y2;
    assert x / 8 == y2 / 2 == d[3] + 2 * y4 && x / 16 == y2 / 4 == y4;
    assert x / 32 == y4 / 2 == d[5] + 2 * y6 && x / 64 == y4 / 4 == y6;
  }

  lemma BitIsDigit(b: byte, d: seq<int>, i: nat)
    requires Binary(d) && Sum(d) == b && i < 8
    ensures BitOfByte(b, i) <==> d[i] == 1
  {
    BitsAreDigits(b, d);
  }

  /** Bit i of a byte is worth two to the i. */
  lemma ByteOfBits(b: byte)
    ensures b ==
      (if BitOfByte(b, 0) then 1 else 0) + (if BitOfByte(b, 1) then 2 else 0) +
      (if BitOfByte(b, 2) then 4 else 0) + (if BitOfByte(b, 3) then 8 else 0) +
      (if BitOfByte(b, 4) then 16 else 0) + (if BitOfByte(b, 5) then 32 else 0) +
      (if BitOfByte(b, 6) then 64 else 0) + (if BitOfByte(b, 7) then 128 else 0)
  {
    hide BitOfByte;
    var d := Digits(b);
    forall i | 0 <= i < 8 ensures BitOfByte(b, i) <==> d[i] == 1 { BitIsDigit(b, d, i); }
  }

  lemma SumSet(d: seq<int>, i: nat)
    requires Binary(d) && i < 8 && d[i] == 0
    ensures Binary(d[i := 1]) && Sum(d[i := 1]) == Sum(d) + POWERS[i] && Sum(d[i := 1]) < 256
  {
  }

  lemma ClearBitFits(b: byte, i: nat)
    requires i < 8 && !BitOfByte(b, i)
    ensures 0 <= b as int + POWERS[i] < 256
  {
    var d := Digits(b);
    BitIsDigit(b, d, i);
    SumSet(d, i);
  }

  lemma SetInByteExact(b: byte, i: nat, j: nat)
    requires i < 8 && j < 8
    ensures BitOfByte(SetInByte(b, i), j) <==> j == i || BitOfByte(b, j)
  {
    if !BitOfByte(b, i) {
      var d := Digits(b);
      BitIsDigit(b, d, i);
      BitIsDigit(b, d, j);
      SumSet(d, i);
      BitIsDigit(SetInByte(b, i), d[i := 1], j);
    }
  }

  // ----- bit strings -----------------------------------------------------------------------------

  predicate Bit(bits: Bytes, n: nat)
    requires n < 8 * |bits|
  {
    BitOfByte(bits[n / 8], n % 8)
  }

  function SetBit(bits: Bytes, n: nat): (r: Bytes)
    requires n < 8 * |bits|
    ensures |r| == |bits|
  {
    bits[n / 8 := SetInByte(bits[n / 8], n % 8)]
  }

  lemma SetBitExact(bits: Bytes, n: nat, j: nat)
    requires n < 8 * |bits| && j < 8 * |bits|
    ensures Bit(SetBit(bits, n), j) <==> j == n || Bit(bits, j)
  {
    hide SetInByte, BitOfByte;
    SetInByteExact(bits[n / 8], n % 8, j % 8);
  }

  // ----- the filter --------------------------------------------------------------------------------

  /** A filter as a value: k hash functions over m bits. */
  datatype Filter = Filter(k: nat, m: nat, bits: Bytes)

  predicate WellSized(f: Filter) {
    f.k > 0 && f.m > 0 && f.m <= 8 * |f.bits|
  }

  /** The i-th probe of a key with this hash, in wrapping 64-bit arithmetic. */
  function Probe(sum: uint64, i: nat, m: nat): (p: nat)
    requires m > 0
    ensures p < m
  {
    (sum as int + i * (sum as int / TWO_32)) % TWO_64 % m
  }

  /** Set the first n probes. */
  function SetProbes(f: Filter, sum: uint64, n: nat): (r: Filter)
    requires WellSized(f)
    ensures WellSized(r) && r.k == f.k && r.m == f.m && |r.bits| == |f.bits|
  {
    if n == 0 then f
    else
      var g := SetProbes(f, sum, n - 1);
      g.(bits := SetBit(g.bits, Probe(sum, n - 1, f.m)))
  }

  function AddSum(f: Filter, sum: uint64): Filter
    requires WellSized(f)
  {
    SetProbes(f, sum, f.k)
  }

  /** MayContain of a key with this hash. */
  predicate Passes(f: Filter, sum: uint64)
    requires WellSized(f)
  {
    forall i :: 0 <= i < f.k ==> Bit(f.bits, Probe(sum, i, f.m))
  }

  ghost predicate Probed(sum: uint64, n: nat, m: nat, j: nat)
    requires m > 0
  {
    exists i :: 0 <= i < n && Probe(sum, i, m) == j
  }

  /** Adding a key sets its probes and nothing else. */
  lemma {:induction false} SetProbesExact(f: Filter, sum: uint64, n: nat, j: nat)
    requires WellSized(f) && j < f.m
    ensures Bit(SetProbes(f, sum, n).bits, j) <==> Bit(f.bits, j) || Probed(sum, n, f.m, j)
  {
    hide Probe, Bit, SetBit;
    if n > 0 {
      SetProbesExact(f, sum, n - 1, j);
      SetBitExact(SetProbes(f, sum, n - 1).bits, Probe(sum, n - 1, f.m), j);
      assert Probed(sum, n, f.m, j) <==> Probed(sum, n - 1, f.m, j) || Probe(sum, n - 1, f.m) == j;
    }
  }

  function AddAll(f: Filter, sums: seq<uint64>): (r: Filter)
    requires WellSized(f)
    ensures WellSized(r) && r.k == f.k && r.m == f.m && |r.bits| == |f.bits|
  {
    if sums == [] then f else AddSum(AddAll(f, sums[..|sums| - 1]), sums[|sums| - 1])
  }

  lemma PassesAfterAdd(f: Filter, added: uint64, sum: uint64)
    requires WellSized(f) && (sum == added || Passes(f, sum))
    ensures Passes(AddSum(f, added), sum)
  {
    hide Bit, Probe, SetProbes;
    forall i | 0 <= i < f.k ensures Bit(AddSum(f, added).bits, Probe(sum, i, f.m)) {
      SetProbesExact(f, added, f.k, Probe(sum, i, f.m));
    }
  }

  /** No false negatives, after any sequence of additions to any filter. */
  lemma {:induction false} AddedPass(f: Filter, sums: seq<uint64>, sum: uint64)
    requires WellSized(f) && sum in sums
    ensures Passes(AddAll(f, sums), sum)
  {
    hide Passes, AddSum;
    var n := |sums| - 1;
    if sum in sums[..n] { AddedPass(f, sums[..n], sum); }
    PassesAfterAdd(AddAll(f, sums[..n]), sums[n], sum);
  }

  /** A bit of the filled filter is set only by some added key. */
  lemma {:induction false} SetOnlyByAdded(f: Filter, sums: seq<uint64>, j: nat)
    requires WellSized(f) && j < f.m
    ensures Bit(AddAll(f, sums).bits, j) <==> Bit(f.bits, j) || exists s :: s in sums && Probed(s, f.k, f.m, j)
  {
    hide Bit, Probed, SetProbes;
    if sums != [] {
      var n := |sums| - 1;
      SetOnlyByAdded(f, sums[..n], j);
      SetProbesExact(AddAll(f, sums[..n]), sums[n], f.k, j);
      assert forall s :: s in sums <==> s == sums[n] || s in sums[..n];
    }
  }

  /** The bits that a key with this hash stands for: steps of the upper half from the whole, wrapping at 64 bits. */
  ghost predicate Marks(sum: uint64, k: nat, m: nat, j: nat)
    requires m > 0
  {
    exists i :: 0 <= i < k && Mark(sum, i, m) == j
  }

  ghost function Mark(sum: uint64, i: nat, m: nat): int
    requires m > 0
  {
    (sum + i * (sum / 0x1_0000_0000)) % 0x1_0000_0000_0000_0000 % m
  }

  lemma ProbedIsMarked(sum: uint64, k: nat, m: nat, j: nat)
    requires m > 0
    ensures Probed(sum, k, m, j) <==> Marks(sum, k, m, j)
  {
    forall i | 0 <= i < k ensures Probe(sum, i, m) == Mark(sum, i, m) {}
  }

  // ----- encoding ------------------------------------------------------------------------------------

  /** `Encode`; k and m are narrowed to 32 bits. */
  function Encode(f: Filter): (d: Bytes)
    ensures |d| == 8 + |f.bits|
  {
    PutUint32(f.k % TWO_32) + PutUint32(f.m % TWO_32) + f.bits
  }

  /** `Decode`; None is the nil filter that OpenReader reports as corrupt. */
  function Decode(d: Bytes): Option<Filter> {
    if |d| < 8 then None
    else
      var k, m := Uint32(d[..4]), Uint32(d[4..8]);
      if m == 0 || k == 0 then None
      else
        var n := (m + 7) / 8;
        if |d| - 8 < n then None else Some(Filter(k, m, d[8..8 + n]))
  }

  /** Number of hash functions, number of bits, then the bits. */
  lemma EncodeLayout(f: Filter)
    ensures var d := Encode(f);
      && Uint32(d[..4]) == f.k % 0x1_0000_0000 && Uint32(d[4..8]) == f.m % 0x1_0000_0000 && d[8..] == f.bits
  {
    var d := Encode(f);
    assert d[..4] == PutUint32(f.k % TWO_32) && d[4..8] == PutUint32(f.m % TWO_32);
    Uint32RoundTrip(f.k % TWO_32, []);
    Uint32RoundTrip(f.m % TWO_32, []);
  }

  /** What is too short for its header or its bits, or has no bits or no hash functions, is no filter; extra bytes are
      ignored. */
  lemma DecodedExactly(k: uint32, m: uint32, rest: Bytes)
    ensures Decode(PutUint32(k) + PutUint32(m) + rest) ==
      if k > 0 && m > 0 && 8 * |rest| >= m then Some(Filter(k, m, rest[..(m + 7) / 8])) else None
    ensures forall d: Bytes :: |d| < 8 ==> Decode(d) == None
  {
    var d := PutUint32(k) + PutUint32(m) + rest;
    assert d[..4] == PutUint32(k) && d[4..8] == PutUint32(m) && d[8..] == rest;
    Uint32RoundTrip(k, []);
    Uint32RoundTrip(m, []);
    if 8 * |rest| >= m { assert d[8..8 + (m + 7) / 8] == rest[..(m + 7) / 8]; }
  }

  /** Sized as New sizes it: whole bytes, at most 30 hash functions. */
  predicate AsNew(f: Filter) {
    1 <= f.k <= 30 && f.m > 0 && f.m % 8 == 0 && |f.bits| == f.m / 8
  }

  /** The encoding reads back to the same filter exactly when m fits in 32 bits. */
  lemma EncodeExact(f: Filter)
    requires AsNew(f)
    ensures Decode(Encode(f)) == Some(f) <==> f.m < TWO_32
  {
    var d := Encode(f);
    assert d[..4] == PutUint32(f.k) && d[4..8] == PutUint32(f.m % TWO_32) && d[8..] == f.bits;
    Uint32RoundTrip(f.k, []);
    Uint32RoundTrip(f.m % TWO_32, []);
    if f.m < TWO_32 { assert d[8..8 + |f.bits|] == f.bits; }
  }

  // ----- the code ----------------------------------------------------------------------------------------

  /** A filter being filled; `fnv` is the 64-bit FNV-1a hash. */
  class Builder {
    const fnv: Bytes -> uint64
    const k: nat
    const m: nat
    const bits: array<byte>

    ghost predicate Valid()
      reads bits
    {
      k > 0 && m > 0 && m <= 8 * bits.Length
    }

    function Value(): Filter
      reads bits
    {
      Filter(k, m, bits[..])
    }

    constructor (fnv: Bytes -> uint64, k: nat, m: nat)
      requires 1 <= k <= 30 && m > 0 && m % 8 == 0
      ensures this.fnv == fnv && this.k == k && this.m == m && fresh(bits)
      ensures Valid() && AsNew(Value()) && Value().bits == seq(m / 8, _ => 0)
    {
      this.fnv, this.k, this.m := fnv, k, m;
      this.bits := new byte[m / 8](_ => 0);
    }

    method Add(key: Bytes)
      requires Valid()
      modifies bits
      ensures Valid() && Value() == AddSum(old(Value()), fnv(key))
      ensures forall j :: 0 <= j < m ==> (Bit(bits[..], j) <==> Bit(old(bits[..]), j) || Marks(fnv(key), k, m, j))
    {
      hide SetInByte, Probe, Bit, SetBit, Marks;
      var sum := fnv(key);
      ghost var before := Value();
      for i := 0 to k
        invariant Value() == SetProbes(before, sum, i)
      {
        var idx := Probe(sum, i, m);
        OneByte(bits[..], idx);
        bits[idx / 8] := SetInByte(bits[idx / 8], idx % 8);
      }
      forall j | 0 <= j < m ensures Bit(bits[..], j) <==> Bit(old(bits[..]), j) || Marks(fnv(key), k, m, j) {
        SetProbesExact(before, sum, k, j);
        ProbedIsMarked(sum, k, m, j);
      }
    }
  }

  lemma OneByte(bits: Bytes, n: nat)
    requires n < 8 * |bits|
    ensures SetBit(bits, n) == bits[n / 8 := SetInByte(bits[n / 8], n % 8)]
  {
  }

  method MayContain(f: Filter, fnv: Bytes -> uint64, key: Bytes) returns (r: bool)
    requires WellSized(f)
    ensures r == Passes(f, fnv(key))
    ensures r <==> forall i :: 0 <= i < f.k ==> Bit(f.bits, Mark(fnv(key), i, f.m))
  {
    forall i | 0 <= i < f.k ensures Probe(fnv(key), i, f.m) == Mark(fnv(key), i, f.m) {}
    var sum := fnv(key);
    for i := 0 to f.k
      invariant forall j :: 0 <= j < i ==> Bit(f.bits, Probe(sum, j, f.m))
    {
      var idx := Probe(sum, i, f.m);
      if !BitOfByte(f.bits[idx / 8], idx % 8) { return false; }
    }
    return true;
  }
}

/** Byte strings, big-endian integers and the byte-wise order of keys. */
module ByteStrings {

  type byte = x: int | 0 <= x < 256
  type Bytes = seq<byte>

  const TWO_32: int := 0x1_0000_0000
  const TWO_63: int := 0x8000_0000_0000_0000
  const TWO_64: int := 0x1_0000_0000_0000_0000

  type uint32 = x: int | 0 <= x < 0x1_0000_0000
  type uint64 = x: int | 0 <= x < 0x1_0000_0000_0000_0000

  /** `binary.BigEndian.AppendUint32` of one number. */
  function PutUint32(n: uint32): (s: Bytes)
    ensures |s| == 4
  {
    [n / 0x100_0000, n / 0x1_0000 % 0x100, n / 0x100 % 0x100, n % 0x100]
  }

  /** `binary.BigEndian.Uint32`: the number in the first four bytes. */
  function Uint32(s: Bytes): (n: uint32)
    requires |s| >= 4
  {
    s[0] as int * 0x100_0000 + s[1] as int * 0x1_0000 + s[2] as int * 0x100 + s[3] as int
  }

  function PutUint64(n: uint64): (s: Bytes)
    ensures |s| == 8
  {
    PutUint32(n / TWO_32) + PutUint32(n % TWO_32)
  }

  function Uint64(s: Bytes): (n: uint64)
    requires |s| >= 8
  {
    Uint32(s) * TWO_32 + Uint32(s[4..])
  }

  /** Most significant byte first: the byte order of every file. */
  lemma BigEndian32(a: byte, b: byte, c: byte, d: byte, rest: Bytes)
    ensures Uint32([a, b, c, d] + rest) == ((a * 256 + b) * 256 + c) * 256 + d
  {
  }

  lemma BigEndian64(s: Bytes, rest: Bytes)
    requires |s| == 8
    ensures Uint64(s + rest) == Uint32(s[..4]) * 0x1_0000_0000 + Uint32(s[4..])
    ensures PutUint64(Uint64(s)) == s
  {
    assert s[4..] + rest == (s + rest)[4..];
    Bytes32(s[..4]);
    Bytes32(s[4..]);
    var hi, lo := Uint32(s), Uint32(s[4..]);
    assert (hi * TWO_32 + lo) / TWO_32 == hi && (hi * TWO_32 + lo) % TWO_32 == lo;
    assert s == s[..4] + s[4..];
  }

  /** Writing what was read gives the same four bytes, so the encoding is the only one. */
  lemma Bytes32(s: Bytes)
    requires |s| == 4
    ensures PutUint32(Uint32(s)) == s
  {
    var a: int, b: int, c: int, d: int := s[0], s[1], s[2], s[3];
    var n := ((a * 256 + b) * 256 + c) * 256 + d;
    assert Uint32(s) == n;
    assert n / 0x100 == (a * 256 + b) * 256 + c && n % 0x100 == d;
    assert n / 0x1_0000 == a * 256 + b;
    assert n / 0x100_0000 == a;
  }

  lemma Uint32RoundTrip(n: uint32, rest: Bytes)
    ensures Uint32(PutUint32(n) + rest) == n
    ensures Uint32(PutUint32(n)) == n
  {
    DigitsOf(n);
  }

  lemma DigitsOf(n: uint32)
    ensures n / 0x100_0000 * 0x100_0000 + n / 0x1_0000 % 0x100 * 0x1_0000 + n / 0x100 % 0x100 * 0x100 + n % 0x100 == n
  {
    var x: int := n;
    assert x / 0x100 / 0x100 == x / 0x1_0000;
    assert x / 0x1_0000 / 0x100 == x / 0x100_0000;
  }

  lemma Uint64RoundTrip(n: uint64, rest: Bytes)
    ensures Uint64(PutUint64(n) + rest) == n
    ensures Uint64(PutUint64(n)) == n
  {
    var hi, lo := PutUint32(n / TWO_32), PutUint32(n % TWO_32);
    assert PutUint64(n) + rest == hi + (lo + rest);
    assert (PutUint64(n) + rest)[4..] == lo + rest;
    assert PutUint64(n)[4..] == lo;
    Uint32RoundTrip(n / TWO_32, lo + rest);
    Uint32RoundTrip(n / TWO_32, lo);
    Uint32RoundTrip(n % TWO_32, rest);
  }

  /** A length-prefixed byte string; the length is narrowed to 32 bits as `uint32(len)` does. */
  function Field(x: Bytes): (s: Bytes)
    ensures |s| == |x| + 4
  {
    PutUint32(|x| % TWO_32) + x
  }

  /** For any length at all: the low 32 bits of it, then the string. */
  lemma FieldLayout(x: Bytes)
    ensures Uint32(Field(x)[..4]) == |x| % 0x1_0000_0000 && Field(x)[4..] == x
  {
    assert Field(x)[..4] == PutUint32(|x| % TWO_32);
    Uint32RoundTrip(|x| % TWO_32, []);
  }

  lemma FieldSlices(x: Bytes, rest: Bytes)
    requires |x| < TWO_32
    ensures var d := Field(x) + rest;
      && |d| == |x| + 4 + |rest|
      && Uint32(d[..4]) == |x| && d[4..|x| + 4] == x && d[|x| + 4..] == rest
  {
    var d := Field(x) + rest;
    assert d[..4] == PutUint32(|x|);
    Uint32RoundTrip(|x|, []);
  }

  /** `bytes.Compare(a, b) < 0`. */
  predicate Less(a: Bytes, b: Bytes)
  {
    b != [] && (a == [] || a[0] < b[0] || (a[0] == b[0] && Less(a[1..], b[1..])))
  }

  lemma {:induction false} LessIrreflexive(a: Bytes)
    ensures !Less(a, a)
  {
    if a != [] { LessIrreflexive(a[1..]); }
  }

  lemma {:induction false} LessTransitive(a: Bytes, b: Bytes, c: Bytes)
    requires Less(a, b) && Less(b, c)
    ensures Less(a, c)
  {
    if a != [] && a[0] == b[0] == c[0] { LessTransitive(a[1..], b[1..], c[1..]); }
  }

  lemma {:induction false} LessAsymmetric(a: Bytes, b: Bytes)
    requires Less(a, b)
    ensures !Less(b, a) && a != b
  {
    LessIrreflexive(a);
    if Less(b, a) { LessTransitive(a, b, a); }
  }

  lemma {:induction false} LessTotal(a: Bytes, b: Bytes)
    ensures Less(a, b) || a == b || Less(b, a)
  {
    if a != [] && b != [] && a[0] == b[0] {
      LessTotal(a[1..], b[1..]);
      assert a == [a[0]] + a[1..] && b == [b[0]] + b[1..];
    }
  }

  /** The byte-wise order is a strict total order. */
  lemma LessIsStrictTotalOrder()
    ensures forall a: Bytes :: !Less(a, a)
    ensures forall a: Bytes, b: Bytes, c: Bytes :: Less(a, b) && Less(b, c) ==> Less(a, c)
    ensures forall a: Bytes, b: Bytes :: Less(a, b) || a == b || Less(b, a)
  {
    forall a: Bytes ensures !Less(a, a) { LessIrreflexive(a); }
    forall a: Bytes, b: Bytes, c: Bytes | Less(a, b) && Less(b, c) ensures Less(a, c) { LessTransitive(a, b, c); }
    forall a: Bytes, b: Bytes ensures Less(a, b) || a == b || Less(b, a) { LessTotal(a, b); }
  }

  // ----- the order in terms of positions -----------------------------------------------------

  /** The strings agree up to i, and there a ends first or has the smaller byte. */
  ghost predicate PrecedesAt(a: Bytes, b: Bytes, i: nat) {
    && i <= |a| && i <= |b| && a[..i] == b[..i]
    && ((i == |a| && i < |b|) || (i < |a| && i < |b| && a[i] < b[i]))
  }

  /** a comes before b in the dictionary order of bytes. */
  ghost predicate Precedes(a: Bytes, b: Bytes) {
    exists i: nat :: PrecedesAt(a, b, i)
  }

  lemma {:induction false} LessIsPrecedes(a: Bytes, b: Bytes)
    ensures Less(a, b) <==> Precedes(a, b)
  {
    if a == [] || b == [] || a[0] != b[0] {
      if Less(a, b) { assert PrecedesAt(a, b, 0); }
      forall i: nat ensures PrecedesAt(a, b, i) ==> i == 0 {
        if 0 < i <= |a| && i <= |b| { assert a[..i][0] == a[0] && b[..i][0] == b[0]; }
      }
    } else {
      LessIsPrecedes(a[1..], b[1..]);
      forall i: nat | PrecedesAt(a[1..], b[1..], i) ensures PrecedesAt(a, b, i + 1) {
        assert a[..i + 1] == [a[0]] + a[1..][..i] && b[..i + 1] == [b[0]] + b[1..][..i];
      }
      forall i: nat | PrecedesAt(a, b, i) ensures i > 0 && PrecedesAt(a[1..], b[1..], i - 1) {
        if i > 0 { assert a[1..][..i - 1] == a[..i][1..] && b[1..][..i - 1] == b[..i][1..]; }
      }
    }
  }
}

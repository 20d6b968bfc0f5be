/** Octets, big-endian integers and byte-wise XOR shared by every wire format. */
module Bytes {
  import opened Collections

  newtype byte = x: int | 0 <= x < 256

  const U16_LIMIT: int := 0x1_0000
  const U32_LIMIT: int := 0x1_0000_0000
  const U64_LIMIT: int := 0x1_0000_0000_0000_0000

  type Short = n: nat | n < U16_LIMIT

  function Pow2(n: nat): (p: nat)
    ensures p > 0
  {
    if n == 0 then 1 else 2 * Pow2(n - 1)
  }

  lemma Pow2Plus8(k: nat)
    ensures Pow2(k + 8) == 256 * Pow2(k)
  {
    assert Pow2(k + 8) == 2 * Pow2(k + 7) == 4 * Pow2(k + 6) == 8 * Pow2(k + 5) == 16 * Pow2(k + 4);
    assert Pow2(k + 4) == 2 * Pow2(k + 3) == 4 * Pow2(k + 2) == 8 * Pow2(k + 1) == 16 * Pow2(k);
  }

  /** A 16-bit field in network order; wider values are truncated, as the conversion to uint16 does. */
  function U16(v: nat): (s: seq<byte>)
    ensures |s| == 2
  {
    [(v / 256 % 256) as byte, (v % 256) as byte]
  }

  function ReadU16(s: seq<byte>): (v: nat)
    requires |s| == 2
    ensures v < U16_LIMIT
  {
    s[0] as nat * 256 + s[1] as nat
  }

  function U32(v: nat): (s: seq<byte>)
    ensures |s| == 4
  {
    U16(v / U16_LIMIT) + U16(v % U16_LIMIT)
  }

  function ReadU32(s: seq<byte>): (v: nat)
    requires |s| == 4
    ensures v < U32_LIMIT
  {
    ReadU16(s[..2]) * U16_LIMIT + ReadU16(s[2..])
  }

  function U64(v: nat): (s: seq<byte>)
    ensures |s| == 8
  {
    U32(v / U32_LIMIT) + U32(v % U32_LIMIT)
  }

  function ReadU64(s: seq<byte>): (v: nat)
    requires |s| == 8
    ensures v < U64_LIMIT
  {
    ReadU32(s[..4]) * U32_LIMIT + ReadU32(s[4..])
  }

  /** A 16-bit field reads back modulo 2^16: exactly the values below 65536 survive. */
  lemma U16ReadsBack(v: nat)
    ensures ReadU16(U16(v)) == v % U16_LIMIT
  {
    var q, lo := v / 256, v % 256;
    var top, hi := q / 256, q % 256;
    assert v == top * U16_LIMIT + (hi * 256 + lo);
    assert hi * 256 + lo < U16_LIMIT;
  }

  lemma U16Fits(v: nat)
    requires v < U16_LIMIT
    ensures ReadU16(U16(v)) == v
  {
    U16ReadsBack(v);
  }

  lemma U16Printed(s: seq<byte>)
    requires |s| == 2
    ensures U16(ReadU16(s)) == s
  {
    var v := ReadU16(s);
    assert v / 256 == s[0] as int && v % 256 == s[1] as int;
  }

  lemma U32ReadsBack(v: nat)
    ensures ReadU32(U32(v)) == v % U32_LIMIT
  {
    U16ReadsBack(v / U16_LIMIT);
    U16ReadsBack(v % U16_LIMIT);
    assert U32(v)[..2] == U16(v / U16_LIMIT) && U32(v)[2..] == U16(v % U16_LIMIT);
    LowHalves(v);
  }

  lemma LowHalves(v: nat)
    ensures v % U32_LIMIT == v / U16_LIMIT % U16_LIMIT * U16_LIMIT + v % U16_LIMIT
  {
    var q, r := v / U16_LIMIT, v % U16_LIMIT;
    assert q == q / U16_LIMIT * U16_LIMIT + q % U16_LIMIT;
    assert v == q / U16_LIMIT * U32_LIMIT + (q % U16_LIMIT * U16_LIMIT + r);
  }

  lemma U32Fits(v: nat)
    requires v < U32_LIMIT
    ensures ReadU32(U32(v)) == v
  {
    U32ReadsBack(v);
  }

  lemma U32Printed(s: seq<byte>)
    requires |s| == 4
    ensures U32(ReadU32(s)) == s
  {
    var hi, lo := ReadU16(s[..2]), ReadU16(s[2..]);
    assert (hi * U16_LIMIT + lo) / U16_LIMIT == hi && (hi * U16_LIMIT + lo) % U16_LIMIT == lo;
    U16Printed(s[..2]);
    U16Printed(s[2..]);
    assert s == s[..2] + s[2..];
  }

  lemma U64ReadsBack(v: nat)
    requires v < U64_LIMIT
    ensures ReadU64(U64(v)) == v
  {
    var q, r := v / U32_LIMIT, v % U32_LIMIT;
    assert v == q * U32_LIMIT + r;
    assert q < U32_LIMIT;
    U32Fits(q);
    U32Fits(r);
    assert U64(v)[..4] == U32(v / U32_LIMIT) && U64(v)[4..] == U32(v % U32_LIMIT);
  }

  predicate IsI64(v: int) { -(U64_LIMIT / 2) <= v < U64_LIMIT / 2 }

  /** Two's complement of a signed 64-bit value, as PutUint64(uint64(v)) writes it. */
  function I64(v: int): (s: seq<byte>)
    requires IsI64(v)
    ensures |s| == 8
  {
    U64(if v < 0 then v + U64_LIMIT else v)
  }

  function ReadI64(s: seq<byte>): (v: int)
    requires |s| == 8
    ensures IsI64(v)
  {
    var u := ReadU64(s);
    if u < U64_LIMIT / 2 then u else u - U64_LIMIT
  }

  lemma I64ReadsBack(v: int)
    requires IsI64(v)
    ensures ReadI64(I64(v)) == v
  {
    U64ReadsBack(if v < 0 then v + U64_LIMIT else v);
  }

  lemma U64Printed(s: seq<byte>)
    requires |s| == 8
    ensures U64(ReadU64(s)) == s
  {
    var hi, lo := ReadU32(s[..4]), ReadU32(s[4..]);
    assert (hi * U32_LIMIT + lo) / U32_LIMIT == hi && (hi * U32_LIMIT + lo) % U32_LIMIT == lo;
    U32Printed(s[..4]);
    U32Printed(s[4..]);
    assert s == s[..4] + s[4..];
  }

  lemma I64Printed(s: seq<byte>)
    requires |s| == 8
    ensures I64(ReadI64(s)) == s
  {
    U64Printed(s);
  }

  /** The most significant octet comes first. */
  lemma NetworkOrder(a: byte, b: byte, c: byte, d: byte)
    ensures U16(a as nat * 256 + b as nat) == [a, b]
    ensures U32(((a as nat * 256 + b as nat) * 256 + c as nat) * 256 + d as nat) == [a, b, c, d]
    ensures U64(((a as nat * 256 + b as nat) * 256 + c as nat) * 256 + d as nat) == [0, 0, 0, 0, a, b, c, d]
  {
    U16Printed([a, b]);
    U32Printed([a, b, c, d]);
    assert [a, b, c, d][..2] == [a, b] && [a, b, c, d][2..] == [c, d];
    var v := ((a as nat * 256 + b as nat) * 256 + c as nat) * 256 + d as nat;
    assert v / U32_LIMIT == 0 && v % U32_LIMIT == v;
    assert U32(0) == [0, 0, 0, 0];
  }

  /** The i-th binary digit of a number, the lowest being the 0-th. */
  function Digit(a: nat, i: nat): nat { if i == 0 then a % 2 else Digit(a / 2, i - 1) }

  /** Exclusive or of the `n` low bits of two numbers, bit by bit. */
  function XorBits(a: nat, b: nat, n: nat): (x: nat)
    ensures x < Pow2(n)
  {
    if n == 0 then 0 else 2 * XorBits(a / 2, b / 2, n - 1) + (a + b) % 2
  }

  function Xor(a: byte, b: byte): byte {
    assert Pow2(8) == 256 by { Pow2Plus8(0); }
    XorBits(a as nat, b as nat, 8) as byte
  }

  lemma {:induction false} XorBitsUndo(a: nat, b: nat, n: nat)
    requires a < Pow2(n)
    ensures XorBits(XorBits(a, b, n), b, n) == a
  {
    if n > 0 {
      XorBitsUndo(a / 2, b / 2, n - 1);
      LowBit(XorBits(a / 2, b / 2, n - 1), a, b);
    }
  }

  /** A digit of the exclusive or is 1 exactly when the two digits differ. */
  lemma {:induction false} XorBitsDigits(a: nat, b: nat, n: nat, i: nat)
    requires i < n
    ensures Digit(XorBits(a, b, n), i) == if Digit(a, i) != Digit(b, i) then 1 else 0
  {
    LowBit(XorBits(a / 2, b / 2, n - 1), a, b);
    if i > 0 { XorBitsDigits(a / 2, b / 2, n - 1, i - 1); }
  }

  lemma {:induction false} XorBitsSame(a: nat, n: nat)
    ensures XorBits(a, a, n) == 0
  {
    if n > 0 { XorBitsSame(a / 2, n - 1); }
  }

  lemma XorDigits(a: byte, b: byte, i: nat)
    requires i < 8
    ensures Digit(Xor(a, b) as nat, i) == if Digit(a as nat, i) != Digit(b as nat, i) then 1 else 0
  {
    assert Pow2(8) == 256 by { Pow2Plus8(0); }
    XorBitsDigits(a as nat, b as nat, 8, i);
  }

  lemma XorSame(a: byte)
    ensures Xor(a, a) == 0
  {
    assert Pow2(8) == 256 by { Pow2Plus8(0); }
    XorBitsSame(a as nat, 8);
  }

  lemma LowBit(y: nat, a: nat, b: nat)
    ensures (2 * y + (a + b) % 2) / 2 == y
    ensures (2 * y + (a + b) % 2 + b) % 2 == a % 2
    ensures (2 * y + (a + b) % 2) % 2 == if a % 2 != b % 2 then 1 else 0
  {}

  lemma XorUndo(a: byte, b: byte)
    ensures Xor(Xor(a, b), b) == a
  {
    assert Pow2(8) == 256 by { Pow2Plus8(0); }
    XorBitsUndo(a as nat, b as nat, 8);
  }

  lemma XorBitsSymmetric(a: nat, b: nat, n: nat)
    ensures XorBits(a, b, n) == XorBits(b, a, n)
  {}

  lemma XorSymmetric(a: byte, b: byte)
    ensures Xor(a, b) == Xor(b, a)
  {
    XorBitsSymmetric(a as nat, b as nat, 8);
  }

  function XorSeq(a: seq<byte>, b: seq<byte>): (c: seq<byte>)
    requires |a| == |b|
    ensures |c| == |a|
  {
    seq(|a|, i requires 0 <= i < |a| => Xor(a[i], b[i]))
  }

  lemma XorSeqUndo(a: seq<byte>, b: seq<byte>)
    requires |a| == |b|
    ensures XorSeq(XorSeq(a, b), b) == a
  {
    forall i | 0 <= i < |a| ensures XorSeq(XorSeq(a, b), b)[i] == a[i] {
      XorUndo(a[i], b[i]);
    }
  }

  lemma XorSeqSymmetric(a: seq<byte>, b: seq<byte>)
    requires |a| == |b|
    ensures XorSeq(a, b) == XorSeq(b, a)
  {
    forall i | 0 <= i < |a| ensures XorSeq(a, b)[i] == XorSeq(b, a)[i] {
      XorSymmetric(a[i], b[i]);
    }
  }

  lemma XorSeqInjective(a: seq<byte>, b: seq<byte>, s: seq<byte>)
    requires |a| == |b| == |s|
    requires XorSeq(a, s) == XorSeq(b, s)
    ensures a == b
  {
    XorSeqUndo(a, s);
    XorSeqUndo(b, s);
  }

  /** A 16-bit length, then that many octets. */
  function Sized(s: seq<byte>): seq<byte> { U16(|s|) + s }

  function Zeros(n: nat): (z: seq<byte>)
    ensures |z| == n
  {
    seq(n, _ => 0)
  }
}

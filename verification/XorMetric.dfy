/** The Kademlia metric: XOR distance of 256-bit identifiers, its order and its bucket index. */
module XorMetric {
  import opened Bytes
  import opened Collections

  const DIGEST_LEN := 32

  type Digest = d: seq<byte> | |d| == DIGEST_LEN witness seq(DIGEST_LEN, _ => 0)

  function XorDist(a: Digest, b: Digest): Digest { XorSeq(a, b) }

  method ComputeXorDist(a: Digest, b: Digest) returns (d: Digest)
    ensures d == XorDist(a, b)
  {
    var out: seq<byte> := [];
    for i := 0 to DIGEST_LEN
      invariant out == XorSeq(a, b)[..i]
    {
      out := out + [Xor(a[i], b[i])];
    }
    d := out;
  }

  /** The k-th binary digit of a digest, most significant first. */
  function DigestDigit(d: Digest, k: nat): nat
    requires k < 256
  {
    Digit(d[k / 8] as nat, 7 - k % 8)
  }

  /** Each digit of the distance is 1 exactly when the digits of the two identifiers differ. */
  lemma DistanceDigits(a: Digest, b: Digest, k: nat)
    requires k < 256
    ensures DigestDigit(XorDist(a, b), k) == if DigestDigit(a, k) != DigestDigit(b, k) then 1 else 0
  {
    XorDigits(a[k / 8], b[k / 8], 7 - k % 8);
  }

  /** Only identical identifiers are at distance zero. */
  lemma ZeroDistanceIff(a: Digest, b: Digest)
    ensures Value(XorDist(a, b)) == 0 <==> a == b
  {
    var zero := XorSeq(b, b);
    forall i | 0 <= i < |b| ensures zero[i] == 0 { XorSame(b[i]); }
    ZeroPrefixValue(zero, |zero|);
    assert Value(zero[|zero|..]) == 0;
    if Value(XorDist(a, b)) == 0 {
      LessIsNumeric(XorDist(a, b), zero);
      XorSeqInjective(a, b, b);
    }
  }

  /** The number a digest spells, most significant octet first. */
  function Value(s: seq<byte>): nat {
    if |s| == 0 then 0 else s[0] as nat * Pow2(8 * (|s| - 1)) + Value(s[1..])
  }

  lemma {:induction false} ValueBound(s: seq<byte>)
    ensures Value(s) < Pow2(8 * |s|)
  {
    if |s| > 0 {
      ValueBound(s[1..]);
      Pow2Plus8(8 * (|s| - 1));
      DigitBound(s[0] as nat, 255, Pow2(8 * (|s| - 1)));
    }
  }

  lemma DigitBound(a: nat, b: nat, p: nat)
    requires a <= b
    ensures a * p <= b * p
  {}

  lemma HeadDecides(a: nat, b: nat, p: nat, u: nat, v: nat)
    requires a < b && u < p
    ensures a * p + u < b * p + v
  {
    DigitBound(a + 1, b, p);
    assert (a + 1) * p == a * p + p;
  }

  /** Comparison octet by octet from the front. */
  predicate Less(x: seq<byte>, y: seq<byte>)
    requires |x| == |y|
  {
    |x| > 0 && if x[0] != y[0] then x[0] < y[0] else Less(x[1..], y[1..])
  }

  /** The loop that compares two distances, stopping at the first octet that differs. */
  method DistLess(x: Digest, y: Digest) returns (less: bool)
    ensures less <==> Value(x) < Value(y)
  {
    LessIsNumeric(x, y);
    assert x[0..] == x && y[0..] == y;
    for i := 0 to DIGEST_LEN
      invariant Less(x, y) == Less(x[i..], y[i..])
    {
      if x[i] != y[i] {
        return x[i] < y[i];
      }
      assert x[i..][1..] == x[i + 1..] && y[i..][1..] == y[i + 1..];
    }
    return false;
  }

  /** Octet-wise comparison is comparison of the numbers spelled; so it is a strict total order. */
  lemma {:induction false} LessIsNumeric(x: seq<byte>, y: seq<byte>)
    requires |x| == |y|
    ensures Less(x, y) <==> Value(x) < Value(y)
    ensures Value(x) == Value(y) ==> x == y
  {
    if |x| > 0 {
      LessIsNumeric(x[1..], y[1..]);
      var p := Pow2(8 * (|x| - 1));
      ValueBound(x[1..]);
      ValueBound(y[1..]);
      if x[0] < y[0] {
        HeadDecides(x[0] as nat, y[0] as nat, p, Value(x[1..]), Value(y[1..]));
      } else if y[0] < x[0] {
        HeadDecides(y[0] as nat, x[0] as nat, p, Value(y[1..]), Value(x[1..]));
      } else {
        assert x == [x[0]] + x[1..] && y == [y[0]] + y[1..];
      }
    }
  }

  /** Leading zero bits of an octet, 8 for zero. */
  function LeadingZeros8(b: byte): nat {
    if b >= 128 then 0 else if b >= 64 then 1 else if b >= 32 then 2 else if b >= 16 then 3
    else if b >= 8 then 4 else if b >= 4 then 5 else if b >= 2 then 6 else if b >= 1 then 7 else 8
  }

  /** Octets of leading zeros. */
  function ZeroPrefix(s: seq<byte>): (n: nat)
    ensures n <= |s|
    ensures n < |s| ==> s[n] != 0
    ensures forall i :: 0 <= i < n ==> s[i] == 0
  {
    if |s| == 0 || s[0] != 0 then 0
    else
      var n := ZeroPrefix(s[1..]);
      assert forall i :: 0 < i < |s| ==> s[i] == s[1..][i - 1];
      n + 1
  }

  /** Position of the first differing bit; identical identifiers share bucket 255 with those that differ in the last bit. */
  function BucketIndex(d: Digest): (b: nat)
    ensures b < 256
  {
    var n := ZeroPrefix(d);
    if n < DIGEST_LEN then n * 8 + LeadingZeros8(d[n]) else 255
  }

  method XorLeadingBitIdx(xd: Digest) returns (b: nat)
    ensures b == BucketIndex(xd)
  {
    for i := 0 to DIGEST_LEN
      invariant forall j :: 0 <= j < i ==> xd[j] == 0
    {
      if xd[i] != 0 {
        assert ZeroPrefix(xd) == i;
        return i * 8 + LeadingZeros8(xd[i]);
      }
    }
    return 255;
  }

  lemma {:induction false} ZeroPrefixValue(s: seq<byte>, n: nat)
    requires n <= |s| && forall i :: 0 <= i < n ==> s[i] == 0
    ensures Value(s) == Value(s[n..])
  {
    if n == 0 {
      assert s[0..] == s;
    } else {
      assert s[1..][n - 1..] == s[n..];
      ZeroPrefixValue(s[1..], n - 1);
      assert 0 * Pow2(8 * (|s| - 1)) == 0;
    }
  }

  lemma {:induction false} Pow2Sum(a: nat, b: nat)
    ensures Pow2(a + b) == Pow2(a) * Pow2(b)
  {
    if a > 0 {
      Pow2Sum(a - 1, b);
      assert 2 * Pow2(a - 1) * Pow2(b) == 2 * (Pow2(a - 1) * Pow2(b));
    }
  }

  lemma {:induction false} Pow2Monotone(a: nat, b: nat)
    requires a <= b
    ensures Pow2(a) <= Pow2(b)
    decreases b
  {
    if a < b { Pow2Monotone(a, b - 1); }
  }

  lemma LeadingZerosBound(b: byte)
    requires b != 0
    ensures LeadingZeros8(b) < 8
    ensures Pow2(7 - LeadingZeros8(b)) <= b as nat < Pow2(8 - LeadingZeros8(b))
  {
    assert Pow2(1) == 2 && Pow2(2) == 4 && Pow2(3) == 8 && Pow2(4) == 16;
    assert Pow2(5) == 32 && Pow2(6) == 64 && Pow2(7) == 128 && Pow2(8) == 256;
  }

  /** The bucket index is 255 minus the base-2 logarithm of the distance: bucket b holds distances in [2^(255-b), 2^(256-b)). */
  lemma BucketIsLogDistance(d: Digest)
    ensures Value(d) < Pow2(256 - BucketIndex(d))
    ensures Value(d) > 0 ==> Pow2(255 - BucketIndex(d)) <= Value(d)
    ensures Value(d) == 0 ==> BucketIndex(d) == 255
  {
    var n := ZeroPrefix(d);
    ZeroPrefixValue(d, n);
    if n < DIGEST_LEN {
      LeadingOctetBound(d[n..]);
    } else {
      assert Value(d[n..]) == 0;
    }
  }

  lemma LeadingOctetBound(t: seq<byte>)
    requires |t| > 0 && t[0] != 0
    ensures var k := 8 * |t| - LeadingZeros8(t[0]); k > 0 && Pow2(k - 1) <= Value(t) < Pow2(k)
  {
    var m, b, c := 8 * (|t| - 1), t[0] as nat, LeadingZeros8(t[0]);
    ValueBound(t[1..]);
    LeadingZerosBound(t[0]);
    Pow2Sum(7 - c, m);
    Pow2Sum(8 - c, m);
    DigitBound(Pow2(7 - c), b, Pow2(m));
    Sandwich(b, Pow2(8 - c), Pow2(m), Value(t[1..]));
  }

  lemma Sandwich(b: nat, top: nat, p: nat, u: nat)
    requires b < top && u < p
    ensures b * p + u < top * p
  {
    HeadDecides(b, top, p, u, 0);
  }

  /** A strictly higher bucket index means a strictly smaller distance. */
  lemma HigherBucketIsCloser(x: Digest, y: Digest)
    requires BucketIndex(x) > BucketIndex(y)
    ensures Value(x) < Value(y)
  {
    BucketIsLogDistance(x);
    BucketIsLogDistance(y);
    Pow2Monotone(256 - BucketIndex(x), 255 - BucketIndex(y));
  }
}

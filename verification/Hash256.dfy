/**
  A 256-bit hash in internal (least significant byte first) order, compared and measured as the
  number it stands for.
 */
module Hash256 {
  import opened Bytes

  type Hash256 = s: seq<byte> | |s| == 32 witness Zeros(32)

  datatype Ordering = Less | Equal | Greater

  const ZERO: Hash256 := Zeros(32)

  /** The starting value of every "best so far": 32 bytes of 0xFF. */
  const MAXIMUM: Hash256 := Filled(32)

  function Filled(n: nat): (s: seq<byte>)
    ensures |s| == n && forall i :: 0 <= i < n ==> s[i] == 0xFF
  {
    seq(n, i => 0xFF)
  }

  function Value(h: Hash256): nat { LeValue(h) }

  function ToDisplay(h: Hash256): Hash256 { Reversed(h) }

  function FromDisplay(bytes: Hash256): Hash256 { Reversed(bytes) }

  predicate IsBelow(a: Hash256, b: Hash256) { Value(a) < Value(b) }

  /** How many binary digits `v` has. */
  function BitLength(v: nat): (k: nat)
  {
    if v == 0 then 0 else 1 + BitLength(v / 2)
  }

  lemma {:induction false} BitLengthBounds(v: nat)
    ensures v < Pow2(BitLength(v))
    ensures v > 0 ==> Pow2(BitLength(v) - 1) <= v
  {
    if v > 0 { BitLengthBounds(v / 2); }
  }

  /** `BitLength` is the least exponent whose power of two exceeds `v`. */
  lemma BitLengthLeast(v: nat, k: nat)
    ensures v < Pow2(k) <==> BitLength(v) <= k
  {
    BitLengthBounds(v);
    if BitLength(v) <= k {
      Pow2Monotone(BitLength(v), k);
    } else {
      Pow2Monotone(k, BitLength(v) - 1);
    }
  }

  lemma BitLengthMonotone(v: nat, w: nat)
    requires v <= w
    ensures BitLength(v) <= BitLength(w)
  {
    BitLengthBounds(w);
    BitLengthLeast(v, BitLength(w));
  }

  /** Digits of a number whose top byte is `b`. */
  lemma BitLengthTop(low: nat, m: nat, b: nat)
    requires low < Pow256(m) && b > 0
    ensures BitLength(low + Pow256(m) * b) == 8 * m + BitLength(b)
  {
    var v, k := low + Pow256(m) * b, BitLength(b);
    BitLengthBounds(b);
    Pow256IsPow2(m);
    Pow2Add(8 * m, k);
    Pow2Add(8 * m, k - 1);
    var q := Pow2(8 * m);
    assert v < q * (b + 1) <= q * Pow2(k) by {
      assert q * (b + 1) == q * b + q;
      MulMonotone(q, b + 1, Pow2(k));
    }
    MulMonotone(q, Pow2(k - 1), b);
    BitLengthLeast(v, 8 * m + k);
    BitLengthLeast(v, 8 * m + k - 1);
  }

  lemma MulMonotone(q: nat, x: nat, y: nat)
    requires x <= y
    ensures q * x <= q * y
  {
    assert q * y == q * x + q * (y - x);
  }

  /** `u8::leading_zeros`. */
  function LeadingZeros8(b: byte): (k: nat)
    ensures k == 8 - BitLength(b)
  {
    BitLengthLeast(b, 8);
    assert Pow2(8) == 256;
    8 - BitLength(b)
  }

  function LeadingZeroBits(h: Hash256): (count: nat)
    ensures count <= 256
  {
    LeValueBound(h);
    Pow256IsPow2(32);
    BitLengthLeast(Value(h), 256);
    256 - BitLength(Value(h))
  }

  /** A hash has at least `k` leading zero bits exactly when it is below 2^(256-k). */
  lemma LeadingZeroBitsMeaning(h: Hash256, k: nat)
    requires k <= 256
    ensures LeadingZeroBits(h) >= k <==> Value(h) < Pow2(256 - k)
  {
    BitLengthLeast(Value(h), 256 - k);
  }

  lemma LeadingZeroBitsAntitone(a: Hash256, b: Hash256)
    requires Value(a) <= Value(b)
    ensures LeadingZeroBits(a) >= LeadingZeroBits(b)
  {
    BitLengthMonotone(Value(a), Value(b));
  }

  /** The first difference from the most significant end decides. */
  lemma {:induction false} FirstDifferenceDecides(a: seq<byte>, b: seq<byte>, i: nat)
    requires |a| == |b| && i < |a|
    requires a[i + 1..] == b[i + 1..] && a[i] < b[i]
    ensures LeValue(a) < LeValue(b)
  {
    LeValueConcat(a[..i + 1], a[i + 1..]);
    LeValueConcat(b[..i + 1], b[i + 1..]);
    assert a == a[..i + 1] + a[i + 1..] && b == b[..i + 1] + b[i + 1..];
    LeValueLast(a[..i + 1]);
    LeValueLast(b[..i + 1]);
    assert a[..i + 1][..i] == a[..i] && b[..i + 1][..i] == b[..i];
    LeValueBound(a[..i]);
    MulMonotone(Pow256(i), a[i] + 1, b[i]);
    assert Pow256(i) * (a[i] + 1) == Pow256(i) * a[i] + Pow256(i);
  }

  /** Walks down from the most significant byte to the first difference. */
  method NumericCmp(a: Hash256, b: Hash256) returns (o: Ordering)
    ensures o.Less? <==> Value(a) < Value(b)
    ensures o.Equal? <==> a == b
    ensures o.Greater? <==> Value(a) > Value(b)
  {
    for i := 32 downto 0
      invariant a[i..] == b[i..]
    {
      if a[i] < b[i] {
        FirstDifferenceDecides(a, b, i);
        return Less;
      } else if b[i] < a[i] {
        FirstDifferenceDecides(b, a, i);
        return Greater;
      }
      assert a[i..] == [a[i]] + a[i + 1..];
      assert b[i..] == [b[i]] + b[i + 1..];
    }
    assert a[0..] == a && b[0..] == b;
    return Equal;
  }

  /** Equal numbers are equal hashes. */
  lemma ValueInjective(a: Hash256, b: Hash256)
    requires Value(a) == Value(b)
    ensures a == b
  {
    LeBytesOfLeValue(a);
    LeBytesOfLeValue(b);
  }

  lemma {:induction false} MaximumIsMaximal(h: Hash256)
    ensures Value(h) <= Value(MAXIMUM)
  {
    AllOnes(32);
    LeValueBound(h);
  }

  lemma {:induction false} AllOnes(n: nat)
    ensures LeValue(Filled(n)) == Pow256(n) - 1
  {
    var s := Filled(n);
    if n > 0 {
      AllOnes(n - 1);
      assert s[1..] == Filled(n - 1);
    }
  }

  /** What dropping a run of leading zero bytes leaves, and what the first other byte adds. */
  lemma LeadingZerosSoFar(s: seq<byte>, m: nat)
    requires 0 < m <= |s| && forall j :: m <= j < |s| ==> s[j] == 0
    ensures s[m - 1] != 0 ==> BitLength(LeValue(s)) == 8 * (m - 1) + BitLength(s[m - 1])
    ensures LeValue(s) == LeValue(s[..m])
  {
    hide Pow256, BitLength, LeValue;
    var low := s[..m];
    assert s == low + Zeros(|s| - m);
    LeValueConcat(low, Zeros(|s| - m));
    LeValueZeros(|s| - m);
    assert Pow256(m) * 0 == 0;
    if s[m - 1] != 0 { TopByte(low); }
  }

  lemma TopByte(s: seq<byte>)
    requires s != [] && s[|s| - 1] != 0
    ensures BitLength(LeValue(s)) == 8 * (|s| - 1) + BitLength(s[|s| - 1])
  {
    hide Pow256, BitLength, LeValue;
    LeValueLast(s);
    LeValueBound(s[..|s| - 1]);
    BitLengthTop(LeValue(s[..|s| - 1]), |s| - 1, s[|s| - 1]);
  }

  /** Adds up zero bits from the displayed front, stopping in the first byte that is not zero. */
  method CountLeadingZeroBits(h: Hash256) returns (count: nat)
    ensures count == LeadingZeroBits(h)
  {
    count := 0;
    for m := 32 downto 0
      invariant count == 8 * (32 - m)
      invariant forall j :: m <= j < 32 ==> h[j] == 0
    {
      LeadingZerosSoFar(h, m + 1);
      count := count + LeadingZeros8(h[m]);
      if h[m] != 0 { return; }
    }
    assert h == Zeros(32);
    LeValueZeros(32);
  }
}

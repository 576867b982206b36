/**
  Machine integers, their little- and big-endian byte strings, and bytewise exclusive or.

  Integers are mathematical; every fixed width of the source is a subset type, and every
  wrap-around is written out where it happens.
 */
module Bytes {

  type byte = n: int | 0 <= n < 0x100
  type u16 = n: int | 0 <= n < 0x1_0000
  type u32 = n: int | 0 <= n < 0x1_0000_0000
  type u64 = n: int | 0 <= n < 0x1_0000_0000_0000_0000
  type i32 = n: int | -0x8000_0000 <= n < 0x8000_0000

  const TWO_32: int := 0x1_0000_0000
  const TWO_64: int := 0x1_0000_0000_0000_0000

  /** Two's complement. */
  function ToSigned(v: u32): i32 { if v < 0x8000_0000 then v else v - TWO_32 }

  function ToUnsigned(v: i32): u32 { if v >= 0 then v else v + TWO_32 }

  function Pow2(n: nat): (p: nat)
    ensures p > 0
  {
    if n == 0 then 1 else 2 * Pow2(n - 1)
  }

  function Pow256(n: nat): (p: nat)
    ensures p > 0
  {
    if n == 0 then 1 else 256 * Pow256(n - 1)
  }

  lemma {:induction false} Pow2Add(m: nat, n: nat)
    ensures Pow2(m + n) == Pow2(m) * Pow2(n)
  {
    if m == 0 {
    } else {
      Pow2Add(m - 1, n);
      assert 2 * (Pow2(m - 1) * Pow2(n)) == (2 * Pow2(m - 1)) * Pow2(n);
    }
  }

  lemma {:induction false} Pow256Add(m: nat, n: nat)
    ensures Pow256(m + n) == Pow256(m) * Pow256(n)
  {
    if m == 0 {
    } else {
      Pow256Add(m - 1, n);
      assert 256 * (Pow256(m - 1) * Pow256(n)) == (256 * Pow256(m - 1)) * Pow256(n);
    }
  }

  /** 256^n is 2^(8n). */
  lemma {:induction false} Pow256IsPow2(n: nat)
    ensures Pow256(n) == Pow2(8 * n)
  {
    if n == 0 {
    } else {
      Pow256IsPow2(n - 1);
      Pow2Add(8, 8 * (n - 1));
      assert Pow2(8) == 256;
    }
  }

  lemma {:induction false} Pow2Monotone(m: nat, n: nat)
    requires m <= n
    ensures Pow2(m) <= Pow2(n)
    decreases n
  {
    if m < n { Pow2Monotone(m, n - 1); }
  }

  lemma Pow256Widths()
    ensures Pow256(1) == 0x100 && Pow256(2) == 0x1_0000 && Pow256(4) == TWO_32 && Pow256(8) == TWO_64
  {
    Pow256Add(2, 2);
    Pow256Add(4, 4);
  }

  /** A run of zero bytes, as the source's `[0u8; N]`. */
  function Zeros(n: nat): (s: seq<byte>)
    ensures |s| == n && forall i :: 0 <= i < n ==> s[i] == 0
  {
    seq(n, i => 0)
  }

  function Reversed<T>(s: seq<T>): (r: seq<T>)
    ensures |r| == |s|
    ensures forall i :: 0 <= i < |s| ==> r[i] == s[|s| - 1 - i]
  {
    seq(|s|, i requires 0 <= i < |s| => s[|s| - 1 - i])
  }

  lemma ReversedTwice<T>(s: seq<T>)
    ensures Reversed(Reversed(s)) == s
  {
    assert forall i :: 0 <= i < |s| ==> Reversed(Reversed(s))[i] == s[i];
  }

  lemma Regroup<T>(a: seq<T>, b: seq<T>, c: seq<T>)
    ensures a + (b + c) == a + b + c
  {
  }

  lemma TakeStep<T>(s: seq<T>, n: nat)
    requires n < |s|
    ensures s[..n + 1] == s[..n] + [s[n]]
  {
  }

  /** `v.to_le_bytes()` for an `n`-byte integer; the excess is dropped, as a cast drops it. */
  function LeBytes(v: nat, n: nat): (s: seq<byte>)
    ensures |s| == n
  {
    if n == 0 then [] else [v % 256] + LeBytes(v / 256, n - 1)
  }

  /** `from_le_bytes`, at any width. */
  function LeValue(s: seq<byte>): (v: nat)
  {
    if s == [] then 0 else s[0] + 256 * LeValue(s[1..])
  }

  function BeBytes(v: nat, n: nat): (s: seq<byte>)
    ensures |s| == n
  {
    Reversed(LeBytes(v, n))
  }

  function BeValue(s: seq<byte>): nat
  {
    LeValue(Reversed(s))
  }

  lemma {:induction false} LeValueBound(s: seq<byte>)
    ensures LeValue(s) < Pow256(|s|)
  {
    if s != [] { LeValueBound(s[1..]); }
  }

  /** Writing an integer that fits and reading it back is the identity. */
  lemma {:induction false} LeValueOfLeBytes(v: nat, n: nat)
    requires v < Pow256(n)
    ensures LeValue(LeBytes(v, n)) == v
  {
    if n > 0 {
      LeValueOfLeBytes(v / 256, n - 1);
      assert LeBytes(v, n)[1..] == LeBytes(v / 256, n - 1);
    }
  }

  /** Reading `n` bytes and writing them back is the identity. */
  lemma {:induction false} LeBytesOfLeValue(s: seq<byte>)
    ensures LeBytes(LeValue(s), |s|) == s
  {
    if s != [] {
      LeBytesOfLeValue(s[1..]);
      assert LeValue(s) % 256 == s[0] && LeValue(s) / 256 == LeValue(s[1..]);
    }
  }

  lemma BeValueOfBeBytes(v: nat, n: nat)
    requires v < Pow256(n)
    ensures BeValue(BeBytes(v, n)) == v
  {
    ReversedTwice(LeBytes(v, n));
    LeValueOfLeBytes(v, n);
  }

  lemma BeBytesOfBeValue(s: seq<byte>)
    ensures BeBytes(BeValue(s), |s|) == s
  {
    LeBytesOfLeValue(Reversed(s));
    ReversedTwice(s);
  }

  /** Two equal-width encodings of integers that fit are equal only for equal integers. */
  lemma LeBytesInjective(v: nat, w: nat, n: nat)
    requires v < Pow256(n) && w < Pow256(n)
    requires LeBytes(v, n) == LeBytes(w, n)
    ensures v == w
  {
    LeValueOfLeBytes(v, n);
    LeValueOfLeBytes(w, n);
  }

  /** What does not fit is dropped. */
  lemma {:induction false} LeBytesDrop(n: nat, k: nat)
    ensures LeBytes(n, k) == LeBytes(n % Pow256(k), k)
  {
    if k > 0 {
      var p := Pow256(k - 1);
      var q, r := n / (256 * p), n % (256 * p);
      DivUnique(r, 256, r / 256, r % 256);
      DivUnique(n, 256, p * q + r / 256, r % 256);
      DivUnique(n / 256, p, q, r / 256);
      LeBytesDrop(n / 256, k - 1);
    }
  }

  lemma BeBytesInjective(v: nat, w: nat, n: nat)
    requires v < Pow256(n) && w < Pow256(n)
    requires BeBytes(v, n) == BeBytes(w, n)
    ensures v == w
  {
    BeValueOfBeBytes(v, n);
    BeValueOfBeBytes(w, n);
  }

  lemma {:induction false} LeValueConcat(a: seq<byte>, b: seq<byte>)
    ensures LeValue(a + b) == LeValue(a) + Pow256(|a|) * LeValue(b)
  {
    if a == [] {
      assert a + b == b;
    } else {
      LeValueConcat(a[1..], b);
      assert (a + b)[1..] == a[1..] + b;
      assert 256 * (Pow256(|a| - 1) * LeValue(b)) == Pow256(|a|) * LeValue(b);
    }
  }

  /** The most significant end of a little-endian string is its last byte. */
  lemma LeValueLast(s: seq<byte>)
    requires s != []
    ensures LeValue(s) == LeValue(s[..|s| - 1]) + Pow256(|s| - 1) * s[|s| - 1]
  {
    var k := |s| - 1;
    LeValueConcat(s[..k], s[k..]);
    assert s == s[..k] + s[k..];
    assert s[k..][1..] == [];
    assert LeValue(s[k..]) == s[k];
  }

  /** The most significant byte of a big-endian string is its first. */
  lemma BeValueFirst(s: seq<byte>)
    requires s != []
    ensures BeValue(s) == Pow256(|s| - 1) * s[0] + BeValue(s[1..])
  {
    var r := Reversed(s);
    LeValueLast(r);
    assert r[..|s| - 1] == Reversed(s[1..]);
  }

  lemma {:induction false} LeValueZeros(n: nat)
    ensures LeValue(Zeros(n)) == 0
  {
    if n > 0 {
      LeValueZeros(n - 1);
      assert Zeros(n)[1..] == Zeros(n - 1);
    }
  }

  // ----- exclusive or -----

  /** Exclusive or of the low `n` bits, one bit at a time. */
  function XorBits(a: nat, b: nat, n: nat): (x: nat)
    ensures x < Pow2(n)
  {
    if n == 0 then 0 else (a % 2 + b % 2) % 2 + 2 * XorBits(a / 2, b / 2, n - 1)
  }

  /** `a ^ b` on bytes. */
  function Xor(a: byte, b: byte): (x: byte)
  {
    assert Pow2(8) == 256;
    XorBits(a, b, 8)
  }

  lemma {:induction false} XorBitsZero(a: nat, n: nat)
    requires a < Pow2(n)
    ensures XorBits(a, 0, n) == a
  {
    if n > 0 { XorBitsZero(a / 2, n - 1); }
  }

  lemma XorStep(p: nat, q: nat, y: nat, x: nat)
    requires p < 2 && q < 2 && x == (p + q) % 2 + 2 * y
    ensures x / 2 == y && (x % 2 + q) % 2 == p
  {
    if p == q { assert x == 2 * y; } else { assert x == 1 + 2 * y; }
  }

  lemma {:induction false} XorBitsFixed(a: nat, b: nat, n: nat)
    requires b < Pow2(n)
    requires XorBits(a, b, n) == a
    ensures b == 0
  {
    if n > 0 {
      assert (a % 2 + b % 2) % 2 == a % 2;
      XorBitsFixed(a / 2, b / 2, n - 1);
    }
  }

  /** A mask below 2^k leaves every bit from k upwards alone. */
  lemma {:induction false} XorBitsHigh(a: nat, b: nat, n: nat, k: nat)
    requires k <= n && a < Pow2(n) && b < Pow2(k)
    ensures XorBits(a, b, n) / Pow2(k) == a / Pow2(k)
  {
    if k == 0 {
      XorBitsZero(a, n);
    } else {
      XorBitsHigh(a / 2, b / 2, n - 1, k - 1);
      var x := XorBits(a, b, n);
      assert x / 2 == XorBits(a / 2, b / 2, n - 1);
      DivDiv(x, Pow2(k - 1));
      DivDiv(a, Pow2(k - 1));
    }
  }

  lemma DivDiv(x: nat, d: nat)
    requires d > 0
    ensures x / (2 * d) == x / 2 / d
  {
    var q := x / 2 / d;
    var r := x / 2 % d;
    assert x / 2 == q * d + r;
    assert x == (2 * d) * q + (2 * r + x % 2);
    DivUnique(x, 2 * d, q, 2 * r + x % 2);
  }

  lemma ModAtMost(x: nat, d: nat)
    requires d > 0
    ensures x % d <= x
  {
    if x < d { DivUnique(x, d, 0, x); }
  }

  /** Euclidean division has one answer. */
  lemma DivUnique(x: int, d: nat, q: int, r: int)
    requires d > 0 && x == d * q + r && 0 <= r < d
    ensures x / d == q && x % d == r
  {
    var k := x / d - q;
    assert x == d * (x / d) + x % d;
    assert d * k == r - x % d;
    if k >= 1 { MulAtLeast(d, k); }
  }

  lemma MulAtLeast(d: nat, k: nat)
    requires k >= 1
    ensures d * k >= d
  {
    assert d * k == d + d * (k - 1);
  }

  lemma XorZero(a: byte)
    ensures Xor(a, 0) == a
  {
    assert Pow2(8) == 256;
    XorBitsZero(a, 8);
  }

  lemma XorFixed(a: byte, b: byte)
    ensures Xor(a, b) == a <==> b == 0
  {
    assert Pow2(8) == 256;
    XorBitsZero(a, 8);
    if Xor(a, b) == a { XorBitsFixed(a, b, 8); }
  }

  /** Bytewise exclusive or of equal-length strings. */
  function XorSeq(a: seq<byte>, b: seq<byte>): (x: seq<byte>)
    requires |a| == |b|
    ensures |x| == |a|
    ensures forall i :: 0 <= i < |a| ==> x[i] == Xor(a[i], b[i])
  {
    seq(|a|, i requires 0 <= i < |a| => Xor(a[i], b[i]))
  }

  /** Exclusive or works on low and high parts separately. */
  lemma {:induction false} XorBitsConcat(a: nat, b: nat, x: nat, y: nat, k: nat, m: nat)
    requires a < Pow2(k) && b < Pow2(k)
    ensures XorBits(a + Pow2(k) * x, b + Pow2(k) * y, k + m) == XorBits(a, b, k) + Pow2(k) * XorBits(x, y, m)
  {
    if k > 0 {
      var p := Pow2(k - 1);
      HalveConcat(a, p, x);
      HalveConcat(b, p, y);
      XorBitsConcat(a / 2, b / 2, x, y, k - 1, m);
      XorConcatStep(a, b, x, y, k, m, p);
    }
  }

  lemma XorConcatStep(a: nat, b: nat, x: nat, y: nat, k: nat, m: nat, p: nat)
    requires k > 0 && p == Pow2(k - 1)
    requires XorBits(a / 2 + p * x, b / 2 + p * y, k - 1 + m) == XorBits(a / 2, b / 2, k - 1) + p * XorBits(x, y, m)
    ensures XorBits(a + Pow2(k) * x, b + Pow2(k) * y, k + m) == XorBits(a, b, k) + Pow2(k) * XorBits(x, y, m)
  {
    hide XorBits, Pow2;
    Pow2Step(k);
    var u, v, z := a + 2 * p * x, b + 2 * p * y, XorBits(x, y, m);
    HalveConcat(a, p, x);
    HalveConcat(b, p, y);
    XorBitsUnfold(u, v, k + m);
    XorBitsUnfold(a, b, k);
    assert 2 * (p * z) == 2 * p * z;
  }

  lemma Pow2Step(k: nat)
    requires k > 0
    ensures Pow2(k) == 2 * Pow2(k - 1)
  {
  }

  lemma XorBitsUnfold(a: nat, b: nat, n: nat)
    requires n > 0
    ensures XorBits(a, b, n) == (a % 2 + b % 2) % 2 + 2 * XorBits(a / 2, b / 2, n - 1)
  {
  }

  lemma HalveConcat(a: nat, p: nat, x: nat)
    ensures (a + 2 * p * x) / 2 == a / 2 + p * x && (a + 2 * p * x) % 2 == a % 2
  {
    assert 2 * p * x == 2 * (p * x);
  }

  /** The bytes of an exclusive or spell the exclusive or of the numbers. */
  lemma {:induction false} LeValueXor(a: seq<byte>, b: seq<byte>)
    requires |a| == |b|
    ensures LeValue(XorSeq(a, b)) == XorBits(LeValue(a), LeValue(b), 8 * |a|)
  {
    if a != [] {
      assert XorSeq(a, b)[1..] == XorSeq(a[1..], b[1..]);
      LeValueXor(a[1..], b[1..]);
      assert Pow2(8) == 256;
      XorBitsConcat(a[0], b[0], LeValue(a[1..]), LeValue(b[1..]), 8, 8 * (|a| - 1));
    }
  }

  lemma ReversedXor(a: seq<byte>, b: seq<byte>)
    requires |a| == |b|
    ensures Reversed(XorSeq(a, b)) == XorSeq(Reversed(a), Reversed(b))
  {
    hide Xor;
  }

  lemma BeValueXor(a: seq<byte>, b: seq<byte>)
    requires |a| == |b|
    ensures BeValue(XorSeq(a, b)) == XorBits(BeValue(a), BeValue(b), 8 * |a|)
  {
    hide Xor, XorBits, LeValue;
    ReversedXor(a, b);
    LeValueXor(Reversed(a), Reversed(b));
  }
}

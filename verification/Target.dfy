/** Difficulty targets: 256-bit numbers, big-endian, and the compact format that encodes them. */
module Target {
  import opened Wrappers
  import opened Bytes
  import opened Hash256

  type Target = s: seq<byte> | |s| == 32 witness Zeros(32)

  datatype TargetError = Negative | Overflow

  function TargetValue(t: Target): nat { BeValue(t) }

  function Exponent(bits: u32): (e: nat) { bits / 0x100_0000 }

  function Mantissa(bits: u32): (m: nat) { bits % 0x80_0000 }

  predicate SignBit(bits: u32) { bits / 0x80_0000 % 2 == 1 }

  /** floor(mantissa * 256^(exponent - 3)), in exact integer arithmetic. */
  function CompactValue(bits: u32): (v: nat)
  {
    var e, m := Exponent(bits), Mantissa(bits);
    if e >= 3 then Times(m, Pow256(e - 3)) else Quotient(m, Pow256(3 - e))
  }

  function Times(m: nat, p: nat): nat { m * p }

  function Quotient(m: nat, p: nat): nat
    requires p > 0
  {
    m / p
  }

  /** What a compact field denotes: nothing when signed or too wide, else its exact value. */
  function FromCompact(bits: u32): (r: Result<Target, TargetError>)
  {
    if SignBit(bits) then Failure(Negative)
    else if CompactValue(bits) >= Pow256(32) then Failure(Overflow)
    else Success(BeBytes(CompactValue(bits), 32))
  }

  /** The i-th most significant of the three mantissa bytes. */
  function MantissaByte(bits: u32, i: nat): byte
    requires i < 3
  {
    if i == 0 then Mantissa(bits) / 0x1_0000 else if i == 1 then Mantissa(bits) / 0x100 % 0x100 else Mantissa(bits) % 0x100
  }

  /** The mantissa bytes before the i-th, each at its power of 256; powers below zero fall away. */
  function PlacedBytes(bits: u32, i: nat): nat
    requires i <= 3
  {
    if i == 0 then 0
    else
      var power := Exponent(bits) as int - i;
      PlacedBytes(bits, i - 1) + if power >= 0 then Pow256(power) * MantissaByte(bits, i - 1) else 0
  }

  lemma MantissaSplits(bits: u32)
    ensures Mantissa(bits) == 0x1_0000 * MantissaByte(bits, 0) as int + 0x100 * MantissaByte(bits, 1) as int + MantissaByte(bits, 2)
  {
  }

  /** Exponents of three and up only scale. */
  lemma PlacedWide(bits: u32, p: nat)
    requires Exponent(bits) >= 3 && p == Pow256(Exponent(bits) - 3)
    ensures PlacedBytes(bits, 3) == Mantissa(bits) * p
  {
    var e := Exponent(bits);
    var b0: int, b1: int, b2: int := MantissaByte(bits, 0), MantissaByte(bits, 1), MantissaByte(bits, 2);
    assert Pow256(e - 2) == 256 * p && Pow256(e - 1) == 256 * Pow256(e - 2);
    assert PlacedBytes(bits, 1) == Pow256(e - 1) * b0;
    assert PlacedBytes(bits, 2) == PlacedBytes(bits, 1) + Pow256(e - 2) * b1;
    assert PlacedBytes(bits, 3) == PlacedBytes(bits, 2) + p * b2;
    Distribute(p, b0, b1, b2);
    MantissaSplits(bits);
  }

  lemma Distribute(p: int, b0: int, b1: int, b2: int)
    ensures 0x1_0000 * p * b0 + 256 * p * b1 + p * b2 == (0x1_0000 * b0 + 0x100 * b1 + b2) * p
  {
  }

  /** Exponents below three shift mantissa bytes off the bottom, which is floor division. */
  lemma PlacedNarrow(bits: u32)
    requires Exponent(bits) < 3
    ensures PlacedBytes(bits, 3) == Mantissa(bits) / Pow256(3 - Exponent(bits))
  {
    var e := Exponent(bits);
    Pow256Widths();
    assert Pow256(0) == 1 && Pow256(3) == 0x100_0000;
    assert PlacedBytes(bits, 1) == if e == 0 then 0 else Pow256(e - 1) * MantissaByte(bits, 0);
    assert PlacedBytes(bits, 2) == PlacedBytes(bits, 1) + if e < 2 then 0 else Pow256(e - 2) * MantissaByte(bits, 1);
    MantissaSplits(bits);
  }

  lemma AllPlaced(bits: u32)
    ensures PlacedBytes(bits, 3) == CompactValue(bits)
  {
    if Exponent(bits) >= 3 { PlacedWide(bits, Pow256(Exponent(bits) - 3)); } else { PlacedNarrow(bits); }
  }

  /** A non-zero mantissa byte above the top of the number makes the value too wide. */
  lemma ByteOverflows(bits: u32, i: nat)
    requires i < 3 && Exponent(bits) - 1 - i > 31 && MantissaByte(bits, i) != 0
    ensures CompactValue(bits) >= Pow256(32)
  {
    hide Pow256, CompactValue, MantissaByte, PlacedBytes;
    var power := Exponent(bits) - 1 - i;
    AllPlaced(bits);
    PlacedStep(bits, i);
    MulAtLeast(Pow256(power), MantissaByte(bits, i));
    PlacedGrows(bits, i + 1);
    Pow256Add(32, power - 32);
    MulAtLeast(Pow256(32), Pow256(power - 32));
  }

  lemma PlacedStep(bits: u32, i: nat)
    requires i < 3 && Exponent(bits) - 1 - i >= 0
    ensures PlacedBytes(bits, i + 1) == PlacedBytes(bits, i) + Pow256(Exponent(bits) - 1 - i) * MantissaByte(bits, i)
  {
    hide Pow256, MantissaByte;
  }

  lemma {:induction false} PlacedGrows(bits: u32, i: nat)
    requires i <= 3
    ensures PlacedBytes(bits, i) <= PlacedBytes(bits, 3)
    decreases 3 - i
  {
    if i < 3 { PlacedGrows(bits, i + 1); }
  }

  /** Writing a byte over a zero adds that byte at its power of 256. */
  lemma SetByte(s: seq<byte>, p: nat, b: byte)
    requires p < |s| && s[p] == 0
    ensures LeValue(s[p := b]) == LeValue(s) + Pow256(p) * b
  {
    var t := s[p := b];
    assert s == s[..p] + ([0] + s[p + 1..]) && t == s[..p] + ([b] + s[p + 1..]);
    LeValueConcat(s[..p], [0] + s[p + 1..]);
    LeValueConcat(s[..p], [b] + s[p + 1..]);
    assert ([0] + s[p + 1..])[1..] == s[p + 1..] == ([b] + s[p + 1..])[1..];
    assert Pow256(p) * (b + 256 * LeValue(s[p + 1..])) == Pow256(p) * b + Pow256(p) * (256 * LeValue(s[p + 1..]));
  }

  /** Places the three mantissa bytes one at a time, as the source does. */
  method DecodeCompact(bits: u32) returns (r: Result<Target, TargetError>)
    ensures r == FromCompact(bits)
  {
    var exponent := bits / 0x100_0000;
    if bits / 0x80_0000 % 2 != 0 {
      return Failure(Negative);
    }
    var bytes := new byte[32](i => 0);
    assert Reversed(bytes[..]) == Zeros(32);
    LeValueZeros(32);
    for i := 0 to 3
      invariant fresh(bytes)
      invariant forall k :: 0 <= k < 32 && 31 - k <= exponent - 1 - i ==> bytes[k] == 0
      invariant BeValue(bytes[..]) == PlacedBytes(bits, i)
    {
      var power := exponent - 1 - i;
      var b := MantissaByte(bits, i);
      if power > 31 {
        if b != 0 {
          ByteOverflows(bits, i);
          return Failure(Overflow);
        }
      } else if power >= 0 {
        ghost var before := Reversed(bytes[..]);
        SetByte(before, power, b);
        bytes[31 - power] := b;
        assert Reversed(bytes[..]) == before[power := b];
      }
    }
    AllPlaced(bits);
    LeValueBound(Reversed(bytes[..]));
    BeBytesOfBeValue(bytes[..]);
    return Success(bytes[..]);
  }

  /** The win condition: the hash, read as a number, is at most the target. */
  predicate IsMetBy(t: Target, h: Hash256) { Value(h) <= TargetValue(t) }

  /** Walks hash and target from opposite ends to their first difference. */
  method CheckMet(t: Target, h: Hash256) returns (met: bool)
    ensures met <==> IsMetBy(t, h)
  {
    ghost var le := Reversed(t);
    for i := 0 to 32
      invariant forall j :: 32 - i <= j < 32 ==> h[j] == le[j]
    {
      var hashByte, targetByte := h[31 - i], t[i];
      if hashByte != targetByte {
        assert h[32 - i..] == le[32 - i..];
        if hashByte < targetByte {
          FirstDifferenceDecides(h, le, 31 - i);
        } else {
          FirstDifferenceDecides(le, h, 31 - i);
        }
        return hashByte < targetByte;
      }
    }
    assert h == le;
    return true;
  }

  function TargetLeadingZeroBits(t: Target): nat { LeadingZeroBits(Reversed(t)) }

  /** The reporting threshold is sound: no hash with fewer leading zero bits can meet the target. */
  lemma MeetingNeedsLeadingZeros(t: Target, h: Hash256)
    requires IsMetBy(t, h)
    ensures LeadingZeroBits(h) >= TargetLeadingZeroBits(t)
  {
    LeadingZeroBitsAntitone(h, Reversed(t));
  }

  method CountTargetLeadingZeroBits(t: Target) returns (count: nat)
    ensures count == TargetLeadingZeroBits(t)
  {
    count := 0;
    ghost var le := Reversed(t);
    for i := 0 to 32
      invariant count == 8 * i
      invariant forall j :: 32 - i <= j < 32 ==> le[j] == 0
    {
      LeadingZerosSoFar(le, 32 - i);
      count := count + LeadingZeros8(t[i]);
      if t[i] != 0 { return; }
    }
    assert le == Zeros(32);
    LeValueZeros(32);
  }

  /** The compact field of difficulty one. */
  lemma DifficultyOne()
    ensures !SignBit(0x1D00_FFFF) && CompactValue(0x1D00_FFFF) == 0xFFFF * Pow2(208) < Pow2(256)
  {
    assert Exponent(0x1D00_FFFF) == 29 && Mantissa(0x1D00_FFFF) == 0xFFFF && !SignBit(0x1D00_FFFF);
    hide Pow2, Pow256;
    Pow256IsPow2(26);
    SixteenBits();
    Pow2Add(208, 16);
    MulMonotone(Pow2(208), 0xFFFF, 0x1_0000);
    Pow2Grows(224, 256);
  }

  lemma SixteenBits()
    ensures Pow2(16) == 0x1_0000
  {
    Pow2Add(8, 8);
    assert Pow2(8) == 256;
  }

  lemma Pow2Grows(m: nat, n: nat)
    requires m < n
    ensures Pow2(m) < Pow2(n)
  {
    Pow2Monotone(m + 1, n);
  }

  /** Success is exact: the sign bit is clear, the exact value fits, and the bytes denote it. */
  lemma FromCompactExact(bits: u32)
    ensures FromCompact(bits).Success? <==> !SignBit(bits) && CompactValue(bits) < Pow2(256)
    ensures FromCompact(bits).Success? ==> TargetValue(FromCompact(bits).value) == CompactValue(bits)
    ensures FromCompact(bits) == Failure(Negative) <==> SignBit(bits)
  {
    Pow256IsPow2(32);
    if FromCompact(bits).Success? { BeValueOfBeBytes(CompactValue(bits), 32); }
  }
}

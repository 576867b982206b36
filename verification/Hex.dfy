/** Hexadecimal text: bytes, fixed-width integers, and the standard library's radix parser. */
module Hex {
  import opened Wrappers
  import opened Bytes

  datatype HexError = OddLength(len: nat) | NotHex(offset: nat, found: string) | BadLength(expected: nat, actual: nat)

  function DigitChar(d: nat): char
    requires d < 16
  {
    "0123456789abcdef"[d]
  }

  function DigitValue(c: char): (d: Option<nat>)
    ensures d.Some? ==> d.value < 16
  {
    if '0' <= c <= '9' then Some(c as int - '0' as int)
    else if 'a' <= c <= 'f' then Some(c as int - 'a' as int + 10)
    else if 'A' <= c <= 'F' then Some(c as int - 'A' as int + 10)
    else None
  }

  function EncodeByte(b: byte): (s: string)
    ensures |s| == 2
  {
    [DigitChar(b / 16), DigitChar(b % 16)]
  }

  function Encode(bytes: seq<byte>): (s: string)
    ensures |s| == 2 * |bytes|
  {
    if bytes == [] then "" else EncodeByte(bytes[0]) + Encode(bytes[1..])
  }

  /** The number a run of digits spells, most significant first. */
  function DigitsValue(s: string): Option<nat>
  {
    if s == "" then Some(0)
    else
      var front, last := DigitsValue(s[..|s| - 1]), DigitValue(s[|s| - 1]);
      if front.Some? && last.Some? then Some(16 * front.value + last.value) else None
  }

  /** `from_str_radix(s, 16)` for an unsigned type with maximum `max`: one leading `+` is allowed. */
  function ParseRadix16(s: string, max: nat): (v: Option<nat>)
    ensures v.Some? ==> v.value <= max
  {
    if s == "" then None
    else
      var digits := if s[0] == '+' && |s| > 1 then s[1..] else s;
      match DigitsValue(digits)
      case None => None
      case Some(v) => if v <= max then Some(v) else None
  }

  /** Decodes the pairs from `offset` on; the first bad pair is the one reported. */
  function DecodePairs(s: string, offset: nat): (r: Result<seq<byte>, HexError>)
    requires |s| % 2 == 0 && offset % 2 == 0 && offset <= |s|
    decreases |s| - offset
  {
    if offset == |s| then Success([])
    else
      var pair := s[offset..offset + 2];
      match ParseRadix16(pair, 0xFF)
      case None => Failure(NotHex(offset, pair))
      case Some(b) =>
        var rest :- DecodePairs(s, offset + 2);
        Success([b] + rest)
  }

  function Decode(s: string): Result<seq<byte>, HexError>
  {
    if |s| % 2 != 0 then Failure(OddLength(|s|)) else DecodePairs(s, 0)
  }

  function DecodeArray(s: string, n: nat): (r: Result<seq<byte>, HexError>)
    ensures r.Success? ==> |r.value| == n
  {
    var bytes :- Decode(s);
    if |bytes| == n then Success(bytes) else Failure(BadLength(n, |bytes|))
  }

  /** `{:08x}` of a 32-bit integer. */
  function FormatU32(v: u32): (s: string)
    ensures |s| == 8
  {
    Encode(BeBytes(v, 4))
  }

  lemma DigitCharValue(d: nat)
    requires d < 16
    ensures DigitValue(DigitChar(d)) == Some(d) && DigitChar(d) != '+'
  {
  }

  lemma EncodeByteValue(b: byte)
    ensures ParseRadix16(EncodeByte(b), 0xFF) == Some(b)
  {
    var s := EncodeByte(b);
    DigitCharValue(b / 16);
    DigitCharValue(b % 16);
    assert s[..1] == [s[0]] && s[..1][..0] == "";
    assert DigitsValue(s[..1]) == Some(b / 16);
  }

  lemma {:induction false} DecodePairsOfEncode(prefix: seq<byte>, bytes: seq<byte>)
    ensures DecodePairs(Encode(prefix) + Encode(bytes), 2 * |prefix|) == Success(bytes)
    decreases |bytes|
  {
    hide EncodeByte, ParseRadix16, DigitsValue;
    var s, offset := Encode(prefix) + Encode(bytes), 2 * |prefix|;
    if bytes == [] {
      assert offset == |s|;
    } else {
      var first, rest := bytes[0], bytes[1..];
      EncodeByteValue(first);
      FirstPair(prefix, first, rest);
      DecodePairsOfEncode(prefix + [first], rest);
      assert bytes == [first] + rest;
    }
  }

  lemma FirstPair(prefix: seq<byte>, first: byte, rest: seq<byte>)
    ensures var s := Encode(prefix) + Encode([first] + rest);
      && s[2 * |prefix|..2 * |prefix| + 2] == EncodeByte(first)
      && s == Encode(prefix + [first]) + Encode(rest)
  {
    hide Encode, EncodeByte;
    EncodeSnoc(prefix, first);
    EncodeFirst(first, rest);
    MiddlePart(Encode(prefix), EncodeByte(first), Encode(rest));
    Regroup(Encode(prefix), EncodeByte(first), Encode(rest));
  }

  lemma EncodeFirst(first: byte, rest: seq<byte>)
    ensures Encode([first] + rest) == EncodeByte(first) + Encode(rest)
  {
    hide EncodeByte;
    assert ([first] + rest)[1..] == rest;
  }

  lemma MiddlePart<T>(a: seq<T>, b: seq<T>, c: seq<T>)
    ensures (a + (b + c))[|a|..|a| + |b|] == b
  {
  }

  lemma {:induction false} EncodeSnoc(bytes: seq<byte>, b: byte)
    ensures Encode(bytes + [b]) == Encode(bytes) + EncodeByte(b)
  {
    hide EncodeByte;
    if bytes == [] {
      assert [b][1..] == [] && bytes + [b] == [b];
    } else {
      EncodeSnoc(bytes[1..], b);
      assert (bytes + [b])[1..] == bytes[1..] + [b];
    }
  }

  /** Decoding an encoding gives the bytes back. */
  lemma DecodeEncode(bytes: seq<byte>)
    ensures Decode(Encode(bytes)) == Success(bytes)
  {
    hide EncodeByte, ParseRadix16, DecodePairs;
    DecodePairsOfEncode([], bytes);
    assert Encode([]) == "";
    hide Encode;
    assert "" + Encode(bytes) == Encode(bytes);
  }

  /** The character of a digit: ten from '0', then six from 'a'. */
  function Digit(d: nat): int { if d < 10 then '0' as int + d else 'a' as int + d - 10 }

  /** A byte is two digits, the higher first, in lower case. */
  lemma DigitsInOrder(b: byte)
    ensures var s := Encode([b]); |s| == 2 && s[0] as int == Digit(b / 16) && s[1] as int == Digit(b % 16)
  {
    EncodeFirst(b, []);
    CharOfDigit(b / 16);
    CharOfDigit(b % 16);
    hide DigitChar, Digit;
    assert [b] + [] == [b] && EncodeByte(b) + Encode([]) == EncodeByte(b);
  }

  lemma CharOfDigit(d: nat)
    requires d < 16
    ensures DigitChar(d) as int == Digit(d)
  {
  }

  /** A character a hexadecimal number may have. */
  predicate IsDigit(c: char) { '0' <= c <= '9' || 'a' <= c <= 'f' || 'A' <= c <= 'F' }

  /** Two digits, or a sign and one. */
  predicate IsPair(s: string, k: nat)
    requires k + 1 < |s|
  {
    IsDigit(s[k + 1]) && (IsDigit(s[k]) || s[k] == '+')
  }

  lemma PairParses(p: string)
    requires |p| == 2
    ensures ParseRadix16(p, 0xFF).Some? <==> IsPair(p, 0)
  {
    assert p[..1] == [p[0]] && p[..1][..0] == "" && p[1..] == [p[1]] && p[1..][..0] == "";
    assert DigitsValue([p[0]]) == match DigitValue(p[0]) case None => None case Some(d) => Some(d) by { OneDigit(p[0]); }
    OneDigit(p[1]);
  }

  lemma OneDigit(c: char)
    ensures DigitsValue([c]) == DigitValue(c)
  {
    assert [c][..0] == "";
  }

  lemma {:induction false} PairsParse(s: string, offset: nat)
    requires |s| % 2 == 0 && offset % 2 == 0 && offset <= |s|
    ensures DecodePairs(s, offset).Success? <==> forall k :: offset <= k < |s| && k % 2 == 0 ==> IsPair(s, k)
    ensures match DecodePairs(s, offset)
      case Success(_) => true
      case Failure(e) =>
        && e.NotHex? && offset <= e.offset < |s| && e.offset % 2 == 0 && e.found == s[e.offset..e.offset + 2] && !IsPair(s, e.offset)
        && forall k :: offset <= k < e.offset && k % 2 == 0 ==> IsPair(s, k)
    decreases |s| - offset
  {
    hide ParseRadix16, IsDigit;
    if offset < |s| {
      PairParses(s[offset..offset + 2]);
      PairsParse(s, offset + 2);
      assert IsPair(s[offset..offset + 2], 0) == IsPair(s, offset);
    }
  }

  /**
    Text decodes exactly when it is pairs of two digits of either case, or of a sign and a digit; otherwise
    the error is the odd length, or the first pair that is neither and where it stands.
   */
  lemma DecodesExactly(s: string)
    ensures Decode(s).Success? <==> |s| % 2 == 0 && forall k :: 0 <= k < |s| && k % 2 == 0 ==> IsPair(s, k)
    ensures match Decode(s)
      case Success(_) => true
      case Failure(OddLength(n)) => n == |s| && |s| % 2 == 1
      case Failure(NotHex(k, found)) =>
        && |s| % 2 == 0 && k + 1 < |s| && k % 2 == 0 && found == s[k..k + 2] && !IsPair(s, k)
        && forall j :: 0 <= j < k && j % 2 == 0 ==> IsPair(s, j)
      case Failure(BadLength(_, _)) => false
  {
    hide IsPair;
    if |s| % 2 == 0 { PairsParse(s, 0); }
  }

  /** A sign is taken for a leading zero. */
  lemma SignDecodes()
    ensures Decode("+f") == Success([15])
  {
    var s := "+f";
    OneDigit('f');
    assert s[1..] == ['f'] && s[0..2] == s;
    assert ParseRadix16(s, 0xFF) == Some(15);
    assert DecodePairs(s, 2) == Success([]);
    var bytes: seq<byte> := [15] + [];
    assert DecodePairs(s, 0) == Success(bytes);
    assert bytes == [15] && Decode(s) == Success(bytes);
  }

  lemma {:induction false} DigitsOfEncode(bytes: seq<byte>)
    ensures DigitsValue(Encode(bytes)) == Some(BeValue(bytes))
    decreases |bytes|
  {
    if bytes != [] {
      var k := |bytes| - 1;
      var front, last := bytes[..k], bytes[k];
      assert bytes == front + [last];
      DigitsOfEncode(front);
      DigitsOfLast(front, last);
      BeValueLast(front, last);
    }
  }

  lemma DigitsOfLast(front: seq<byte>, last: byte)
    requires DigitsValue(Encode(front)).Some?
    ensures DigitsValue(Encode(front + [last])) == Some(256 * DigitsValue(Encode(front)).value + last)
  {
    hide Encode, DigitChar, DigitValue, DigitsValue;
    var f, high: nat, low: nat := Encode(front), last / 16, last % 16;
    EncodeSnoc(front, last);
    DigitCharValue(high);
    DigitCharValue(low);
    OneMoreDigit(f, high);
    OneMoreDigit(f + [DigitChar(high)], low);
    assert Encode(front + [last]) == f + [DigitChar(high)] + [DigitChar(low)];
  }

  lemma OneMoreDigit(s: string, d: nat)
    requires d < 16 && DigitsValue(s).Some?
    ensures DigitsValue(s + [DigitChar(d)]) == Some(16 * DigitsValue(s).value + d)
  {
    DigitCharValue(d);
    hide DigitChar, DigitValue;
    assert (s + [DigitChar(d)])[..|s|] == s;
  }

  lemma BeValueLast(front: seq<byte>, last: byte)
    ensures BeValue(front + [last]) == 256 * BeValue(front) + last
  {
    assert Reversed(front + [last])[1..] == Reversed(front);
  }

  /** Bytes never encode to text that begins with the sign the radix parser skips. */
  lemma EncodeHasNoSign(bytes: seq<byte>)
    requires bytes != []
    ensures Encode(bytes)[0] != '+'
  {
    DigitCharValue(bytes[0] / 16);
  }

  /** Fixed-width formatting reads back under any maximum that admits the value. */
  lemma ParseFormatU32(v: u32)
    ensures ParseRadix16(FormatU32(v), 0xFFFF_FFFF) == Some(v)
  {
    hide Encode, DigitsValue;
    var bytes := BeBytes(v, 4);
    DigitsOfEncode(bytes);
    EncodeHasNoSign(bytes);
    Pow256Widths();
    BeValueOfBeBytes(v, 4);
  }

  /** Appends two digits per byte. */
  method ComputeEncode(bytes: seq<byte>) returns (out: string)
    ensures out == Encode(bytes)
  {
    out := "";
    for i := 0 to |bytes|
      invariant out == Encode(bytes[..i])
    {
      EncodeSnoc(bytes[..i], bytes[i]);
      TakeStep(bytes, i);
      out := out + EncodeByte(bytes[i]);
    }
    assert bytes[..|bytes|] == bytes;
  }
}

/** The growable byte buffer every serialiser appends to, and CompactSize integers. */
module Varint {
  import opened Wrappers
  import opened Bytes

  /** A `Vec<u8>` being appended to. */
  class ByteVec {
    var bytes: seq<byte>

    constructor ()
      ensures bytes == []
    {
      bytes := [];
    }

    method Push(b: byte)
      modifies this
      ensures bytes == old(bytes) + [b]
    {
      bytes := bytes + [b];
    }

    method Extend(more: seq<byte>)
      modifies this
      ensures bytes == old(bytes) + more
    {
      bytes := bytes + more;
    }
  }

  datatype VarIntError = UnexpectedEnd | NonCanonical

  function Encode(value: u64): (e: seq<byte>)
  {
    if value <= 0xFC then [value]
    else if value <= 0xFFFF then [0xFD] + LeBytes(value, 2)
    else if value <= 0xFFFF_FFFF then [0xFE] + LeBytes(value, 4)
    else [0xFF] + LeBytes(value, 8)
  }

  function EncodedLen(value: u64): nat
  {
    if value <= 0xFC then 1 else if value <= 0xFFFF then 3 else if value <= 0xFFFF_FFFF then 5 else 9
  }

  /** The `n`-byte little-endian integer after the first byte, rejected when it is below `least`. */
  function DecodeWide(bytes: seq<byte>, n: nat, least: nat): (r: Result<(u64, nat), VarIntError>)
    requires n <= 8
  {
    if |bytes| < 1 + n then Failure(UnexpectedEnd)
    else
      Pow256Widths();
      LeValueBound(bytes[1..1 + n]);
      Pow256Grows(n, 8);
      var value := LeValue(bytes[1..1 + n]);
      if value < least then Failure(NonCanonical) else Success((value, 1 + n))
  }

  lemma Pow256Grows(m: nat, n: nat)
    requires m <= n
    ensures Pow256(m) <= Pow256(n)
  {
    Pow256Add(m, n - m);
    MulAtLeast(Pow256(m), Pow256(n - m));
  }

  function Decode(bytes: seq<byte>): (r: Result<(u64, nat), VarIntError>)
  {
    if bytes == [] then Failure(UnexpectedEnd)
    else if bytes[0] <= 0xFC then Success((bytes[0], 1))
    else if bytes[0] == 0xFD then DecodeWide(bytes, 2, 0xFD)
    else if bytes[0] == 0xFE then DecodeWide(bytes, 4, 0x1_0000)
    else DecodeWide(bytes, 8, 0x1_0000_0000)
  }

  method EncodeInto(value: u64, out: ByteVec)
    modifies out
    ensures out.bytes == old(out.bytes) + Encode(value)
  {
    hide LeBytes;
    if value <= 0xFC {
      out.Push(value);
    } else if value <= 0xFFFF {
      out.Push(0xFD);
      out.Extend(LeBytes(value, 2));
    } else if value <= 0xFFFF_FFFF {
      out.Push(0xFE);
      out.Extend(LeBytes(value, 4));
    } else {
      out.Push(0xFF);
      out.Extend(LeBytes(value, 8));
    }
  }

  lemma WideEncoding(value: u64, marker: byte, n: nat, least: nat, tail: seq<byte>)
    requires n <= 8 && least <= value < Pow256(n)
    ensures DecodeWide([marker] + LeBytes(value, n) + tail, n, least) == Success((value, 1 + n))
  {
    var e := [marker] + LeBytes(value, n) + tail;
    assert e[1..1 + n] == LeBytes(value, n);
    LeValueOfLeBytes(value, n);
  }

  lemma WideDecoding(bytes: seq<byte>, n: nat, least: nat)
    requires n <= 8 && DecodeWide(bytes, n, least).Success?
    ensures 1 + n <= |bytes| && least <= DecodeWide(bytes, n, least).value.0 < Pow256(n)
    ensures bytes[..1 + n] == [bytes[0]] + LeBytes(DecodeWide(bytes, n, least).value.0, n)
  {
    LeValueBound(bytes[1..1 + n]);
    LeBytesOfLeValue(bytes[1..1 + n]);
    assert bytes[..1 + n] == [bytes[0]] + bytes[1..1 + n];
  }

  /** Every value reads back, whatever follows it, in exactly `EncodedLen` bytes. */
  lemma DecodeEncode(value: u64, tail: seq<byte>)
    ensures |Encode(value)| == EncodedLen(value)
    ensures Decode(Encode(value) + tail) == Success((value, EncodedLen(value)))
  {
    Pow256Widths();
    if 0xFC < value <= 0xFFFF {
      WideEncoding(value, 0xFD, 2, 0xFD, tail);
    } else if 0xFFFF < value <= 0xFFFF_FFFF {
      WideEncoding(value, 0xFE, 4, 0x1_0000, tail);
    } else if 0xFFFF_FFFF < value {
      WideEncoding(value, 0xFF, 8, 0x1_0000_0000, tail);
    }
  }

  /** Nothing but the canonical encoding is ever accepted. */
  lemma DecodeCanonical(bytes: seq<byte>)
    requires Decode(bytes).Success?
    ensures var (value, n) := Decode(bytes).value; n <= |bytes| && bytes[..n] == Encode(value) && n == EncodedLen(value)
  {
    Pow256Widths();
    if bytes[0] == 0xFD {
      WideDecoding(bytes, 2, 0xFD);
    } else if bytes[0] == 0xFE {
      WideDecoding(bytes, 4, 0x1_0000);
    } else if bytes[0] == 0xFF {
      WideDecoding(bytes, 8, 0x1_0000_0000);
    }
  }

  /** How many bytes an encoding that starts with `first` takes, and the least value it may hold. */
  function Wanted(first: byte): (nat, nat)
  {
    if first <= 0xFC then (1, 0) else if first == 0xFD then (3, 0xFD) else if first == 0xFE then (5, 0x1_0000) else (9, 0x1_0000_0000)
  }

  /** Decoding fails for want of bytes exactly when there are too few, and as non-canonical exactly when a shorter encoding holds the value. */
  lemma DecodeFails(bytes: seq<byte>)
    ensures Decode(bytes) == Failure(UnexpectedEnd) <==> bytes == [] || |bytes| < Wanted(bytes[0]).0
    ensures Decode(bytes) == Failure(NonCanonical) <==>
            && bytes != [] && |bytes| >= Wanted(bytes[0]).0 > 1
            && LeValue(bytes[1..Wanted(bytes[0]).0]) < Wanted(bytes[0]).1
  {
    hide LeValue;
  }

  /** No encoding is the beginning of another's. */
  lemma PrefixFree(a: u64, b: u64)
    requires Encode(a) <= Encode(b)
    ensures a == b
  {
    var tail := Encode(b)[|Encode(a)|..];
    assert Encode(b) == Encode(a) + tail;
    DecodeEncode(a, tail);
    DecodeEncode(b, []);
    assert Encode(b) + [] == Encode(b);
  }
}

/** SHA-256 message padding (section 5.1.1 of FIPS 180-4). */
module Padding {
  import opened Bytes

  /** Messages at or above this length overflow the 64-bit length field; the source panics there. */
  const MAX_MESSAGE: nat := 0x2000_0000_0000_0000

  function PaddedLen(len: nat): nat { (len + 9 + 63) / 64 * 64 }

  function ZeroFill(len: nat): nat { PaddedLen(len) - len - 9 }

  function Padded(message: seq<byte>): (p: seq<byte>)
    ensures |p| == PaddedLen(|message|)
  {
    message + [0x80] + Zeros(ZeroFill(|message|)) + BeBytes(8 * |message|, 8)
  }

  /** `PaddedLen` is the least multiple of 64 with room for the marker and the length. */
  lemma PaddedLenLeast(len: nat, blocks: nat)
    requires 64 * blocks >= len + 9
    ensures len + 9 <= PaddedLen(len) <= 64 * blocks && PaddedLen(len) % 64 == 0
  {
  }

  /** Reads the length from the tail and cuts the message off the front. */
  function Unpad(p: seq<byte>): (message: seq<byte>)
    requires |p| >= 8
  {
    var bits := BeValue(p[|p| - 8..]);
    if bits / 8 <= |p| then p[..bits / 8] else []
  }

  lemma UnpadPadded(message: seq<byte>)
    requires |message| < MAX_MESSAGE
    ensures Unpad(Padded(message)) == message
  {
    var p := Padded(message);
    assert p[|p| - 8..] == BeBytes(8 * |message|, 8);
    Pow256Widths();
    BeValueOfBeBytes(8 * |message|, 8);
    assert p[..|message|] == message;
  }

  /** Padding is unambiguous: the whole padded stream determines the message. */
  lemma PaddingInjective(a: seq<byte>, b: seq<byte>)
    requires |a| < 0x2000_0000_0000_0000 && |b| < 0x2000_0000_0000_0000
    ensures Padded(a) == Padded(b) <==> a == b
  {
    UnpadPadded(a);
    UnpadPadded(b);
  }

  /** Appends the marker, zero bytes up to 56 into a block, and the bit length. */
  method Pad(message: seq<byte>) returns (padded: seq<byte>)
    requires |message| < MAX_MESSAGE
    ensures padded == Padded(message)
  {
    padded := message + [0x80];
    ghost var fill := 0;
    while |padded| % 64 != 56
      invariant fill <= ZeroFill(|message|)
      invariant padded == message + [0x80] + Zeros(fill)
      decreases ZeroFill(|message|) - fill
    {
      assert Zeros(fill) + [0] == Zeros(fill + 1);
      padded := padded + [0x00];
      fill := fill + 1;
    }
    assert fill == ZeroFill(|message|);
    padded := padded + BeBytes(8 * |message|, 8);
  }
}

/**
  The second implementation of the proof of work: a script that reads the 164 serialised bytes
  field by field and prints the displayed hash.
 */
module PowReference {
  import opened Bytes
  import opened Hash256
  import opened Reader
  import opened Header
  import TaggedHash
  import Blake2b
  import Fips180
  import Rfc7693
  import Pow

  /** `struct.pack` after `struct.unpack`: a field decoded and encoded again, `width` bytes from `at`. */
  function Repack(hdr: seq<byte>, at: nat, width: nat, packed: nat): seq<byte>
    requires at + width <= |hdr|
  {
    LeBytes(LeValue(hdr[at..at + width]), packed)
  }

  /** The first `cb` bytes cleared and the next one replaced. */
  function Cleared(m: Hash256, cb: nat, partial: byte): Hash256
    requires cb < 32
  {
    Zeros(cb) + [partial] + m[cb + 1..]
  }

  /** The script's `tagged`, over a standard SHA-256. */
  function Tagged(tag: string, data: seq<byte>): Hash256
  {
    var t := Fips180.Hash(seq(|tag|, i requires 0 <= i < |tag| => tag[i] as int % 0x100));
    Fips180.Hash(t + t + data)
  }

  /** And its `blake2b32`, over a standard BLAKE2b. */
  function Blake(data: seq<byte>): Hash256 { Rfc7693.Hash(data, 32) }

  /** `b & (0xFF >> r)`, case by case. */
  function Kept(b: byte, r: nat): byte
    requires r < 8
  {
    match r
    case 0 => b
    case 1 => b % 128
    case 2 => b % 64
    case 3 => b % 32
    case 4 => b % 16
    case 5 => b % 8
    case 6 => b % 4
    case _ => b % 2
  }

  lemma SameTagged(tag: string, data: seq<byte>)
    ensures TaggedHash.Tagged(Pow.Ascii(tag), data) == Tagged(tag, data)
  {
    hide TaggedHash.Tagged, Fips180.Hash;
    TaggedHash.TaggedIsStandard(Pow.Ascii(tag), data);
    assert Pow.Ascii(tag) == seq(|tag|, i requires 0 <= i < |tag| => tag[i] as int % 0x100);
  }

  lemma SameBlake(data: seq<byte>)
    ensures Blake2b.Hash256(data) == Blake(data)
  {
    hide Blake2b.Hash, Rfc7693.Hash;
    Rfc7693.SameHash(data, 32);
  }

  lemma SameKept(b: byte, r: nat)
    requires r < 8
    ensures Pow.LowBits(b, r) == Kept(b, r)
  {
    assert Pow2(1) == 2 && Pow2(2) == 4 && Pow2(3) == 8 && Pow2(4) == 16;
    assert Pow2(5) == 32 && Pow2(6) == 64 && Pow2(7) == 128 && Pow2(8) == 256;
    if r == 0 { DivUnique(b, 256, 0, b); }
  }

  function ReferenceMask(hdr: seq<byte>): Hash256
    requires |hdr| == HEADER_V2_SIZE
  {
    var key, clear := hdr[112..128], hdr[111];
    if exists i :: 0 <= i < 16 && key[i] != 0 then
      var m := Tagged("Bitcoin block hash PoW XOR mask", key);
      var cb := clear / 8;
      Cleared(m, cb, Kept(m[cb], clear % 8))
    else Zeros(32)
  }

  function ReferenceH2(hdr: seq<byte>): Hash256
    requires |hdr| == HEADER_V2_SIZE
  {
    var prevSane := Reversed(hdr[4..36]);
    var body := Repack(hdr, 0, 4, 4) + prevSane + Repack(hdr, 128, 4, 4) + hdr[36..68] + Repack(hdr, 68, 4, 4) + [0]
      + Repack(hdr, 72, 4, 4) + Repack(hdr, 108, 2, 4) + [hdr[110], hdr[111]]
      + Tagged("Bitcoin block hash PoW XOR key", hdr[112..128]);
    var h1 := Tagged("Bitcoin block header 1", body);
    Tagged("Merge-mining hook", h1 + Zeros(16) + Zeros(16) + hdr[132..164])
  }

  function ReferenceStage4Input(hdr: seq<byte>): seq<byte>
    requires |hdr| == HEADER_V2_SIZE
  {
    var h2 := ReferenceH2(hdr);
    var hidden: Hash256 := Tagged("Bitcoin prevblock header, hashed", Reversed(hdr[4..36]));
    var h := Blake(LeBytes(0, 4) + h2 + hdr[88..104]);
    var n, n2, n3, to := Repack(hdr, 76, 4, 4), Repack(hdr, 80, 4, 4), Repack(hdr, 84, 4, 4), Repack(hdr, 104, 4, 4);
    var layout := hdr[110] % 4;
    if layout == 0 then Zeros(6) + hidden[6..] + n + n2 + to + n3 + h
    else if layout == 1 then n + n2 + n3 + to + h + h2
    else (if layout == 3 then Zeros(32) else []) + Zeros(48) + h2 + n + n2 + to + n3 + h
  }

  /** The script's result, in display order. */
  function ReferenceHash(hdr: seq<byte>): Hash256
    requires |hdr| == HEADER_V2_SIZE
  {
    XorSeq(Blake(ReferenceStage4Input(hdr)), ReferenceMask(hdr))
  }

  /** A field read from its offset is the field that was written there. */
  lemma RepackField(hdr: seq<byte>, at: nat, width: nat, packed: nat, v: nat)
    requires v < Pow256(width) && At(hdr, at, LeBytes(v, width))
    ensures Repack(hdr, at, width, packed) == LeBytes(v, packed)
  {
    LeValueOfLeBytes(v, width);
  }

  lemma SameMask(h: BlockHeader)
    requires h.headerV2
    ensures ReferenceMask(Serialize(h)) == Pow.XorMask(h.xorKey, h.xorKeyMaskClearBits)
  {
    hide LeBytes, TaggedHash.Tagged, Tagged, Serialize, Pow.LowBits, Kept;
    var hdr := Serialize(h);
    Layout(hdr, h);
    SameTagged("Bitcoin block hash PoW XOR mask", h.xorKey);
    var clear := h.xorKeyMaskClearBits;
    SameKept(TaggedHash.Tagged(Pow.XOR_MASK, h.xorKey)[clear / 8], clear % 8);
    assert hdr[112..128] == h.xorKey && hdr[111] == hdr[111..112][0] == h.xorKeyMaskClearBits;
    if forall i :: 0 <= i < 16 ==> h.xorKey[i] == 0 {
      assert h.xorKey == Zeros(16);
    } else {
      assert h.xorKey != Zeros(16);
    }
  }

  lemma SameH2(h: BlockHeader)
    requires h.headerV2
    ensures ReferenceH2(Serialize(h)) == Pow.H2(h)
  {
    hide LeBytes, TaggedHash.Tagged, Tagged, Serialize, Pow.Ascii, Repack;
    var hdr := Serialize(h);
    Layout(hdr, h);
    Pow256Widths();
    SameTagged("Bitcoin block hash PoW XOR key", h.xorKey);
    SameTagged("Bitcoin block header 1", Pow.H1Body(h));
    SameTagged("Merge-mining hook", TaggedHash.Tagged(Pow.HEADER_1, Pow.H1Body(h)) + Zeros(16) + Zeros(16) + h.mmRhs);
    RepackField(hdr, 0, 4, 4, CompleteVersion(h));
    RepackField(hdr, 128, 4, 4, h.height);
    RepackField(hdr, 68, 4, 4, h.timeOnWire);
    RepackField(hdr, 72, 4, 4, h.bits);
    RepackField(hdr, 108, 2, 4, h.txcount);
    assert hdr[110] == hdr[110..111][0] == h.flags && hdr[111] == hdr[111..112][0] == h.xorKeyMaskClearBits;
    assert [hdr[110], hdr[111]] == [h.flags] + [h.xorKeyMaskClearBits];
    var a := LeBytes(CompleteVersion(h), 4) + ToDisplay(h.prevBlock) + LeBytes(h.height, 4) + h.merkleRoot + LeBytes(h.timeOnWire, 4) + [0]
      + LeBytes(h.bits, 4) + LeBytes(h.txcount, 4);
    assert a + ([h.flags] + [h.xorKeyMaskClearBits]) == a + [h.flags] + [h.xorKeyMaskClearBits];
  }

  lemma SameStage4Input(h: BlockHeader)
    requires h.headerV2
    ensures ReferenceStage4Input(Serialize(h)) == Pow.Stage4Input(Pow.NewBlake2b(h), Pow.Nonces(h))
  {
    hide LeBytes, TaggedHash.Tagged, Tagged, Serialize, Pow.Ascii, Repack, ReferenceH2, Pow.H2, Blake2b.Hash256, Blake, Pow.XorMask;
    var hdr := Serialize(h);
    Layout(hdr, h);
    Pow256Widths();
    SameTagged("Bitcoin prevblock header, hashed", ToDisplay(h.prevBlock));
    SameBlake(Pow.Stage3Input(Pow.H2(h), h.extranonce));
    SameH2(h);
    RepackField(hdr, 76, 4, 4, h.nonce);
    RepackField(hdr, 80, 4, 4, h.nonce2);
    RepackField(hdr, 84, 4, 4, h.nonce3);
    RepackField(hdr, 104, 4, 4, h.timeOffset);
    assert hdr[110] == hdr[110..111][0] == h.flags;
    assert [] + Zeros(48) == Zeros(48);
  }

  /** The two independent implementations agree on every v2 header: the script's output is the displayed hash. */
  lemma RefinesReference(h: BlockHeader)
    requires h.headerV2
    ensures ReferenceHash(Serialize(h)) == ToDisplay(Pow.PowHash(h))
  {
    hide Serialize, ReferenceMask, ReferenceStage4Input, Pow.Stage4Input, Pow.XorMask, Blake2b.Hash256, Blake, Pow.H2, Pow.Stage3, Pow.PrevHidden;
    SameMask(h);
    SameStage4Input(h);
    SameBlake(Pow.Stage4Input(Pow.NewBlake2b(h), Pow.Nonces(h)));
    ReversedTwice(XorSeq(Blake2b.Hash256(Pow.Stage4Input(Pow.NewBlake2b(h), Pow.Nonces(h))), Pow.XorMask(h.xorKey, h.xorKeyMaskClearBits)));
  }
}

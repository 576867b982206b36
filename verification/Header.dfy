/** The block header: 80 bytes before the fork, 164 after. */
module Header {
  import opened Wrappers
  import opened Bytes
  import opened Hash256
  import opened Reader
  import Varint

  const HEADER_V1_SIZE: nat := 80
  const HEADER_V2_SIZE: nat := 164
  const VERSION_HEADER_V2_FLAG: nat := 0x8000_0000

  type Array16 = s: seq<byte> | |s| == 16 witness Zeros(16)

  datatype BlockHeader = BlockHeader(
    headerV2: bool,
    version: i32,
    prevBlock: Hash256,
    merkleRoot: Hash256,
    timeOnWire: u32,
    bits: u32,
    nonce: u32,
    nonce2: u32,
    nonce3: u32,
    extranonce: Array16,
    timeOffset: u32,
    txcount: u16,
    flags: byte,
    xorKeyMaskClearBits: byte,
    xorKey: Array16,
    height: u32,
    mmRhs: Hash256)

  datatype HeaderError = UnexpectedEnd | WrongLength(expected: nat, found: nat)

  /** The version with its top bit replaced by the v2 flag. */
  function CompleteVersion(h: BlockHeader): u32
  {
    var base := ToUnsigned(h.version) % VERSION_HEADER_V2_FLAG;
    if h.headerV2 then base + VERSION_HEADER_V2_FLAG else base
  }

  function SerializedSize(h: BlockHeader): nat { if h.headerV2 then HEADER_V2_SIZE else HEADER_V1_SIZE }

  function SerializeCommon(h: BlockHeader): (s: seq<byte>)
    ensures |s| == HEADER_V1_SIZE
  {
    LeBytes(CompleteVersion(h), 4) + h.prevBlock + h.merkleRoot + LeBytes(h.timeOnWire, 4) + LeBytes(h.bits, 4) + LeBytes(h.nonce, 4)
  }

  function SerializeV2Fields(h: BlockHeader): (s: seq<byte>)
    ensures |s| == HEADER_V2_SIZE - HEADER_V1_SIZE
  {
    LeBytes(h.nonce2, 4) + LeBytes(h.nonce3, 4) + h.extranonce + LeBytes(h.timeOffset, 4) + LeBytes(h.txcount, 2)
    + [h.flags] + [h.xorKeyMaskClearBits] + h.xorKey + LeBytes(h.height, 4) + h.mmRhs
  }

  function Serialize(h: BlockHeader): (s: seq<byte>)
    ensures |s| == SerializedSize(h)
  {
    if h.headerV2 then SerializeCommon(h) + SerializeV2Fields(h) else SerializeCommon(h)
  }

  /** The little-endian integer at an offset. */
  function LeAtOffset(b: seq<byte>, at: nat, width: nat): (v: nat)
    requires at + width <= |b|
    ensures v < Pow256(width)
  {
    LeValueBound(b[at..at + width]);
    LeValue(b[at..at + width])
  }

  function U32AtOffset(b: seq<byte>, at: nat): u32
    requires at + 4 <= |b|
  {
    Pow256Widths();
    LeAtOffset(b, at, 4)
  }

  function ParseCommon(b: seq<byte>): BlockHeader
    requires |b| >= HEADER_V1_SIZE
  {
    var raw := U32AtOffset(b, 0);
    BlockHeader(raw >= VERSION_HEADER_V2_FLAG, raw % VERSION_HEADER_V2_FLAG, b[4..36], b[36..68],
                U32AtOffset(b, 68), U32AtOffset(b, 72), U32AtOffset(b, 76),
                0, 0, Zeros(16), 0, 0, 0, 0, Zeros(16), 0, ZERO)
  }

  function ParseV2Fields(b: seq<byte>, h: BlockHeader): BlockHeader
    requires |b| == HEADER_V2_SIZE
  {
    Pow256Widths();
    h.(nonce2 := U32AtOffset(b, 80), nonce3 := U32AtOffset(b, 84), extranonce := b[88..104],
       timeOffset := U32AtOffset(b, 104), txcount := LeAtOffset(b, 108, 2), flags := b[110],
       xorKeyMaskClearBits := b[111], xorKey := b[112..128], height := U32AtOffset(b, 128), mmRhs := b[132..164])
  }

  /** Every field at its fixed offset, once the length matches what the version flag declares. */
  function Deserialize(b: seq<byte>): (r: Result<BlockHeader, HeaderError>)
  {
    if |b| < 4 then Failure(HeaderError.UnexpectedEnd)
    else
      var v2 := U32AtOffset(b, 0) >= VERSION_HEADER_V2_FLAG;
      var expected := if v2 then HEADER_V2_SIZE else HEADER_V1_SIZE;
      if |b| != expected then Failure(WrongLength(expected, |b|))
      else if v2 then Success(ParseV2Fields(b, ParseCommon(b)))
      else Success(ParseCommon(b))
  }

  // ----- the layout -----

  predicate CommonFieldsAt(b: seq<byte>, h: BlockHeader)
  {
    && At(b, 0, LeBytes(CompleteVersion(h), 4)) && At(b, 4, h.prevBlock) && At(b, 36, h.merkleRoot)
    && At(b, 68, LeBytes(h.timeOnWire, 4)) && At(b, 72, LeBytes(h.bits, 4)) && At(b, 76, LeBytes(h.nonce, 4))
  }

  predicate V2FieldsAt(b: seq<byte>, h: BlockHeader)
  {
    && At(b, 80, LeBytes(h.nonce2, 4)) && At(b, 84, LeBytes(h.nonce3, 4)) && At(b, 88, h.extranonce)
    && At(b, 104, LeBytes(h.timeOffset, 4)) && At(b, 108, LeBytes(h.txcount, 2)) && At(b, 110, [h.flags])
    && At(b, 111, [h.xorKeyMaskClearBits]) && At(b, 112, h.xorKey) && At(b, 128, LeBytes(h.height, 4)) && At(b, 132, h.mmRhs)
  }

  lemma CommonLayout(b: seq<byte>, h: BlockHeader)
    ensures At(b, 0, SerializeCommon(h)) <==> CommonFieldsAt(b, h)
  {
    hide LeBytes;
    var f0, f1, f2, f3, f4, f5 :=
      LeBytes(CompleteVersion(h), 4), h.prevBlock, h.merkleRoot, LeBytes(h.timeOnWire, 4), LeBytes(h.bits, 4), LeBytes(h.nonce, 4);
    AtSplit(b, 0, f0 + f1 + f2 + f3 + f4, f5);
    AtSplit(b, 0, f0 + f1 + f2 + f3, f4);
    AtSplit(b, 0, f0 + f1 + f2, f3);
    AtSplit(b, 0, f0 + f1, f2);
    AtSplit(b, 0, f0, f1);
  }

  lemma V2Layout(b: seq<byte>, h: BlockHeader)
    ensures At(b, 80, SerializeV2Fields(h)) <==> V2FieldsAt(b, h)
  {
    hide LeBytes;
    var f0, f1, f2, f3, f4 := LeBytes(h.nonce2, 4), LeBytes(h.nonce3, 4), h.extranonce, LeBytes(h.timeOffset, 4), LeBytes(h.txcount, 2);
    var f5, f6, f7, f8, f9 := [h.flags], [h.xorKeyMaskClearBits], h.xorKey, LeBytes(h.height, 4), h.mmRhs;
    AtSplit(b, 80, f0 + f1 + f2 + f3 + f4 + f5 + f6 + f7 + f8, f9);
    AtSplit(b, 80, f0 + f1 + f2 + f3 + f4 + f5 + f6 + f7, f8);
    AtSplit(b, 80, f0 + f1 + f2 + f3 + f4 + f5 + f6, f7);
    AtSplit(b, 80, f0 + f1 + f2 + f3 + f4 + f5, f6);
    AtSplit(b, 80, f0 + f1 + f2 + f3 + f4, f5);
    AtSplit(b, 80, f0 + f1 + f2 + f3, f4);
    AtSplit(b, 80, f0 + f1 + f2, f3);
    AtSplit(b, 80, f0 + f1, f2);
    AtSplit(b, 80, f0, f1);
  }

  /** A byte string is the serialisation exactly when it has the size and every field stands at its offset. */
  lemma Layout(b: seq<byte>, h: BlockHeader)
    ensures b == Serialize(h) <==> |b| == SerializedSize(h) && CommonFieldsAt(b, h) && (h.headerV2 ==> V2FieldsAt(b, h))
  {
    hide SerializeCommon, SerializeV2Fields;
    CommonLayout(b, h);
    V2Layout(b, h);
    AtSplit(b, 0, SerializeCommon(h), SerializeV2Fields(h));
    if |b| == SerializedSize(h) { assert b[0..|b|] == b; }
  }

  lemma LeOffset(b: seq<byte>, at: nat, v: nat, width: nat)
    requires at + width <= |b| && v < Pow256(width)
    ensures At(b, at, LeBytes(v, width)) <==> LeAtOffset(b, at, width) == v
  {
    LeBytesOfLeValue(b[at..at + width]);
    LeValueOfLeBytes(v, width);
  }

  // ----- round trips -----

  /** What survives serialisation: a version without its top bit, and null v2 fields on a v1 header. */
  function Canonical(h: BlockHeader): BlockHeader
  {
    var g := h.(version := ToUnsigned(h.version) % VERSION_HEADER_V2_FLAG);
    if h.headerV2 then g
    else g.(nonce2 := 0, nonce3 := 0, extranonce := Zeros(16), timeOffset := 0, txcount := 0, flags := 0,
            xorKeyMaskClearBits := 0, xorKey := Zeros(16), height := 0, mmRhs := ZERO)
  }

  predicate WellFormed(h: BlockHeader)
  {
    && h.version >= 0
    && (!h.headerV2 ==>
          && h.nonce2 == h.nonce3 == h.timeOffset == h.txcount == h.flags == h.xorKeyMaskClearBits == h.height == 0
          && h.extranonce == h.xorKey == Zeros(16) && h.mmRhs == ZERO)
  }

  lemma DeserializeFields(b: seq<byte>, h: BlockHeader)
    requires |b| == SerializedSize(h) && CommonFieldsAt(b, h) && (h.headerV2 ==> V2FieldsAt(b, h))
    ensures Deserialize(b) == Success(Canonical(h))
  {
    hide LeBytes;
    Pow256Widths();
    LeOffset(b, 0, CompleteVersion(h), 4);
    LeOffset(b, 68, h.timeOnWire, 4);
    LeOffset(b, 72, h.bits, 4);
    LeOffset(b, 76, h.nonce, 4);
    if h.headerV2 {
      LeOffset(b, 80, h.nonce2, 4);
      LeOffset(b, 84, h.nonce3, 4);
      LeOffset(b, 104, h.timeOffset, 4);
      LeOffset(b, 108, h.txcount, 2);
      LeOffset(b, 128, h.height, 4);
      assert b[110] == b[110..111][0] && b[111] == b[111..112][0];
    }
  }

  /** The first four bytes are the version's low 31 bits, and on top of them whether the header is of the second kind. */
  lemma VersionBytes(h: BlockHeader)
    ensures LeValue(Serialize(h)[..4]) == ToUnsigned(h.version) % 0x8000_0000 + if h.headerV2 then 0x8000_0000 else 0
    ensures h.version >= 0 ==> ToUnsigned(h.version) % 0x8000_0000 == h.version
  {
    hide LeBytes, LeValue;
    Layout(Serialize(h), h);
    Pow256Widths();
    LeValueOfLeBytes(CompleteVersion(h), 4);
  }

  /** A parse fails for want of a version, or because the length is not what the version's top bit calls for; never otherwise. */
  lemma DeserializeFails(b: seq<byte>)
    ensures Deserialize(b) == Failure(HeaderError.UnexpectedEnd) <==> |b| < 4
    ensures |b| >= 4 ==>
              var size := if b[3] >= 0x80 then 164 else 80;
              if |b| == size then Deserialize(b).Success? && Deserialize(b).value.headerV2 == (b[3] >= 0x80)
              else Deserialize(b) == Failure(WrongLength(size, |b|))
  {
    hide LeValue;
    if |b| >= 4 { TopBit(b); }
  }

  lemma TopBit(b: seq<byte>)
    requires |b| >= 4
    ensures U32AtOffset(b, 0) >= VERSION_HEADER_V2_FLAG <==> b[3] >= 0x80
  {
    hide LeValue;
    LeValueLast(b[0..4]);
    LeValueBound(b[0..4][..3]);
    assert Pow256(3) == 0x100_0000;
  }

  /** Parsing a serialised header returns it exactly when it is well-formed. */
  lemma DeserializeSerialize(h: BlockHeader)
    ensures Deserialize(Serialize(h)) == Success(Canonical(h))
    ensures Deserialize(Serialize(h)) == Success(h) <==> WellFormed(h)
  {
    hide Deserialize;
    Layout(Serialize(h), h);
    DeserializeFields(Serialize(h), h);
  }

  lemma ParsedCommonFields(b: seq<byte>, h: BlockHeader)
    requires Deserialize(b) == Success(h)
    ensures WellFormed(h) && |b| == SerializedSize(h) && CommonFieldsAt(b, h)
  {
    hide LeBytes, LeValue;
    Pow256Widths();
    LeOffset(b, 0, CompleteVersion(h), 4);
    LeOffset(b, 68, h.timeOnWire, 4);
    LeOffset(b, 72, h.bits, 4);
    LeOffset(b, 76, h.nonce, 4);
  }

  lemma ParsedV2Fields(b: seq<byte>, h: BlockHeader)
    requires Deserialize(b) == Success(h) && h.headerV2
    ensures V2FieldsAt(b, h)
  {
    hide LeBytes, LeValue;
    Pow256Widths();
    LeOffset(b, 80, h.nonce2, 4);
    LeOffset(b, 84, h.nonce3, 4);
    LeOffset(b, 104, h.timeOffset, 4);
    LeOffset(b, 108, h.txcount, 2);
    LeOffset(b, 128, h.height, 4);
  }

  /** Whatever was accepted is well-formed and serialises back to the same bytes. */
  lemma SerializeDeserialize(b: seq<byte>, h: BlockHeader)
    requires Deserialize(b) == Success(h)
    ensures WellFormed(h) && Serialize(h) == b
  {
    hide Deserialize, Serialize, CommonFieldsAt, V2FieldsAt, WellFormed;
    ParsedCommonFields(b, h);
    if h.headerV2 { ParsedV2Fields(b, h); }
    Layout(b, h);
  }

  // ----- the code -----

  method WriteCommon(h: BlockHeader, out: Varint.ByteVec)
    modifies out
    ensures out.bytes == old(out.bytes) + SerializeCommon(h)
  {
    hide LeBytes, CompleteVersion;
    out.Extend(LeBytes(CompleteVersion(h), 4));
    out.Extend(h.prevBlock);
    out.Extend(h.merkleRoot);
    out.Extend(LeBytes(h.timeOnWire, 4));
    out.Extend(LeBytes(h.bits, 4));
    out.Extend(LeBytes(h.nonce, 4));
  }

  method WriteV2Fields(h: BlockHeader, out: Varint.ByteVec)
    modifies out
    ensures out.bytes == old(out.bytes) + SerializeV2Fields(h)
  {
    hide LeBytes;
    out.Extend(LeBytes(h.nonce2, 4));
    out.Extend(LeBytes(h.nonce3, 4));
    out.Extend(h.extranonce);
    out.Extend(LeBytes(h.timeOffset, 4));
    out.Extend(LeBytes(h.txcount, 2));
    out.Push(h.flags);
    out.Push(h.xorKeyMaskClearBits);
    out.Extend(h.xorKey);
    out.Extend(LeBytes(h.height, 4));
    out.Extend(h.mmRhs);
  }

  /** Appends the fields in wire order; a v1 header stops after its nonce. */
  method ComputeSerialize(h: BlockHeader) returns (bytes: seq<byte>)
    ensures bytes == Serialize(h)
  {
    hide SerializeCommon, SerializeV2Fields;
    var out := new Varint.ByteVec();
    WriteCommon(h, out);
    if h.headerV2 {
      WriteV2Fields(h, out);
    }
    bytes := out.bytes;
  }

  /** A bounds-checked cursor over header bytes. */
  class FieldCursor {
    const bytes: seq<byte>
    var at: nat

    constructor (bytes: seq<byte>)
      ensures this.bytes == bytes && at == 0
    {
      this.bytes := bytes;
      at := 0;
    }

    method Array(n: nat) returns (r: Result<seq<byte>, HeaderError>)
      modifies this
      ensures if old(at) + n <= |bytes| then at == old(at) + n && r == Success(bytes[old(at)..at])
              else at == old(at) && r == Failure(HeaderError.UnexpectedEnd)
    {
      var end := at + n;
      if end > |bytes| {
        return Failure(HeaderError.UnexpectedEnd);
      }
      r := Success(bytes[at..end]);
      at := end;
    }

    /** A field the length check has already made room for. */
    method Field(n: nat) returns (s: seq<byte>)
      requires at + n <= |bytes|
      modifies this
      ensures at == old(at) + n && s == bytes[old(at)..at]
    {
      var r := Array(n);
      s := r.value;
    }

    method U32() returns (v: u32)
      requires at + 4 <= |bytes|
      modifies this
      ensures at == old(at) + 4 && v == U32AtOffset(bytes, old(at))
    {
      var s := Field(4);
      LeValueBound(s);
      Pow256Widths();
      v := LeValue(s);
    }
  }

  method ComputeDeserialize(b: seq<byte>) returns (r: Result<BlockHeader, HeaderError>)
    ensures r == Deserialize(b)
  {
    hide LeValue;
    Pow256Widths();
    var c := new FieldCursor(b);
    var first := c.Array(4);
    if first.Failure? { return Failure(first.error); }
    LeValueBound(first.value);
    var raw := LeValue(first.value);
    var v2 := raw >= VERSION_HEADER_V2_FLAG;
    var expected := if v2 then HEADER_V2_SIZE else HEADER_V1_SIZE;
    if |b| != expected {
      return Failure(WrongLength(expected, |b|));
    }
    var prev := c.Field(32);
    var merkle := c.Field(32);
    var time := c.U32();
    var bits := c.U32();
    var nonce := c.U32();
    var h := BlockHeader(v2, raw % VERSION_HEADER_V2_FLAG, prev, merkle, time, bits, nonce,
                         0, 0, Zeros(16), 0, 0, 0, 0, Zeros(16), 0, ZERO);
    assert h == ParseCommon(b);
    if v2 {
      r := ReadV2Fields(c, h);
    } else {
      r := Success(h);
    }
  }

  method ReadV2Fields(c: FieldCursor, common: BlockHeader) returns (r: Result<BlockHeader, HeaderError>)
    requires c.at == 80 && |c.bytes| == HEADER_V2_SIZE
    modifies c
    ensures r == Success(ParseV2Fields(c.bytes, common))
  {
    hide LeValue;
    Pow256Widths();
    var h := common;
    var nonce2 := c.U32();
    var nonce3 := c.U32();
    var extranonce := c.Field(16);
    var timeOffset := c.U32();
    var txcount := c.Field(2);
    LeValueBound(txcount);
    var flags := c.Field(1);
    var clear := c.Field(1);
    var xorKey := c.Field(16);
    var height := c.U32();
    var mmRhs := c.Field(32);
    h := h.(nonce2 := nonce2, nonce3 := nonce3, extranonce := extranonce, timeOffset := timeOffset);
    h := h.(txcount := LeValue(txcount), flags := flags[0], xorKeyMaskClearBits := clear[0]);
    h := h.(xorKey := xorKey, height := height, mmRhs := mmRhs);
    return Success(h);
  }
}

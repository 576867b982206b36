/** The five-stage proof of work, its nonce-independent half, and the half a Stratum job carries. */
module Pow {
  import opened Bytes
  import opened Hash256
  import opened Header
  import opened TaggedHash
  import Blake2b
  import Fips180
  import Sha256

  // ----- domain-separation tags -----

  function Ascii(s: string): (b: seq<byte>)
    ensures |b| == |s|
  {
    seq(|s|, i requires 0 <= i < |s| => s[i] as int % 0x100)
  }

  const XOR_KEY: seq<byte> := Ascii("Bitcoin block hash PoW XOR key")
  const XOR_MASK: seq<byte> := Ascii("Bitcoin block hash PoW XOR mask")
  const PREVBLOCK: seq<byte> := Ascii("Bitcoin prevblock header, hashed")
  const HEADER_1: seq<byte> := Ascii("Bitcoin block header 1")
  const MERGE_MINING: seq<byte> := Ascii("Merge-mining hook")

  // ----- stages 0 to 3 -----

  /** `b & (0xFF >> r)`: the low `8 - r` bits. */
  function LowBits(b: byte, r: nat): (m: byte)
    requires r <= 8
    ensures m < Pow2(8 - r)
  {
    ModAtMost(b, Pow2(8 - r));
    b % Pow2(8 - r)
  }

  /** Clears the top `clear` bits of a digest read from its first byte. */
  function ClearTop(mask: Hash256, clear: byte): (m: Hash256)
  {
    seq(32, i requires 0 <= i < 32 =>
      if i < clear / 8 then 0 else if i == clear / 8 then LowBits(mask[i], clear % 8) else mask[i])
  }

  /** Stage 0: a null key means no mask at all. */
  function XorMask(key: Array16, clear: byte): Hash256
  {
    if key == Zeros(16) then Zeros(32) else ClearTop(Tagged(XOR_MASK, key), clear)
  }

  function PrevHidden(h: BlockHeader): Hash256 { Tagged(PREVBLOCK, ToDisplay(h.prevBlock)) }

  /** Stage 1: every consensus field in wire order. */
  function H1Body(h: BlockHeader): (b: seq<byte>)
    ensures |b| == 119
  {
    LeBytes(CompleteVersion(h), 4) + ToDisplay(h.prevBlock) + LeBytes(h.height, 4) + h.merkleRoot + LeBytes(h.timeOnWire, 4) + [0]
    + LeBytes(h.bits, 4) + LeBytes(h.txcount, 4) + [h.flags] + [h.xorKeyMaskClearBits] + Tagged(XOR_KEY, h.xorKey)
  }

  /** Stage 2: the merge-mining hook, the digest a job carries. */
  function H2(h: BlockHeader): Hash256
  {
    Tagged(MERGE_MINING, Tagged(HEADER_1, H1Body(h)) + Zeros(16) + Zeros(16) + h.mmRhs)
  }

  function Stage3Input(h2: Hash256, extranonce: Array16): (b: seq<byte>)
    ensures |b| == 52
  {
    LeBytes(0, 4) + h2 + extranonce
  }

  function Stage3(h2: Hash256, extranonce: Array16): Hash256 { Blake2b.Hash256(Stage3Input(h2, extranonce)) }

  datatype Blake2bMidstate = Blake2bMidstate(stage3: Hash256, h2: Hash256, prevHidden: Hash256, xorMask: Hash256, flags: byte)

  datatype PowMidstate = Sha256d(header: seq<byte>) | Blake2b(midstate: Blake2bMidstate)
  {
    predicate Valid() { Sha256d? ==> |header| == HEADER_V1_SIZE }
  }

  function NewBlake2b(h: BlockHeader): Blake2bMidstate
  {
    Blake2bMidstate(Stage3(H2(h), h.extranonce), H2(h), PrevHidden(h), XorMask(h.xorKey, h.xorKeyMaskClearBits), h.flags)
  }

  function NewMidstate(h: BlockHeader): (m: PowMidstate)
    ensures m.Valid()
  {
    if h.headerV2 then Blake2b(NewBlake2b(h)) else Sha256d(Serialize(h))
  }

  function NonceWords(m: PowMidstate): nat { if m.Sha256d? then 1 else 4 }

  /** The hidden previous block with its first six bytes blanked, as layout 0 consumes it. */
  function Blanked(hidden: Hash256): Hash256 { Zeros(6) + hidden[6..] }

  function FromStratumJob(consensusDigest: Hash256, extranonce: Array16, prevHidden: Hash256, flags: byte): Blake2bMidstate
  {
    Blake2bMidstate(Stage3(consensusDigest, extranonce), consensusDigest, prevHidden, Zeros(32), flags)
  }

  // ----- stages 4 and 5 -----

  datatype NonceSpace = NonceSpace(nonce: u32, nonce2: u32, nonce3: u32, timeOffset: u32)

  /** Stage 4: one of four arrangements, by the low two flag bits. */
  function Stage4Input(m: Blake2bMidstate, at: NonceSpace): (b: seq<byte>)
  {
    var n, n2, n3, offset := LeBytes(at.nonce, 4), LeBytes(at.nonce2, 4), LeBytes(at.nonce3, 4), LeBytes(at.timeOffset, 4);
    match m.flags % 4
    case 0 => Blanked(m.prevHidden) + n + n2 + offset + n3 + m.stage3
    case 1 => n + n2 + n3 + offset + m.stage3 + m.h2
    case 2 => Zeros(48) + m.h2 + n + n2 + offset + n3 + m.stage3
    case _ => Zeros(32) + Zeros(48) + m.h2 + n + n2 + offset + n3 + m.stage3
  }

  function Stage4(m: Blake2bMidstate, at: NonceSpace): Hash256 { Blake2b.Hash256(Stage4Input(m, at)) }

  /** Stage 5: mask, then store the displayed bytes reversed. */
  function HashBlake2b(m: Blake2bMidstate, at: NonceSpace): Hash256 { FromDisplay(XorSeq(Stage4(m, at), m.xorMask)) }

  function HashAt(m: PowMidstate, at: NonceSpace): Hash256
    requires m.Valid()
  {
    match m
    case Sha256d(header) => Sha256.HashTwice(header[..76] + LeBytes(at.nonce, 4))
    case Blake2b(midstate) => HashBlake2b(midstate, at)
  }

  function Nonces(h: BlockHeader): NonceSpace { NonceSpace(h.nonce, h.nonce2, h.nonce3, h.timeOffset) }

  function PowHash(h: BlockHeader): Hash256 { HashAt(NewMidstate(h), Nonces(h)) }

  // ----- one midstate serves a whole sweep -----

  function WithNonces(h: BlockHeader, at: NonceSpace): BlockHeader
  {
    h.(nonce := at.nonce, nonce2 := at.nonce2, nonce3 := at.nonce3, timeOffset := at.timeOffset)
  }

  lemma SpliceNonce(h: BlockHeader, g: BlockHeader)
    requires !h.headerV2 && !g.headerV2 && h.(nonce := g.nonce) == g.(nonce2 := h.nonce2, nonce3 := h.nonce3, timeOffset := h.timeOffset)
    ensures Serialize(h)[..76] + LeBytes(g.nonce, 4) == Serialize(g)
  {
    hide LeBytes;
  }

  /** Hashing from a reused midstate is hashing the header that carries the nonces, on both sides of the fork. */
  lemma MidstateReusable(h: BlockHeader, at: NonceSpace)
    ensures HashAt(NewMidstate(h), at) == PowHash(WithNonces(h, at))
  {
    hide LeBytes, Sha256.HashTwice, Tagged, Blake2b.Hash256, XorMask;
    var g := WithNonces(h, at);
    if h.headerV2 {
      assert NewBlake2b(g) == NewBlake2b(h);
    } else {
      SpliceNonce(h, g);
      SpliceNonce(g, g);
    }
  }

  /** Before the fork the hash is the standard's, twice, of the eighty bytes. */
  lemma LegacyHash(h: BlockHeader)
    requires !h.headerV2
    ensures PowHash(h) == Fips180.Hash(Fips180.Hash(Serialize(h)))
  {
    hide LeBytes, Sha256.HashTwice, Fips180.Hash;
    SpliceNonce(h, h);
    Fips180.SameHashTwice(Serialize(h));
  }

  // ----- the XOR mask -----

  /** Leading zero bytes do not count in a big-endian number. */
  lemma {:induction false} BeValueAfterZeros(s: seq<byte>, j: nat)
    requires j <= |s| && forall i :: 0 <= i < j ==> s[i] == 0
    ensures BeValue(s) == BeValue(s[j..])
  {
    if j > 0 {
      BeValueFirst(s);
      BeValueAfterZeros(s[1..], j - 1);
      assert s[1..][j - 1..] == s[j..];
    }
  }

  lemma BeValueReads(s: seq<byte>)
    ensures BeValue(s) == LeValue(Reversed(s))
  {
    hide LeValue;
  }

  /** A number whose first of `n` bytes is below 2^e. */
  lemma FirstByteBounds(s: seq<byte>, e: nat)
    requires s != [] && s[0] < Pow2(e)
    ensures BeValue(s) < Pow2(8 * (|s| - 1) + e)
  {
    hide Pow2, Pow256, LeValue, BeValue;
    var first: int, q := s[0], Pow256(|s| - 1);
    assert BeValue(s[1..]) == LeValue(Reversed(s[1..])) by { BeValueReads(s[1..]); }
    BeValueFirst(s);
    LeValueBound(Reversed(s[1..]));
    MulMonotone(q, first + 1, Pow2(e));
    assert q * (first + 1) == q * first + q;
    Pow256IsPow2(|s| - 1);
    Pow2Add(8 * (|s| - 1), e);
  }

  /** Clearing the top `k` bits leaves a number below 2^(256-k). */
  lemma ClearedMaskBelow(mask: Hash256, k: byte)
    ensures BeValue(ClearTop(mask, k)) < Pow2(256 - k as nat)
  {
    hide Pow2, BeValue, LowBits;
    var m := ClearTop(mask, k);
    var j: nat, r: nat := k / 8, k % 8;
    BeValueAfterZeros(m, j);
    FirstByteBounds(m[j..], 8 - r);
    assert 8 * (31 - j) + (8 - r) == 256 - k as nat;
  }

  lemma MaskBelow(key: Array16, k: byte)
    ensures BeValue(XorMask(key, k)) < Pow2(256 - k as nat)
  {
    hide Tagged;
    if key == Zeros(16) {
      LeValueZeros(32);
      assert Reversed(Zeros(32)) == Zeros(32);
    } else {
      ClearedMaskBelow(Tagged(XOR_MASK, key), k);
    }
  }

  function Unmasked(m: Blake2bMidstate): Blake2bMidstate { m.(xorMask := Zeros(32)) }

  lemma XorSeqZeros(a: seq<byte>)
    ensures XorSeq(a, Zeros(|a|)) == a
  {
    forall i | 0 <= i < |a|
      ensures XorSeq(a, Zeros(|a|))[i] == a[i]
    {
      XorZero(a[i]);
    }
  }

  /** A hash as a number is its unmasked self exclusive-or the mask, both read big-endian. */
  lemma MaskedValue(m: Blake2bMidstate, at: NonceSpace)
    ensures Value(HashBlake2b(m, at)) == XorBits(Value(HashBlake2b(Unmasked(m), at)), BeValue(m.xorMask), 256)
    ensures XorSeq(HashBlake2b(m, at), HashBlake2b(Unmasked(m), at)) == Reversed(m.xorMask)
  {
    hide Stage4, Xor, XorBits, LeValue;
    var digest := Stage4(m, at);
    assert Stage4(Unmasked(m), at) == digest by { SameStage4(m, at); }
    XorSeqZeros(digest);
    BeValueXor(digest, m.xorMask);
    var masked, plain := HashBlake2b(m, at), HashBlake2b(Unmasked(m), at);
    forall i | 0 <= i < 32
      ensures XorSeq(masked, plain)[i] == Reversed(m.xorMask)[i]
    {
      XorBack(digest[31 - i], m.xorMask[31 - i]);
    }
  }

  lemma SameStage4(m: Blake2bMidstate, at: NonceSpace)
    ensures Stage4(Unmasked(m), at) == Stage4(m, at)
  {
    hide LeBytes, Blake2b.Hash256;
  }

  lemma XorBack(a: byte, b: byte)
    ensures Xor(Xor(a, b), a) == b
  {
    assert Pow2(8) == 256;
    XorBitsBack(a, b, 8);
  }

  lemma {:induction false} XorBitsBack(a: nat, b: nat, n: nat)
    requires b < Pow2(n)
    ensures XorBits(XorBits(a, b, n), a, n) == b
  {
    if n > 0 {
      XorBitsBack(a / 2, b / 2, n - 1);
      XorStep(b % 2, a % 2, XorBits(a / 2, b / 2, n - 1), XorBits(a, b, n));
    }
  }

  /** The revealed part of the difficulty: masking never changes the top `k` displayed bits, so both hashes fall below 2^(256-k) together. */
  lemma TopBitsSurviveMask(h: BlockHeader, at: NonceSpace)
    requires h.headerV2
    ensures var (m, k) := (NewBlake2b(h), h.xorKeyMaskClearBits as nat);
      var masked, plain := HashBlake2b(m, at), HashBlake2b(Unmasked(m), at);
      && Value(masked) / Pow2(256 - k) == Value(plain) / Pow2(256 - k)
      && (LeadingZeroBits(masked) >= k <==> LeadingZeroBits(plain) >= k)
  {
    hide NewBlake2b, HashBlake2b, XorMask, BeValue, Value, XorBits, LeadingZeroBits, Pow2;
    var m := NewBlake2b(h);
    var k: nat := h.xorKeyMaskClearBits;
    MaskOf(h);
    MaskBelow(h.xorKey, k);
    MaskedValue(m, at);
    var masked, plain := HashBlake2b(m, at), HashBlake2b(Unmasked(m), at);
    ValueBound(plain);
    XorBitsHigh(Value(plain), BeValue(m.xorMask), 256, 256 - k);
    LeadingZeroBitsMeaning(masked, k);
    LeadingZeroBitsMeaning(plain, k);
    BelowByQuotient(Value(masked), Pow2(256 - k));
    BelowByQuotient(Value(plain), Pow2(256 - k));
  }

  lemma ValueBound(h: Hash256)
    ensures Value(h) < Pow2(256)
  {
    hide Pow2, Pow256, LeValue;
    LeValueBound(h);
    Pow256IsPow2(32);
  }

  lemma MaskOf(h: BlockHeader)
    ensures NewBlake2b(h).xorMask == XorMask(h.xorKey, h.xorKeyMaskClearBits)
  {
    hide H2, Stage3, PrevHidden, XorMask;
  }

  lemma BelowByQuotient(v: nat, d: nat)
    requires d > 0
    ensures v < d <==> v / d == 0
  {
    if v < d { DivUnique(v, d, 0, v); }
  }

  // ----- what a job's recipient computes -----

  /** Blanking an already blanked field changes nothing, and no other layout reads it. */
  lemma BlankedTwice(hidden: Hash256)
    ensures Blanked(Blanked(hidden)) == Blanked(hidden)
  {
  }

  /** The midstate a miner rebuilds from the digests of a job. */
  function JobMidstate(h: BlockHeader): Blake2bMidstate
  {
    FromStratumJob(H2(h), h.extranonce, Blanked(PrevHidden(h)), h.flags)
  }

  lemma JobStage4(h: BlockHeader, at: NonceSpace)
    ensures Stage4(JobMidstate(h), at) == Stage4(NewBlake2b(h), at)
  {
    hide H2, Stage3, PrevHidden, XorMask, LeBytes, Blake2b.Hash256;
    BlankedTwice(PrevHidden(h));
  }

  /**
    In all four layouts a miner hashing from the projection gets the unmasked hash, so it agrees with the
    pool exactly when the mask is null.
   */
  lemma ProjectionAgrees(h: BlockHeader, at: NonceSpace)
    requires h.headerV2
    ensures HashBlake2b(JobMidstate(h), at) == HashBlake2b(Unmasked(NewBlake2b(h)), at)
    ensures HashBlake2b(JobMidstate(h), at) == PowHash(WithNonces(h, at)) <==> XorMask(h.xorKey, h.xorKeyMaskClearBits) == Zeros(32)
  {
    hide H2, Stage3, PrevHidden, Stage4, XorMask, XorSeq;
    var m, mask := NewBlake2b(h), XorMask(h.xorKey, h.xorKeyMaskClearBits);
    JobStage4(h, at);
    SameStage4(m, at);
    MidstateReusable(h, at);
    var digest := Stage4(m, at);
    XorSeqZeros(digest);
    ReversedTwice(digest);
    ReversedTwice(XorSeq(digest, mask));
    XorSeqFixed(digest, mask);
  }

  lemma XorSeqFixed(a: seq<byte>, b: seq<byte>)
    requires |a| == |b|
    ensures XorSeq(a, b) == a <==> b == Zeros(|b|)
  {
    hide Xor;
    if XorSeq(a, b) == a {
      forall i | 0 <= i < |a|
        ensures b[i] == 0
      {
        XorFixed(a[i], b[i]);
      }
    } else if b == Zeros(|b|) {
      XorSeqZeros(a);
    }
  }

  lemma NullKeyMeansNoMask(clear: byte)
    ensures XorMask(Zeros(16), clear) == Zeros(32)
  {
  }

  /** Under a null key the miner, hashing from the projection, and the pool, hashing the header, agree, whatever the clear count and the layout. */
  lemma NullKeyHashesAlike(h: BlockHeader, at: NonceSpace)
    requires h.headerV2 && h.xorKey == Zeros(16)
    ensures HashBlake2b(JobMidstate(h), at) == PowHash(WithNonces(h, at))
  {
    hide XorMask, HashBlake2b, JobMidstate, PowHash;
    NullKeyMeansNoMask(h.xorKeyMaskClearBits);
    ProjectionAgrees(h, at);
  }

  // ----- distinct search points are distinct inputs -----

  /** Where each nonce word sits: layout 1 swaps the last two. */
  lemma NonceSlots(m: Blake2bMidstate, a: NonceSpace, at: nat, late: nat)
    requires at == match m.flags % 4 case 0 => 32 case 1 => 0 case 2 => 80 case _ => 112
    requires late == if m.flags % 4 == 1 then 12 else 8
    ensures |Stage4Input(m, a)| >= at + 16
    ensures var x := Stage4Input(m, a);
      && x[at..at + 4] == LeBytes(a.nonce, 4) && x[at + 4..at + 8] == LeBytes(a.nonce2, 4)
      && x[at + late..at + late + 4] == LeBytes(a.timeOffset, 4)
      && x[at + 20 - late..at + 24 - late] == LeBytes(a.nonce3, 4)
  {
    hide LeBytes;
  }

  lemma NoncesOnly(m: Blake2bMidstate, n: Blake2bMidstate, a: NonceSpace, b: NonceSpace)
    requires m.flags % 4 == n.flags % 4 && Stage4Input(m, a) == Stage4Input(n, b)
    ensures a == b
  {
    var x, y := Stage4Input(m, a), Stage4Input(n, b);
    var at := match m.flags % 4 case 0 => 32 case 1 => 0 case 2 => 80 case _ => 112;
    var late := if m.flags % 4 == 1 then 12 else 8;
    NonceSlots(m, a, at, late);
    NonceSlots(n, b, at, late);
    Pow256Widths();
    LeBytesInjective(a.nonce, b.nonce, 4);
    LeBytesInjective(a.nonce2, b.nonce2, 4);
    LeBytesInjective(a.nonce3, b.nonce3, 4);
    LeBytesInjective(a.timeOffset, b.timeOffset, 4);
  }

  /** Within one midstate, in every layout, different nonce quadruples are different stage 4 inputs. */
  lemma Stage4Injective(m: Blake2bMidstate, a: NonceSpace, b: NonceSpace)
    requires Stage4Input(m, a) == Stage4Input(m, b)
    ensures a == b
  {
    hide Stage4Input;
    NoncesOnly(m, m, a, b);
  }

  lemma Stage3Slot(m: Blake2bMidstate, a: NonceSpace, at: nat)
    requires at == match m.flags % 4 case 0 => 48 case 1 => 16 case 2 => 96 case _ => 128
    ensures |Stage4Input(m, a)| >= at + 32 && Stage4Input(m, a)[at..at + 32] == m.stage3
  {
    hide LeBytes;
  }

  /** Between midstates of one layout, equal stage 4 inputs also have equal stage 3 digests. */
  lemma Stage4Binds(m: Blake2bMidstate, n: Blake2bMidstate, a: NonceSpace, b: NonceSpace)
    requires m.flags % 4 == n.flags % 4 && Stage4Input(m, a) == Stage4Input(n, b)
    ensures m.stage3 == n.stage3 && a == b
  {
    var at := match m.flags % 4 case 0 => 48 case 1 => 16 case 2 => 96 case _ => 128;
    Stage3Slot(m, a, at);
    Stage3Slot(n, b, at);
    NoncesOnly(m, n, a, b);
  }

  /** Different extranonces, or different job digests, are different stage 3 inputs. */
  lemma Stage3Injective(g2: Hash256, h2: Hash256, a: Array16, b: Array16)
    requires Stage3Input(g2, a) == Stage3Input(h2, b)
    ensures g2 == h2 && a == b
  {
    hide LeBytes;
    var x, y := Stage3Input(g2, a), Stage3Input(h2, b);
    assert a == x[36..] && b == y[36..] && g2 == x[4..36] && h2 == y[4..36];
  }

  // ----- the code -----

  /** Stage 0: fills whole bytes with zero, then masks the partial one. */
  method ComputeMask(key: Array16, clear: byte) returns (mask: Hash256)
    ensures mask == XorMask(key, clear)
  {
    hide Tagged, LowBits;
    if key == Zeros(16) {
      return Zeros(32);
    }
    var tagged := Tagged(XOR_MASK, key);
    var m := new byte[32](i requires 0 <= i < 32 => tagged[i]);
    var wholeBytes := clear / 8;
    for i := 0 to wholeBytes
      invariant fresh(m) && forall j :: 0 <= j < 32 ==> m[j] == if j < i then 0 else tagged[j]
    {
      m[i] := 0;
    }
    m[wholeBytes] := LowBits(m[wholeBytes], clear % 8);
    mask := m[..];
    assert mask == ClearTop(tagged, clear);
  }

  /** Stage 1, field by field; the byte counts are the source's own assertions. */
  method ComputeH1(h: BlockHeader) returns (h1: Hash256)
    ensures h1 == Tagged(HEADER_1, H1Body(h))
  {
    hide LeBytes, Tagged, ToDisplay, TaggedHasher.Valid, CompleteVersion;
    var prevSane := ToDisplay(h.prevBlock);
    var hasher := new TaggedHasher(HEADER_1);
    hasher.WriteU32(CompleteVersion(h));
    hasher.Write(prevSane);
    hasher.WriteU32(h.height);
    hasher.Write(h.merkleRoot);
    hasher.WriteU32(h.timeOnWire);
    hasher.WriteU8(0);
    hasher.WriteU32(h.bits);
    hasher.WriteU32(h.txcount);
    hasher.WriteU8(h.flags);
    hasher.WriteU8(h.xorKeyMaskClearBits);
    hasher.Write(Tagged(XOR_KEY, h.xorKey));
    assert hasher.written == H1Body(h);
    var count := hasher.BytesWritten();
    assert count == 0x40 + 119;
    h1 := hasher.Finalize();
  }

  method ComputeH2(h: BlockHeader) returns (h2: Hash256)
    ensures h2 == H2(h)
  {
    hide Tagged, H1Body, TaggedHasher.Valid;
    var h1 := ComputeH1(h);
    var hasher := new TaggedHasher(MERGE_MINING);
    hasher.Write(h1);
    hasher.Write(Zeros(16));
    hasher.Write(Zeros(16));
    hasher.Write(h.mmRhs);
    assert hasher.written == h1 + Zeros(16) + Zeros(16) + h.mmRhs;
    var count := hasher.BytesWritten();
    assert count == 0x40 + 0x60;
    h2 := hasher.Finalize();
  }

  method ComputeMidstate(h: BlockHeader) returns (m: Blake2bMidstate)
    ensures m == NewBlake2b(h)
  {
    hide Tagged, H2, Stage3, XorMask;
    var mask := ComputeMask(h.xorKey, h.xorKeyMaskClearBits);
    var h2 := ComputeH2(h);
    m := Blake2bMidstate(Stage3(h2, h.extranonce), h2, PrevHidden(h), mask, h.flags);
  }

  /** Stages 4 and 5: the buffer built for the layout, then the masking loop. */
  method ComputeHash(m: Blake2bMidstate, at: NonceSpace) returns (hash: Hash256)
    ensures hash == HashBlake2b(m, at)
  {
    hide LeBytes, Blake2b.Hash256, Blanked, Xor;
    var n, n2, n3, offset := LeBytes(at.nonce, 4), LeBytes(at.nonce2, 4), LeBytes(at.nonce3, 4), LeBytes(at.timeOffset, 4);
    var input: seq<byte> := [];
    var layout := m.flags % 4;
    if layout == 0 {
      input := input + Blanked(m.prevHidden);
      input := input + n + n2 + offset + n3 + m.stage3;
    } else if layout == 1 {
      input := input + n + n2 + n3 + offset + m.stage3 + m.h2;
    } else {
      if layout == 3 {
        input := input + Zeros(32);
      }
      input := input + Zeros(48) + m.h2 + n + n2 + offset + n3 + m.stage3;
    }
    assert input == Stage4Input(m, at);
    var digest := Blake2b.Hash256(input);
    var masked := new byte[32](i => 0);
    for i := 0 to 32
      invariant fresh(masked) && forall j :: 0 <= j < i ==> masked[j] == Xor(digest[j], m.xorMask[j])
    {
      masked[i] := Xor(digest[i], m.xorMask[i]);
    }
    assert masked[..] == XorSeq(digest, m.xorMask);
    hash := FromDisplay(masked[..]);
  }
}

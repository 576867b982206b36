/** The Stratum wire: a job in `mining.notify`, a share in `mining.submit`, and the subscription. */
module Stratum {
  import opened Wrappers
  import opened Bytes
  import opened Hash256
  import opened Header
  import opened Target
  import Hex
  import Pow

  /** A parsed JSON value; shapes nothing here reads are lumped together. */
  datatype Json = Text(text: string) | Array(items: seq<Json>) | Boolean(b: bool) | Number(n: nat) | Other

  const EXTRANONCE1_SIZE: nat := 8
  const EXTRANONCE2_SIZE: nat := 8

  datatype Job = Job(
    jobId: string,
    prevHidden: Hash256,
    consensusDigest: Hash256,
    flags: byte,
    bits: u32,
    cleanJobs: bool)

  datatype JobError =
    | NotAnArray
    | WrongParamCount(count: nat)
    | NotAString(index: nat)
    | NotHex(index: nat)
    | BadHex(hex: Hex.HexError)
    | BadCoinb1Length(len: nat)
    | UnexpectedCoinbaseSuffix
    | UnexpectedMerkleBranch
    | FlagsOutOfRange
    | BadExtranonceLength(extranonce1: nat, extranonce2: nat)
    | BadTarget(target: TargetError)

  function ToNotifyParams(job: Job): Json
  {
    Array([
      Text(job.jobId),
      Text(Hex.Encode(job.prevHidden)),
      Text("00000000" + Hex.Encode(job.consensusDigest)),
      Text(""),
      Array([]),
      Text(Hex.FormatU32(job.flags)),
      Text(Hex.FormatU32(job.bits)),
      Text("00000000"),
      Boolean(job.cleanJobs)])
  }

  function TextAt(items: seq<Json>, index: nat): Result<string, JobError>
    requires index < |items|
  {
    if items[index].Text? then Success(items[index].text) else Failure(NotAString(index))
  }

  function HexAt(items: seq<Json>, index: nat): Result<seq<byte>, JobError>
    requires index < |items|
  {
    var text :- TextAt(items, index);
    match Hex.Decode(text)
    case Success(bytes) => Success(bytes)
    case Failure(e) => Failure(BadHex(e))
  }

  function U32At(items: seq<Json>, index: nat): (r: Result<u32, JobError>)
    requires index < |items|
  {
    var text :- TextAt(items, index);
    match Hex.ParseRadix16(text, 0xFFFF_FFFF)
    case Some(v) => Success(v)
    case None => Failure(NotHex(index))
  }

  /** A full hash, or the length it had instead. */
  function HashAt(items: seq<Json>, index: nat): (r: Result<Hash256, JobError>)
    requires index < |items|
  {
    var text :- TextAt(items, index);
    match Hex.DecodeArray(text, 32)
    case Success(bytes) => Success(bytes)
    case Failure(e) => Failure(BadHex(e))
  }

  /** Every check in the source's order. */
  function FromNotifyParams(params: Json): Result<Job, JobError>
  {
    if !params.Array? then Failure(NotAnArray)
    else if |params.items| < 9 then Failure(WrongParamCount(|params.items|))
    else
      var items := params.items;
      var coinb1 :- HexAt(items, 2);
      if |coinb1| != 36 then Failure(BadCoinb1Length(|coinb1|))
      else
        var coinb2 :- TextAt(items, 3);
        if coinb2 != "" then Failure(UnexpectedCoinbaseSuffix)
        else if items[4].Array? && items[4].items != [] then Failure(UnexpectedMerkleBranch)
        else
          var jobId :- TextAt(items, 0);
          var prevHidden :- HashAt(items, 1);
          var flags :- U32At(items, 5);
          if flags > 0xFF then Failure(FlagsOutOfRange)
          else
            var bits :- U32At(items, 6);
            Success(Job(jobId, prevHidden, coinb1[4..], flags, bits, items[8].Boolean? && items[8].b))
  }

  /** A job survives the wire. */
  lemma NotifyRoundTrip(job: Job)
    ensures FromNotifyParams(ToNotifyParams(job)) == Success(job)
  {
    hide Hex.Encode, Hex.Decode, Hex.FormatU32, Hex.ParseRadix16;
    Hex.DecodeEncode(job.prevHidden);
    ZeroWordPrefix(job.consensusDigest);
    Hex.ParseFormatU32(job.flags);
    Hex.ParseFormatU32(job.bits);
    assert (Zeros(4) + job.consensusDigest)[4..] == job.consensusDigest;
  }

  lemma ZeroWordPrefix(digest: Hash256)
    ensures Hex.Decode("00000000" + Hex.Encode(digest)) == Success(Zeros(4) + digest)
  {
    hide Hex.Decode;
    var bytes: seq<byte> := [0, 0, 0, 0] + digest;
    assert bytes == Zeros(4) + digest;
    Hex.DecodeEncode(bytes);
    EncodeZeroWord(digest);
  }

  lemma EncodeZeroWord(digest: Hash256)
    ensures Hex.Encode([0, 0, 0, 0] + digest) == "00000000" + Hex.Encode(digest)
  {
    var b4, b3, b2, b1: seq<byte> := [0, 0, 0, 0] + digest, [0, 0, 0] + digest, [0, 0] + digest, [0] + digest;
    assert b4[1..] == b3 && b3[1..] == b2 && b2[1..] == b1 && b1[1..] == digest;
    assert Hex.EncodeByte(0) == "00";
    hide Hex.EncodeByte;
    assert Hex.Encode(b4) == "00" + Hex.Encode(b3) && Hex.Encode(b3) == "00" + Hex.Encode(b2);
    assert Hex.Encode(b2) == "00" + Hex.Encode(b1) && Hex.Encode(b1) == "00" + Hex.Encode(digest);
  }

  /** The third parameter is four bytes nobody reads and the job's digest. */
  predicate CarriesDigest(text: string, digest: Hash256)
  {
    match Hex.Decode(text) case Success(bytes) => |bytes| == 36 && bytes[4..] == digest case Failure(_) => false
  }

  /**
    Parameters are taken for a job exactly when each stands in its place: the id, the hidden parent, the
    digest after four bytes, no coinbase suffix and no branch, flags of one byte, the target, and the
    clean flag, which anything but a boolean leaves off.
   */
  lemma NotifyAccepts(params: Json, job: Job)
    ensures FromNotifyParams(params) == Success(job) <==>
            && params.Array? && |params.items| >= 9
            && var p := params.items;
               && p[0] == Text(job.jobId) && p[1].Text? && Hex.Decode(p[1].text) == Success(job.prevHidden)
               && p[2].Text? && CarriesDigest(p[2].text, job.consensusDigest) && p[3] == Text("")
               && (p[4].Array? ==> p[4].items == [])
               && p[5].Text? && Hex.ParseRadix16(p[5].text, 0xFFFF_FFFF) == Some(job.flags)
               && p[6].Text? && Hex.ParseRadix16(p[6].text, 0xFFFF_FFFF) == Some(job.bits)
               && job.cleanJobs == (p[8] == Boolean(true))
  {
    hide Hex.Decode, Hex.ParseRadix16;
  }

  /** The digest's place holds hexadecimal text of another length than 36 bytes. */
  predicate WrongDigestLength(p: seq<Json>)
    requires |p| >= 3
  {
    p[2].Text? && Hex.Decode(p[2].text).Success? && |Hex.Decode(p[2].text).value| != 36
  }

  predicate RightDigestLength(p: seq<Json>)
    requires |p| >= 3
  {
    p[2].Text? && Hex.Decode(p[2].text).Success? && |Hex.Decode(p[2].text).value| == 36
  }

  /** The shapes that mean the sender takes this for another chain, or for nothing at all, each refused as itself. */
  lemma NotifyRefuses(params: Json)
    ensures var (r, p) := (FromNotifyParams(params), if params.Array? then params.items else []);
      && (r == Failure(NotAnArray) <==> !params.Array?)
      && (r.Failure? && r.error.WrongParamCount? <==> params.Array? && |p| < 9)
      && (r.Failure? && r.error.WrongParamCount? ==> r.error.count == |p|)
      && (|p| >= 9 ==>
            && (r.Failure? && r.error.BadCoinb1Length? <==> WrongDigestLength(p))
            && (r == Failure(UnexpectedCoinbaseSuffix) <==> RightDigestLength(p) && p[3].Text? && p[3] != Text(""))
            && (r == Failure(UnexpectedMerkleBranch) <==> RightDigestLength(p) && p[3] == Text("") && p[4].Array? && p[4].items != [])
            && (r == Failure(FlagsOutOfRange) ==> p[5].Text? && Hex.ParseRadix16(p[5].text, 0xFFFF_FFFF).Some?
                                                  && Hex.ParseRadix16(p[5].text, 0xFFFF_FFFF).value > 0xFF)
            && (r == Failure(NotHex(5)) ==> p[5].Text? && Hex.ParseRadix16(p[5].text, 0xFFFF_FFFF).None?)
            && (r == Failure(NotHex(6)) ==> p[6].Text? && Hex.ParseRadix16(p[6].text, 0xFFFF_FFFF).None?))
  {
    hide Hex.Decode, Hex.ParseRadix16;
  }

  /** And five for a share: worker, job, the miner's half of the extranonce, time offset and nonce. */
  lemma SubmitAccepts(params: Json, share: Share)
    ensures FromSubmitParams(params) == Success(share) <==>
            && params.Array? && |params.items| >= 5
            && var p := params.items;
               && p[0] == Text(share.worker) && p[1] == Text(share.jobId)
               && p[2].Text? && Hex.Decode(p[2].text) == Success(share.extranonce2)
               && p[3].Text? && Hex.ParseRadix16(p[3].text, 0xFFFF_FFFF) == Some(share.timeOffset)
               && p[4].Text? && Hex.ParseRadix16(p[4].text, 0xFFFF_FFFF) == Some(share.nonce)
  {
    hide Hex.Decode, Hex.ParseRadix16;
  }

  function JobTarget(job: Job): Result<Target, JobError>
  {
    match FromCompact(job.bits)
    case Success(t) => Success(t)
    case Failure(e) => Failure(BadTarget(e))
  }

  /** Stage 3 from the job and both extranonce halves. */
  function JobMidstate(job: Job, extranonce1: seq<byte>, extranonce2: seq<byte>): Result<Pow.Blake2bMidstate, JobError>
  {
    if |extranonce1| + |extranonce2| != 16 then Failure(BadExtranonceLength(|extranonce1|, |extranonce2|))
    else Success(Pow.FromStratumJob(job.consensusDigest, extranonce1 + extranonce2, job.prevHidden, job.flags))
  }

  /** A midstate is refused exactly when the halves do not fill sixteen bytes, and the error says how long each was. */
  lemma MidstateFails(job: Job, extranonce1: seq<byte>, extranonce2: seq<byte>)
    ensures var r := JobMidstate(job, extranonce1, extranonce2);
      && (r.Failure? <==> |extranonce1| + |extranonce2| != 16)
      && (r.Failure? ==> r.error.BadExtranonceLength? && r.error.extranonce1 == |extranonce1| && r.error.extranonce2 == |extranonce2|)
  {
    hide Pow.FromStratumJob;
  }

  /** Copies the two halves into one buffer. */
  method FillExtranonce(extranonce1: seq<byte>, extranonce2: seq<byte>) returns (extranonce: Array16)
    requires |extranonce1| + |extranonce2| == 16
    ensures extranonce == extranonce1 + extranonce2
  {
    var buffer := new byte[16](i => 0);
    var split := |extranonce1|;
    for i := 0 to split
      invariant fresh(buffer) && buffer[..i] == extranonce1[..i]
    {
      buffer[i] := extranonce1[i];
    }
    for i := 0 to |extranonce2|
      invariant fresh(buffer) && buffer[..split] == extranonce1
      invariant buffer[split..split + i] == extranonce2[..i]
    {
      buffer[split + i] := extranonce2[i];
      assert buffer[split..split + i + 1] == buffer[split..split + i] + [extranonce2[i]];
    }
    assert buffer[..] == buffer[..split] + buffer[split..split + |extranonce2|];
    extranonce := buffer[..];
  }

  method ComputeJobMidstate(job: Job, extranonce1: seq<byte>, extranonce2: seq<byte>)
    returns (r: Result<Pow.Blake2bMidstate, JobError>)
    ensures r == JobMidstate(job, extranonce1, extranonce2)
  {
    hide Pow.FromStratumJob;
    if |extranonce1| + |extranonce2| != 16 {
      return Failure(BadExtranonceLength(|extranonce1|, |extranonce2|));
    }
    var extranonce := FillExtranonce(extranonce1, extranonce2);
    return Success(Pow.FromStratumJob(job.consensusDigest, extranonce, job.prevHidden, job.flags));
  }

  // ----- shares -----

  datatype Share = Share(worker: string, jobId: string, extranonce2: seq<byte>, timeOffset: u32, nonce: u32)

  function ToSubmitParams(share: Share): Json
  {
    Array([Text(share.worker), Text(share.jobId), Text(Hex.Encode(share.extranonce2)),
           Text(Hex.FormatU32(share.timeOffset)), Text(Hex.FormatU32(share.nonce))])
  }

  function FromSubmitParams(params: Json): Result<Share, JobError>
  {
    if !params.Array? then Failure(NotAnArray)
    else if |params.items| < 5 then Failure(WrongParamCount(|params.items|))
    else
      var items := params.items;
      var worker :- TextAt(items, 0);
      var jobId :- TextAt(items, 1);
      var extranonce2 :- HexAt(items, 2);
      var timeOffset :- U32At(items, 3);
      var nonce :- U32At(items, 4);
      Success(Share(worker, jobId, extranonce2, timeOffset, nonce))
  }

  /** A share survives the wire. */
  lemma SubmitRoundTrip(share: Share)
    ensures FromSubmitParams(ToSubmitParams(share)) == Success(share)
  {
    hide Hex.Encode, Hex.Decode, Hex.FormatU32, Hex.ParseRadix16;
    Hex.DecodeEncode(share.extranonce2);
    Hex.ParseFormatU32(share.timeOffset);
    Hex.ParseFormatU32(share.nonce);
  }

  // ----- subscription -----

  /** The reply to `mining.subscribe`: stream names, the connection's prefix, and the width left to the miner. */
  function SubscribeReply(connectionId: u64): Json
  {
    var id := Text(Hex.Encode(BeBytes(connectionId, 8)));
    Array([Array([Array([Text("mining.set_difficulty"), id]), Array([Text("mining.notify"), id])]),
           Text(Hex.Encode(BeBytes(connectionId, EXTRANONCE1_SIZE))), Number(EXTRANONCE2_SIZE)])
  }

  function ParseSubscription(reply: Json): Option<(seq<byte>, nat)>
  {
    if !reply.Array? || |reply.items| < 3 || !reply.items[1].Text? || !reply.items[2].Number? then None
    else
      match Hex.Decode(reply.items[1].text)
      case Failure(_) => None
      case Success(extranonce1) =>
        if |extranonce1| + reply.items[2].n != 16 then None else Some((extranonce1, reply.items[2].n))
  }

  /** A subscription is taken exactly when it names bytes and a width that fill the sixteen of the header's field. */
  lemma SubscriptionAccepts(reply: Json, extranonce1: seq<byte>, width: nat)
    ensures ParseSubscription(reply) == Some((extranonce1, width)) <==>
            && reply.Array? && |reply.items| >= 3 && reply.items[1].Text? && reply.items[2] == Number(width)
            && Hex.Decode(reply.items[1].text) == Success(extranonce1) && |extranonce1| + width == 16
  {
    hide Hex.Decode;
  }

  /** `encode_extranonce2`: a ticket in exactly `size` bytes, big-endian, losing its top when too wide. */
  function EncodeExtranonce2(ticket: u64, size: nat): (e: seq<byte>)
    ensures |e| == size
  {
    BeBytes(ticket, size)
  }

  /** As a number it is the ticket, less whatever does not fit. */
  lemma Extranonce2Value(ticket: u64, size: nat)
    ensures BeValue(EncodeExtranonce2(ticket, size)) == ticket % Pow256(size)
  {
    hide LeBytes, LeValue;
    LeBytesDrop(ticket, size);
    BeValueOfBeBytes(ticket % Pow256(size), size);
  }

  method FillExtranonce2(ticket: u64, size: nat) returns (e: seq<byte>)
    ensures e == EncodeExtranonce2(ticket, size)
  {
    var bytes := BeBytes(ticket, 8);
    var buffer := new byte[size](i => 0);
    var copy := if size < 8 then size else 8;
    for i := 0 to copy
      invariant fresh(buffer)
      invariant forall j :: 0 <= j < size ==> buffer[j] == if size - copy <= j < size - copy + i then bytes[8 - size + j] else 0
    {
      buffer[size - copy + i] := bytes[8 - copy + i];
    }
    e := buffer[..];
    forall j | 0 <= j < size
      ensures e[j] == BeBytes(ticket, size)[j]
    {
      LeBytesDigit(ticket, size, size - 1 - j);
      if j >= size - copy { LeBytesDigit(ticket, 8, size - 1 - j); } else { DigitAbove(ticket, size - 1 - j); }
    }
  }

  /** The i-th little-endian byte is the i-th base-256 digit, whatever the width. */
  lemma {:induction false} LeBytesDigit(v: nat, n: nat, i: nat)
    requires i < n
    ensures LeBytes(v, n)[i] == v / Pow256(i) % 256
  {
    if i > 0 {
      LeBytesDigit(v / 256, n - 1, i - 1);
      assert LeBytes(v, n)[i] == LeBytes(v / 256, n - 1)[i - 1];
      DivPow(v, i - 1);
    }
  }

  lemma {:induction false} DivPow(v: nat, i: nat)
    ensures v / 256 / Pow256(i) == v / Pow256(i + 1)
  {
    var d := Pow256(i);
    var q, r := v / 256 / d, v / 256 % d;
    assert v / 256 == d * q + r;
    assert v == (256 * d) * q + (256 * r + v % 256);
    DivUnique(v, 256 * d, q, 256 * r + v % 256);
  }

  lemma DigitAbove(v: u64, i: nat)
    requires i >= 8
    ensures v / Pow256(i) % 256 == 0
  {
    Pow256Widths();
    Pow256Add(8, i - 8);
    MulAtLeast(TWO_64, Pow256(i - 8));
    DivUnique(v, Pow256(i), 0, v);
  }

  /** What the miner reads back is the eight bytes of its connection number, and eight of its own to fill. */
  lemma SubscriptionRoundTrip(connectionId: u64)
    ensures ParseSubscription(SubscribeReply(connectionId)) == Some((BeBytes(connectionId, 8), 8))
  {
    hide Hex.Encode, Hex.Decode;
    Hex.DecodeEncode(BeBytes(connectionId, 8));
  }

  /** No two (connection, ticket) pairs share an extranonce, so no two threads of one job share a stage 3 input. */
  lemma SearchSpacesDisjoint(c1: u64, t1: u64, c2: u64, t2: u64, h2: Hash256)
    requires (c1, t1) != (c2, t2)
    ensures BeBytes(c1, 8) + EncodeExtranonce2(t1, 8) != BeBytes(c2, 8) + EncodeExtranonce2(t2, 8)
    ensures Pow.Stage3Input(h2, BeBytes(c1, 8) + EncodeExtranonce2(t1, 8)) != Pow.Stage3Input(h2, BeBytes(c2, 8) + EncodeExtranonce2(t2, 8))
  {
    hide Pow.Stage3Input, BeBytes, Pow256;
    var e1, e2 := BeBytes(c1, 8) + EncodeExtranonce2(t1, 8), BeBytes(c2, 8) + EncodeExtranonce2(t2, 8);
    Pow256Widths();
    if e1 == e2 {
      assert BeBytes(c1, 8) == e1[..8] && BeBytes(c2, 8) == e2[..8];
      assert BeBytes(t1, 8) == e1[8..] && BeBytes(t2, 8) == e2[8..];
      BeBytesInjective(c1, c2, 8);
      BeBytesInjective(t1, t2, 8);
    }
    if Pow.Stage3Input(h2, e1) == Pow.Stage3Input(h2, e2) { Pow.Stage3Injective(h2, h2, e1, e2); }
  }
}

/** Checking a share: the header is rebuilt, hashed in full, and a winning one is submitted. */
module Validate {
  import opened Wrappers
  import opened Bytes
  import opened Hash256
  import opened Header
  import opened Target
  import Block
  import Hex
  import opened JobBuilder
  import Pow
  import Stratum
  import opened Transaction

  datatype Verdict =
    | BlockAccepted(hash: Hash256, height: u32)
    | BlockStale(reason: string, hash: Hash256)
    | BlockRejected(reason: string, hash: Hash256)
    | Share(hash: Hash256, zeroBits: nat)

  datatype ValidationError = BadExtranonceLength(extranonce1: nat, extranonce2: nat) | Rpc

  /** The node's answer to `submitblock`: no answer, acceptance, or a reason. */
  datatype Reply = Unreachable | Accepted | Refused(reason: string)

  /** The header a miner claims to have hashed: the two words Stratum has no slot for are zero. */
  function Rebuilt(h: BlockHeader, share: Stratum.Share, extranonce: Array16): BlockHeader
  {
    h.(extranonce := extranonce, nonce := share.nonce, timeOffset := share.timeOffset, nonce2 := 0, nonce3 := 0)
  }

  /** The verdict on a block that was submitted. */
  function Judge(hash: Hash256, height: u32, reply: Reply): Result<Verdict, ValidationError>
  {
    match reply
    case Unreachable => Failure(Rpc)
    case Accepted => Success(BlockAccepted(hash, height))
    case Refused(reason) =>
      Success(if reason == "inconclusive" || reason == "duplicate" then BlockStale(reason, hash) else BlockRejected(reason, hash))
  }

  /** The verdict on a share, and the block sent to the node to reach it. */
  function Outcome(active: ActiveJob, share: Stratum.Share, extranonce1: seq<byte>, reply: Reply)
    : (Result<Verdict, ValidationError>, Option<string>)
  {
    if |extranonce1| + |share.extranonce2| != 16 then (Failure(BadExtranonceLength(|extranonce1|, |share.extranonce2|)), None)
    else
      var header := Rebuilt(active.header, share, extranonce1 + share.extranonce2);
      var hash := Pow.PowHash(header);
      if IsMetBy(active.networkTarget, hash) then
        (Judge(hash, active.height, reply), Some(Hex.Encode(Block.SerializeBlock(active.block, header))))
      else (Success(Share(hash, LeadingZeroBits(hash))), None)
  }

  method Check(active: ActiveJob, share: Stratum.Share, extranonce1: seq<byte>, reply: Reply)
    returns (verdict: Result<Verdict, ValidationError>, submitted: Option<string>)
    ensures (verdict, submitted) == Outcome(active, share, extranonce1, reply)
  {
    hide Pow.PowHash, Block.SerializeBlock, Hex.Encode, LeadingZeroBits, Value;
    if |extranonce1| + |share.extranonce2| != 16 {
      return Failure(BadExtranonceLength(|extranonce1|, |share.extranonce2|)), None;
    }
    var extranonce := Stratum.FillExtranonce(extranonce1, share.extranonce2);
    var header := Rebuilt(active.header, share, extranonce);
    var hash := Pow.PowHash(header);
    var met := CheckMet(active.networkTarget, hash);
    if !met {
      var zeroBits := CountLeadingZeroBits(hash);
      return Success(Share(hash, zeroBits)), None;
    }
    var raw := Block.ComputeSerialize(active.block, header);
    var text := Hex.ComputeEncode(raw);
    match reply
    case Unreachable => return Failure(Rpc), Some(text);
    case Accepted => return Success(BlockAccepted(hash, active.height)), Some(text);
    case Refused(reason) =>
      if reason == "inconclusive" || reason == "duplicate" {
        return Success(BlockStale(reason, hash)), Some(text);
      }
      return Success(BlockRejected(reason, hash)), Some(text);
  }

  /**
    A block goes to the node exactly when the halves fill the extranonce and the rebuilt header's own
    hash meets the target, and then the verdict is the node's; nothing below the target is ever called a block.
   */
  lemma OnlyBlocksAreSubmitted(active: ActiveJob, share: Stratum.Share, extranonce1: seq<byte>, reply: Reply)
    ensures var (verdict, submitted) := Outcome(active, share, extranonce1, reply);
      && (verdict.Failure? && verdict.error.BadExtranonceLength? <==> |extranonce1| + |share.extranonce2| != 16)
      && (|extranonce1| + |share.extranonce2| != 16 ==> verdict == Failure(BadExtranonceLength(|extranonce1|, |share.extranonce2|)))
      && (submitted.Some? <==>
            && |extranonce1| + |share.extranonce2| == 16
            && Value(Pow.PowHash(Rebuilt(active.header, share, extranonce1 + share.extranonce2))) <= TargetValue(active.networkTarget))
      && (submitted.None? && verdict.Success? ==> verdict.value.Share? && Value(verdict.value.hash) > TargetValue(active.networkTarget))
      && (submitted.Some? && verdict.Success? ==> !verdict.value.Share? && Value(verdict.value.hash) <= TargetValue(active.networkTarget))
  {
    hide Pow.PowHash, Block.SerializeBlock, Hex.Encode, LeadingZeroBits, Value, TargetValue;
  }

  /**
    Every verdict reports the rebuilt header's own hash, and a share its zero bits; on a block that was
    sent it is the node's: accepted at the job's height, stale for its two words for a lost race, rejected
    for any other, and an error when nobody answered.
   */
  lemma VerdictIsTheNodes(active: ActiveJob, share: Stratum.Share, extranonce1: seq<byte>, reply: Reply)
    requires |extranonce1| + |share.extranonce2| == 16
    ensures var (verdict, submitted) := Outcome(active, share, extranonce1, reply);
      var hash := Pow.PowHash(Rebuilt(active.header, share, extranonce1 + share.extranonce2));
      && (verdict.Success? ==> verdict.value.hash == hash)
      && (submitted.None? ==> verdict == Success(Share(hash, LeadingZeroBits(hash))))
      && (submitted.Some? ==>
            && (verdict == Failure(Rpc) <==> reply.Unreachable?)
            && (verdict == Success(BlockAccepted(hash, active.height)) <==> reply.Accepted?)
            && (verdict.Success? && verdict.value.BlockStale? <==> reply == Refused("inconclusive") || reply == Refused("duplicate"))
            && (verdict.Success? && verdict.value.BlockRejected? ==> reply == Refused(verdict.value.reason))
            && (verdict.Success? && verdict.value.BlockStale? ==> reply == Refused(verdict.value.reason)))
  {
    hide Pow.PowHash, Block.SerializeBlock, Hex.Encode, LeadingZeroBits, Value, TargetValue, Rebuilt;
  }

  /**
    What is sent to the node splits back into the rebuilt header, which meets the target, its coinbase and
    whatever the template's raw bytes hold, which is their transactions when each holds one.
   */
  lemma SubmittedBlockIsWhole(active: ActiveJob, share: Stratum.Share, extranonce1: seq<byte>, reply: Reply)
    requires Consistent(active) && active.block.coinbase.inputs != [] && Outcome(active, share, extranonce1, reply).1.Some?
    ensures |extranonce1| + |share.extranonce2| == 16
    ensures var (header, raw) := (Rebuilt(active.header, share, extranonce1 + share.extranonce2), active.block.transactions);
      var sent := Hex.Decode(Outcome(active, share, extranonce1, reply).1.value);
      && sent.Success?
      && Block.ParseBlock(sent.value)
         == (match Block.ParseTransactions(Block.Concat(raw), |raw|)
             case None => None
             case Some(txs) => Some(Block.Block(header, |raw| + 1, [active.block.coinbase] + txs)))
      && forall txs :: Block.Whole(raw, txs) ==> Block.ParseTransactions(Block.Concat(raw), |raw|) == Some(txs)
  {
    hide *;
    SentText(active, share, extranonce1, reply);
    RebuiltIsWhole(active, share, extranonce1 + share.extranonce2);
  }

  lemma RebuiltIsWhole(active: ActiveJob, share: Stratum.Share, extranonce: Array16)
    requires Consistent(active) && active.block.coinbase.inputs != []
    ensures var (header, raw) := (Rebuilt(active.header, share, extranonce), active.block.transactions);
      var sent := Hex.Decode(Hex.Encode(Block.SerializeBlock(active.block, header)));
      && sent.Success?
      && Block.ParseBlock(sent.value)
         == (match Block.ParseTransactions(Block.Concat(raw), |raw|)
             case None => None
             case Some(txs) => Some(Block.Block(header, |raw| + 1, [active.block.coinbase] + txs)))
      && forall txs :: Block.Whole(raw, txs) ==> Block.ParseTransactions(Block.Concat(raw), |raw|) == Some(txs)
  {
    hide Block.SerializeBlock, Block.ParseBlock, Block.ParseTransactions, Block.Concat, Block.Whole, Hex.Encode, Hex.Decode;
    var header := Rebuilt(active.header, share, extranonce);
    assert WellFormed(header) && Block.TransactionCount(active.block) == |active.block.transactions| + 1;
    hide *;
    Block.BlockSplits(active.block, header);
    Hex.DecodeEncode(Block.SerializeBlock(active.block, header));
  }

  lemma SentText(active: ActiveJob, share: Stratum.Share, extranonce1: seq<byte>, reply: Reply)
    requires Outcome(active, share, extranonce1, reply).1.Some?
    ensures |extranonce1| + |share.extranonce2| == 16
    ensures Outcome(active, share, extranonce1, reply).1.value
            == Hex.Encode(Block.SerializeBlock(active.block, Rebuilt(active.header, share, extranonce1 + share.extranonce2)))
  {
    hide Block.SerializeBlock, Hex.Encode, Pow.PowHash, LeadingZeroBits, IsMetBy, Rebuilt;
  }
}

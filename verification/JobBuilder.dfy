/** From a block template to a Stratum job and everything needed to rebuild a block from a share. */
module JobBuilder {
  import opened Wrappers
  import opened Bytes
  import opened Hash256
  import opened Header
  import opened Target
  import Block
  import Coinbase
  import Hex
  import Merkle
  import Pow
  import opened Reader
  import Script
  import Stratum
  import opened Transaction
  import Witness

  const MIN_DIFFICULTY_BITS: u32 := 0x1D00_FFFF
  const POOL_TAG: seq<byte> := Pow.Ascii("bip110-miner")

  datatype TemplateTransaction = TemplateTransaction(data: string, txid: string, hash: string)

  type TemplateTransactions = s: seq<TemplateTransaction> | |s| < TWO_64 - 1

  datatype BlockTemplate = BlockTemplate(
    version: u32,
    previousBlockHash: string,
    transactions: TemplateTransactions,
    coinbaseValue: u64,
    bits: string,
    height: u32,
    currentTime: u64,
    defaultWitnessCommitment: Option<string>)

  datatype Window = Window(ntime: u32, legalAt: int)

  datatype ActiveJob = ActiveJob(
    job: Stratum.Job,
    header: BlockHeader,
    block: Block.BlockBuilder,
    height: u32,
    networkTarget: Target,
    minDifficulty: Option<Window>)

  datatype BuildError =
    | BadTemplate
    | CoinbaseFailed(error: Coinbase.CoinbaseError)
    | BlockFailed(blockError: Block.BlockError)
    | WitnessCommitmentMismatch
    | TimeOverflow
    | PreForkTemplate(height: u32)

  // ----- reading the template -----

  function ParseHash(s: string): Option<Hash256>
  {
    match Hex.DecodeArray(s, 32) case Success(bytes) => Some(FromDisplay(bytes)) case Failure(_) => None
  }

  function ParseRaw(s: string): Option<seq<byte>>
  {
    match Hex.Decode(s) case Success(bytes) => Some(bytes) case Failure(_) => None
  }

  /** Every element parsed, or nothing if one fails. */
  function Collect<S, T>(parse: S -> Option<T>, xs: seq<S>): (r: Option<seq<T>>)
    ensures r.Some? ==> |r.value| == |xs| && forall i :: 0 <= i < |xs| ==> parse(xs[i]) == Some(r.value[i])
    ensures r.None? ==> exists i :: 0 <= i < |xs| && parse(xs[i]).None?
  {
    if xs == [] then Some([])
    else
      match parse(xs[0])
      case None => None
      case Some(x) => match Collect(parse, xs[1..]) case None => None case Some(rest) => Some([x] + rest)
  }

  function ParsedWtxids(template: BlockTemplate): Option<seq<Hash256>>
  {
    Collect((tx: TemplateTransaction) => ParseHash(tx.hash), template.transactions)
  }

  function ParsedTxids(template: BlockTemplate): Option<seq<Hash256>>
  {
    Collect((tx: TemplateTransaction) => ParseHash(tx.txid), template.transactions)
  }

  function ParsedRaw(template: BlockTemplate): Option<seq<seq<byte>>>
  {
    Collect((tx: TemplateTransaction) => ParseRaw(tx.data), template.transactions)
  }

  function CompactBits(s: string): Option<u32>
  {
    match Hex.DecodeArray(s, 4)
    case Failure(_) => None
    case Success(bytes) => Pow256Widths(); LeValueBound(Reversed(bytes)); Some(BeValue(bytes))
  }

  function Required<T>(r: Option<T>): Result<T, BuildError> { if r.Some? then Success(r.value) else Failure(BadTemplate) }

  /** The timestamp and target: the window's own on a minimum-difficulty network, else the template's. */
  function TimeAndBits(template: BlockTemplate, window: Option<Window>): Result<(u32, u32), BuildError>
  {
    if window.Some? then Success((window.value.ntime, MIN_DIFFICULTY_BITS))
    else if template.currentTime >= TWO_32 then Failure(TimeOverflow)
    else
      var bits :- Required(CompactBits(template.bits));
      Success((template.currentTime, bits))
  }

  /** The text of a hash as people write it: hexadecimal, most significant byte first. */
  predicate Displays(s: string, h: Hash256) { Hex.Decode(s) == Success(Reversed(h)) }

  /** A hash is read from exactly the texts that display it. */
  lemma HashFromDisplay(s: string, h: Hash256)
    ensures ParseHash(s) == Some(h) <==> Displays(s, h)
    ensures Displays(Hex.Encode(Reversed(h)), h)
  {
    hide Hex.Decode, Hex.Encode;
    Hex.DecodeEncode(Reversed(h));
    ReversedTwice(h);
    if ParseHash(s) == Some(h) {
      ReversedTwice(Hex.DecodeArray(s, 32).value);
    }
  }

  /** And the compact target from exactly the four bytes of it, most significant first. */
  lemma BitsFromText(s: string, bits: u32)
    ensures CompactBits(s) == Some(bits) <==> Hex.Decode(s) == Success(BeBytes(bits, 4))
  {
    hide Hex.Decode, LeValue, LeBytes;
    Pow256Widths();
    BeValueOfBeBytes(bits, 4);
    if CompactBits(s) == Some(bits) { BeBytesOfBeValue(Hex.DecodeArray(s, 4).value); }
  }

  // ----- building -----

  function CoinbaseFor(template: BlockTemplate, payout: vec<byte>, headline: Option<Script.element>, commitment: vec<byte>)
    : Coinbase.CoinbaseBuilder
  {
    Coinbase.CoinbaseBuilder(template.height, template.coinbaseValue, payout, [], POOL_TAG, headline, Some(commitment))
  }

  function HeaderTemplate(template: BlockTemplate, prev: Hash256, time: u32, bits: u32): BlockHeader
  {
    BlockHeader(template.version >= VERSION_HEADER_V2_FLAG, template.version % VERSION_HEADER_V2_FLAG, prev, ZERO, time, bits,
                0, 0, 0, Zeros(16), 0, 0, 0, 0, Zeros(16), 0, ZERO)
  }

  /** What the miner is told of a header: two digests, the flags and the target. */
  function Projection(h: BlockHeader, jobId: string, clean: bool): Stratum.Job
  {
    Stratum.Job(jobId, Pow.Blanked(Pow.PrevHidden(h)), Pow.H2(h), h.flags, h.bits, clean)
  }

  /** Every step in the source's order, with the error that stops it. */
  function Build(jobId: string, template: BlockTemplate, payout: vec<byte>, headline: Option<Script.element>,
                 window: Option<Window>, clean: bool): Result<ActiveJob, BuildError>
  {
    var wtxids :- Required(ParsedWtxids(template));
    var commitment := Witness.CommitmentScript(wtxids);
    if template.defaultWitnessCommitment.Some? && Hex.Encode(commitment) != template.defaultWitnessCommitment.value then
      Failure(WitnessCommitmentMismatch)
    else
      match Coinbase.Build(CoinbaseFor(template, payout, headline, commitment))
      case Failure(e) => Failure(CoinbaseFailed(e))
      case Success(coinbase) =>
        var txids :- Required(ParsedTxids(template));
        var raw :- Required(ParsedRaw(template));
        match Block.New(coinbase, raw, txids)
        case Failure(e) => Failure(BlockFailed(e))
        case Success(block) => Assemble(jobId, template, block, window, clean)
  }

  /** From the assembled body to the job. */
  function Assemble(jobId: string, template: BlockTemplate, block: Block.BlockBuilder, window: Option<Window>, clean: bool)
    : Result<ActiveJob, BuildError>
  {
    var (time, bits) :- TimeAndBits(template, window);
    var prev :- Required(ParseHash(template.previousBlockHash));
    match Block.HeaderFor(block, HeaderTemplate(template, prev, time, bits), template.height)
    case Failure(e) => Failure(BlockFailed(e))
    case Success(header) =>
      if !header.headerV2 then Failure(PreForkTemplate(template.height))
      else
        match FromCompact(bits)
        case Failure(_) => Failure(BadTemplate)
        case Success(target) => Success(ActiveJob(Projection(header, jobId, clean), header, block, template.height, target, window))
  }

  // ----- what a built job guarantees -----

  /**
    The job is the projection of the header it is kept with; the key is null, and both sides derive one
    target from one field.
   */
  predicate Consistent(active: ActiveJob)
  {
    && active.header.headerV2 && active.header.version >= 0 && active.header.xorKey == Zeros(16)
    && active.job == Projection(active.header, active.job.jobId, active.job.cleanJobs)
    && Stratum.JobTarget(active.job) == Success(active.networkTarget)
    && active.height == active.header.height
  }

  lemma BuiltJobIsConsistent(jobId: string, template: BlockTemplate, payout: vec<byte>, headline: Option<Script.element>,
                             window: Option<Window>, clean: bool, active: ActiveJob)
    requires Build(jobId, template, payout, headline, window, clean) == Success(active)
    ensures Consistent(active) && active.job.jobId == jobId && active.job.cleanJobs == clean
    ensures if window.Some? then active.header.bits == MIN_DIFFICULTY_BITS else CompactBits(template.bits) == Some(active.header.bits)
  {
    hide ParsedWtxids, ParsedTxids, ParsedRaw, Witness.CommitmentScript, Hex.Encode;
    hide Build, Assemble, Consistent, CompactBits;
    var commitment := BuiltBody(jobId, template, payout, headline, window, clean, active);
    var base := Assembled(jobId, template, window, clean, active);
  }

  /** The body comes from the coinbase builder and the template, committing to what the node expects, and the rest from the body. */
  lemma BuiltBody(jobId: string, template: BlockTemplate, payout: vec<byte>, headline: Option<Script.element>,
                  window: Option<Window>, clean: bool, active: ActiveJob)
    returns (commitment: vec<byte>)
    requires Build(jobId, template, payout, headline, window, clean) == Success(active)
    ensures Coinbase.Build(CoinbaseFor(template, payout, headline, commitment)) == Success(active.block.coinbase)
    ensures Assemble(jobId, template, active.block, window, clean) == Success(active)
    ensures ParsedWtxids(template).Some? && commitment == Witness.CommitmentScript(ParsedWtxids(template).value)
    ensures template.defaultWitnessCommitment.Some? ==> Hex.Encode(commitment) == template.defaultWitnessCommitment.value
    ensures ParsedTxids(template) == Some(active.block.txids) && ParsedRaw(template) == Some(active.block.transactions)
    ensures |active.block.transactions| == |template.transactions| == |active.block.txids|
  {
    hide Witness.CommitmentScript, Hex.Encode, Coinbase.Build, Block.HeaderFor, FromCompact, Projection, TimeAndBits,
         HeaderTemplate, ParseHash, ParseRaw;
    commitment := Witness.CommitmentScript(ParsedWtxids(template).value);
  }

  /** Each transaction's own ids and bytes, as its texts give them. */
  predicate ListsFrom(template: BlockTemplate, wtxids: seq<Hash256>, txids: seq<Hash256>, raw: seq<seq<byte>>)
  {
    && |wtxids| == |txids| == |raw| == |template.transactions|
    && forall i :: 0 <= i < |template.transactions| ==>
         var tx := template.transactions[i];
         Displays(tx.hash, wtxids[i]) && Displays(tx.txid, txids[i]) && Hex.Decode(tx.data) == Success(raw[i])
  }

  lemma ParsedLists(template: BlockTemplate)
    requires ParsedWtxids(template).Some? && ParsedTxids(template).Some? && ParsedRaw(template).Some?
    ensures ListsFrom(template, ParsedWtxids(template).value, ParsedTxids(template).value, ParsedRaw(template).value)
  {
    hide ParseHash, Displays, Hex.Decode;
    var wtxids, txids, raw := ParsedWtxids(template).value, ParsedTxids(template).value, ParsedRaw(template).value;
    forall i | 0 <= i < |template.transactions|
      ensures var tx := template.transactions[i];
        Displays(tx.hash, wtxids[i]) && Displays(tx.txid, txids[i]) && Hex.Decode(tx.data) == Success(raw[i])
    {
      var tx := template.transactions[i];
      HashFromDisplay(tx.hash, wtxids[i]);
      HashFromDisplay(tx.txid, txids[i]);
    }
  }

  /** The bytes of the pool's tag, "bip110-miner". */
  const TAG_BYTES: seq<byte> := [0x62, 0x69, 0x70, 0x31, 0x31, 0x30, 0x2D, 0x6D, 0x69, 0x6E, 0x65, 0x72]

  /**
    The coinbase of a built job, to the last field: it pays the template's whole value to the payout script
    and nothing to the commitment over the template's wtxids, and its script reads as the height, the
    headline when there is one, and the tag.
   */
  lemma BuiltCoinbasePays(jobId: string, template: BlockTemplate, payout: vec<byte>, headline: Option<Script.element>,
                          window: Option<Window>, clean: bool, active: ActiveJob)
    returns (wtxids: seq<Hash256>)
    requires Build(jobId, template, payout, headline, window, clean) == Success(active)
    ensures ListsFrom(template, wtxids, active.block.txids, active.block.transactions)
    ensures var tx := active.block.coinbase;
      && tx.version == 2 && tx.lockTime == 0
      && tx.outputs == [TxOut(template.coinbaseValue, payout), TxOut(0, Witness.CommitmentScript(wtxids))]
      && |tx.inputs| == 1 && tx.inputs[0].previousOutput == OutPoint(ZERO, 0xFFFF_FFFF) && tx.inputs[0].sequence == 0xFFFF_FFFF
      && tx.inputs[0].stack == [Zeros(32)]
      && Script.ReadScript(tx.inputs[0].scriptSig)
         == Some([Script.ScriptNumber(template.height)] + (if headline.Some? then [headline.value] else []) + [TAG_BYTES])
      && Script.ReadScriptNumber(Script.ScriptNumber(template.height)) == template.height
  {
    hide ParsedWtxids, ParsedTxids, ParsedRaw, ListsFrom, Witness.CommitmentScript, Hex.Encode;
    hide Build, Assemble, Script.ReadScript, Script.ReadScriptNumber, Script.ScriptNumber, Coinbase.ScriptSig;
    var commitment := BuiltBody(jobId, template, payout, headline, window, clean, active);
    wtxids := ParsedWtxids(template).value;
    ParsedLists(template);
    var c := CoinbaseFor(template, payout, headline, commitment);
    Coinbase.ScriptSigReadsBack(c);
    TagIsItsBytes();
    var first, pushes := [Script.ScriptNumber(template.height)], Coinbase.Pushes(c);
    assert pushes == (if headline.Some? then [headline.value] else []) + [TAG_BYTES];
    Regroup(first, if headline.Some? then [headline.value] else [], [TAG_BYTES]);
  }

  lemma TagIsItsBytes()
    ensures POOL_TAG == TAG_BYTES
  {
  }

  /** What assembling a job asks of the template, past its transactions. */
  predicate CanAssemble(template: BlockTemplate, window: Option<Window>)
  {
    && (window.None? ==> template.currentTime < TWO_32 && CompactBits(template.bits).Some?)
    && FromCompact(if window.Some? then MIN_DIFFICULTY_BITS else CompactBits(template.bits).value).Success?
    && ParseHash(template.previousBlockHash).Some? && template.version >= VERSION_HEADER_V2_FLAG && |template.transactions| + 1 <= 0xFFFF
  }

  lemma AssemblesExactly(jobId: string, template: BlockTemplate, block: Block.BlockBuilder, window: Option<Window>, clean: bool)
    requires |block.transactions| == |template.transactions|
    ensures Assemble(jobId, template, block, window, clean).Success? <==> CanAssemble(template, window)
  {
    hide Block.MerkleRootOf, FromCompact, Projection, CompactBits, ParseHash;
  }

  /** The commitment the template's wtxids lead to, if they parse, and whether the node has no objection to it. */
  predicate CommitmentAgrees(template: BlockTemplate)
  {
    && ParsedWtxids(template).Some?
    && (template.defaultWitnessCommitment.Some? ==>
          Hex.Encode(Witness.CommitmentScript(ParsedWtxids(template).value)) == template.defaultWitnessCommitment.value)
  }

  /**
    A job is built exactly when every transaction field parses, the commitment is the node's, the headline
    fits, and time, target, parent, count and version make a v2 header.
   */
  lemma BuildsExactly(jobId: string, template: BlockTemplate, payout: vec<byte>, headline: Option<Script.element>,
                      window: Option<Window>, clean: bool)
    ensures Build(jobId, template, payout, headline, window, clean).Success? <==>
            CommitmentAgrees(template) && ParsedTxids(template).Some? && ParsedRaw(template).Some?
            && HeadlineFits(template.height, headline) && CanAssemble(template, window)
  {
    hide Witness.CommitmentScript, Hex.Encode, Coinbase.Build, Assemble, CanAssemble, HeadlineFits, ParsedWtxids, ParsedTxids, ParsedRaw;
    if CommitmentAgrees(template) {
      var commitment := Witness.CommitmentScript(ParsedWtxids(template).value);
      CoinbaseFits(template, payout, headline, commitment);
      var built := Coinbase.Build(CoinbaseFor(template, payout, headline, commitment));
      if built.Success? && ParsedTxids(template).Some? && ParsedRaw(template).Some? {
        ParsedLengths(template);
        AssemblesExactly(jobId, template, Block.BlockBuilder(built.value, ParsedRaw(template).value, ParsedTxids(template).value), window, clean);
      }
    }
  }

  lemma ParsedLengths(template: BlockTemplate)
    ensures ParsedTxids(template).Some? ==> |ParsedTxids(template).value| == |template.transactions|
    ensures ParsedRaw(template).Some? ==> |ParsedRaw(template).value| == |template.transactions|
  {
  }

  /** Every v2 header with a null key and a decodable target makes a consistent job, under any id and with any body. */
  lemma ProjectionIsConsistent(h: BlockHeader, jobId: string, clean: bool, block: Block.BlockBuilder, window: Option<Window>)
    requires h.headerV2 && h.version >= 0 && h.xorKey == Zeros(16) && FromCompact(h.bits).Success?
    ensures Consistent(ActiveJob(Projection(h, jobId, clean), h, block, h.height, FromCompact(h.bits).value, window))
  {
    hide Pow.H2, Pow.PrevHidden, FromCompact;
  }

  lemma Assembled(jobId: string, template: BlockTemplate, window: Option<Window>, clean: bool, active: ActiveJob) returns (base: BlockHeader)
    requires Assemble(jobId, template, active.block, window, clean) == Success(active)
    ensures Block.HeaderFor(active.block, base, template.height) == Success(active.header) && base.headerV2 && base.version >= 0
    ensures Consistent(active) && active.job.jobId == jobId && active.job.cleanJobs == clean
    ensures if window.Some? then active.header.bits == MIN_DIFFICULTY_BITS else CompactBits(template.bits) == Some(active.header.bits)
  {
    hide Block.MerkleRootOf, FromCompact, Pow.H2, Pow.PrevHidden, CompactBits, ParseHash;
    var (time, bits) := TimeAndBits(template, window).value;
    base := HeaderTemplate(template, ParseHash(template.previousBlockHash).value, time, bits);
  }

  /**
    The header of a built job states the size of the body it is kept with and the root over the coinbase and
    the template's ids, which is the body's own when they are its transactions' ids, and otherwise only
    under a collision; the coinbase opens with the height and claims the template's value.
   */
  lemma BuiltHeaderDescribesBody(jobId: string, template: BlockTemplate, payout: vec<byte>, headline: Option<Script.element>,
                                 window: Option<Window>, clean: bool, active: ActiveJob, txs: seq<Transaction>)
    returns (left: (Hash256, Hash256), right: (Hash256, Hash256))
    requires Build(jobId, template, payout, headline, window, clean) == Success(active)
    ensures active.header.txcount == |template.transactions| + 1 && active.header.height == template.height
    ensures ParsedTxids(template).Some?
    ensures active.header.merkleRoot == Merkle.Root([Txid(active.block.coinbase)] + ParsedTxids(template).value)
    ensures ParsedTxids(template).value == Witness.Txids(txs) ==>
              active.header.merkleRoot == Merkle.Root(Witness.Txids([active.block.coinbase] + txs))
    ensures |txs| == |template.transactions| && active.header.merkleRoot == Merkle.Root(Witness.Txids([active.block.coinbase] + txs)) ==>
              ParsedTxids(template).value == Witness.Txids(txs) || Merkle.IsCollision(left, right)
    ensures |active.block.coinbase.inputs| == 1 && Coinbase.TotalValue(active.block.coinbase.outputs) == template.coinbaseValue
    ensures Script.ReadElement(active.block.coinbase.inputs[0].scriptSig).Some?
    ensures Script.ReadScriptNumber(Script.ReadElement(active.block.coinbase.inputs[0].scriptSig).value.0) == template.height
  {
    hide ParsedWtxids, ParsedTxids, ParsedRaw, Witness.CommitmentScript, Hex.Encode, Block.New;
    hide Build, Assemble, Consistent, CompactBits, Merkle.Root, Merkle.IsCollision, Txid, Coinbase.Build, Script.BlockHeight, Script.ReadElement,
         Script.ReadScriptNumber, Script.ScriptNumber, Coinbase.TotalValue, ParseTx;
    var commitment := BuiltBody(jobId, template, payout, headline, window, clean, active);
    var base := Assembled(jobId, template, window, clean, active);
    left, right := (ZERO, ZERO), (ZERO, ZERO);
    if |txs| == |template.transactions| { left, right := Block.RootOfBody(active.block.coinbase, active.block.txids, txs); }
    Coinbase.BuiltCoinbase(CoinbaseFor(template, payout, headline, commitment), active.block.coinbase, []);
    var script := active.block.coinbase.inputs[0].scriptSig;
    var prefix := Script.BlockHeight(template.height);
    assert script == prefix + script[|prefix|..];
    Script.HeightReadsBack(template.height, script[|prefix|..]);
  }

  lemma AssembleRefuses(jobId: string, template: BlockTemplate, block: Block.BlockBuilder, window: Option<Window>, clean: bool)
    requires Assemble(jobId, template, block, window, clean).Failure?
    ensures var e := Assemble(jobId, template, block, window, clean).error;
      e.BlockFailed? ==> e.blockError == Block.TooManyTransactions(|block.transactions| + 1) && |block.transactions| + 1 > 0xFFFF
                         && template.version >= VERSION_HEADER_V2_FLAG
  {
    hide Block.MerkleRootOf, FromCompact, Projection, ParseHash, CompactBits;
  }

  /** Every header field the template or the pool decides, and nothing set that a miner is to choose. */
  predicate FieldsFrom(template: BlockTemplate, window: Option<Window>, h: BlockHeader)
  {
    && h.headerV2 && h.version == template.version - VERSION_HEADER_V2_FLAG
    && Displays(template.previousBlockHash, h.prevBlock)
    && (if window.Some? then h.timeOnWire == window.value.ntime && h.bits == MIN_DIFFICULTY_BITS
        else h.timeOnWire == template.currentTime && Hex.Decode(template.bits) == Success(BeBytes(h.bits, 4)))
    && h.nonce == h.nonce2 == h.nonce3 == h.timeOffset == 0 && h.extranonce == Zeros(16)
    && h.flags == h.xorKeyMaskClearBits == 0 && h.xorKey == Zeros(16) && h.mmRhs == ZERO
    && h.txcount == |template.transactions| + 1 && h.height == template.height
  }

  lemma AssembledFields(jobId: string, template: BlockTemplate, window: Option<Window>, clean: bool, active: ActiveJob)
    requires Assemble(jobId, template, active.block, window, clean) == Success(active)
    requires |active.block.transactions| == |template.transactions|
    ensures FieldsFrom(template, window, active.header) && active.height == template.height && active.minDifficulty == window
  {
    hide Block.MerkleRootOf, FromCompact, Projection, CompactBits, ParseHash, Displays, Hex.Decode, BeBytes;
    HashFromDisplay(template.previousBlockHash, active.header.prevBlock);
    BitsFromText(template.bits, active.header.bits);
  }

  /** A built header holds the template's fields, or the window's, and leaves every nonce at zero. */
  lemma BuiltHeaderFields(jobId: string, template: BlockTemplate, payout: vec<byte>, headline: Option<Script.element>,
                          window: Option<Window>, clean: bool, active: ActiveJob)
    requires Build(jobId, template, payout, headline, window, clean) == Success(active)
    ensures FieldsFrom(template, window, active.header) && active.height == template.height && active.minDifficulty == window
  {
    hide ParsedWtxids, ParsedTxids, ParsedRaw, Witness.CommitmentScript, Hex.Encode;
    hide Build, Assemble, FieldsFrom, Coinbase.Build;
    var commitment := BuiltBody(jobId, template, payout, headline, window, clean, active);
    AssembledFields(jobId, template, window, clean, active);
  }

  /** The list lengths always agree, so a body is refused only for a count a v2 header cannot state. */
  lemma OnlyTooManyIsRefused(jobId: string, template: BlockTemplate, payout: vec<byte>, headline: Option<Script.element>,
                             window: Option<Window>, clean: bool, e: BuildError)
    requires Build(jobId, template, payout, headline, window, clean) == Failure(e) && e.BlockFailed?
    ensures e.blockError == Block.TooManyTransactions(|template.transactions| + 1)
    ensures |template.transactions| + 1 > 0xFFFF && template.version >= VERSION_HEADER_V2_FLAG
  {
    hide Witness.CommitmentScript, Hex.Encode, Coinbase.Build, Assemble, ParseHash, ParseRaw;
    var wtxids := ParsedWtxids(template).value;
    var coinbase := Coinbase.Build(CoinbaseFor(template, payout, headline, Witness.CommitmentScript(wtxids))).value;
    AssembleRefuses(jobId, template, Block.BlockBuilder(coinbase, ParsedRaw(template).value, ParsedTxids(template).value), window, clean);
  }

  /** The order in which building gives up, and on what. */
  lemma BuildFailsAs(jobId: string, template: BlockTemplate, payout: vec<byte>, headline: Option<Script.element>,
                     window: Option<Window>, clean: bool, e: BuildError)
    requires Build(jobId, template, payout, headline, window, clean) == Failure(e)
    ensures ParsedWtxids(template).None? ==> e == BadTemplate
    ensures e == WitnessCommitmentMismatch <==> ParsedWtxids(template).Some? && !CommitmentAgrees(template)
    ensures e.CoinbaseFailed? <==> CommitmentAgrees(template) && !HeadlineFits(template.height, headline)
    ensures e == TimeOverflow <==> BodyBuilds(template, headline) && window.None? && template.currentTime >= TWO_32
    ensures e.BlockFailed? <==>
            && BodyBuilds(template, headline) && HasTimeAndParent(template, window)
            && template.version >= VERSION_HEADER_V2_FLAG && |template.transactions| + 1 > 0xFFFF
    ensures e == PreForkTemplate(template.height) <==>
            BodyBuilds(template, headline) && HasTimeAndParent(template, window) && template.version < VERSION_HEADER_V2_FLAG
  {
    hide Witness.CommitmentScript, Hex.Encode, Coinbase.Build, Assemble, HeadlineFits, ParsedWtxids, ParsedTxids, ParsedRaw, HasTimeAndParent;
    if CommitmentAgrees(template) {
      var commitment := Witness.CommitmentScript(ParsedWtxids(template).value);
      CoinbaseFits(template, payout, headline, commitment);
      var built := Coinbase.Build(CoinbaseFor(template, payout, headline, commitment));
      if built.Success? && ParsedTxids(template).Some? && ParsedRaw(template).Some? {
        ParsedLengths(template);
        AssembleFailsAs(jobId, template, Block.BlockBuilder(built.value, ParsedRaw(template).value, ParsedTxids(template).value), window, clean);
      }
    }
  }

  /** Everything before the header. */
  predicate BodyBuilds(template: BlockTemplate, headline: Option<Script.element>)
  {
    CommitmentAgrees(template) && HeadlineFits(template.height, headline) && ParsedTxids(template).Some? && ParsedRaw(template).Some?
  }

  predicate HasTimeAndParent(template: BlockTemplate, window: Option<Window>)
  {
    && (window.None? ==> template.currentTime < TWO_32 && CompactBits(template.bits).Some?)
    && ParseHash(template.previousBlockHash).Some?
  }

  lemma AssembleFailsAs(jobId: string, template: BlockTemplate, block: Block.BlockBuilder, window: Option<Window>, clean: bool)
    requires |block.transactions| == |template.transactions|
    ensures match Assemble(jobId, template, block, window, clean)
      case Success(_) => HasTimeAndParent(template, window) && template.version >= VERSION_HEADER_V2_FLAG && |template.transactions| + 1 <= 0xFFFF
                         && !(window.None? && template.currentTime >= TWO_32)
      case Failure(e) =>
        && !e.CoinbaseFailed? && !e.WitnessCommitmentMismatch?
        && (e == TimeOverflow <==> window.None? && template.currentTime >= TWO_32)
        && (e.BlockFailed? <==>
              HasTimeAndParent(template, window) && template.version >= VERSION_HEADER_V2_FLAG && |template.transactions| + 1 > 0xFFFF)
        && (e == PreForkTemplate(template.height) <==> HasTimeAndParent(template, window) && template.version < VERSION_HEADER_V2_FLAG)
  {
    hide Block.MerkleRootOf, FromCompact, Projection, CompactBits, ParseHash;
  }

  /** The target of a minimum-difficulty block is 0xFFFF * 2^208, the largest a compact field of three bytes gives. */
  lemma MinimumDifficulty()
    ensures FromCompact(MIN_DIFFICULTY_BITS).Success? && TargetValue(FromCompact(MIN_DIFFICULTY_BITS).value) == 0xFFFF * Pow2(208)
  {
    hide Pow2, CompactValue;
    FromCompactExact(MIN_DIFFICULTY_BITS);
    DifficultyOne();
  }

  /** Room for a headline and its push beside the height and the tag's thirteen bytes. */
  predicate HeadlineFits(height: u32, headline: Option<Script.element>)
  {
    headline.Some? ==>
      var n := |headline.value|;
      |Script.BlockHeight(height)| + (if n <= 75 then 1 else if n <= 255 then 2 else 3) + n + 13 <= 100
  }

  /** The coinbase fits unless a headline is too long for what the height and the tag leave of the hundred bytes; without one it always fits. */
  lemma CoinbaseFits(template: BlockTemplate, payout: vec<byte>, headline: Option<Script.element>, commitment: vec<byte>)
    ensures Coinbase.Build(CoinbaseFor(template, payout, headline, commitment)).Success? <==> HeadlineFits(template.height, headline)
  {
    hide Script.BlockHeight, Coinbase.Build;
    var c := CoinbaseFor(template, payout, headline, commitment);
    Coinbase.BuildFailsWhenTooLong(c);
    Script.HeightReadsBack(template.height, []);
    assert |POOL_TAG| == 12;
    assert Coinbase.TotalPushed([POOL_TAG]) == 13;
    if headline.Some? {
      assert Coinbase.Pushes(c) == [headline.value] + [POOL_TAG];
      assert ([headline.value] + [POOL_TAG])[1..] == [POOL_TAG];
    } else {
      assert Coinbase.Pushes(c) == [POOL_TAG];
    }
  }
}

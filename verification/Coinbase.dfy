/** The coinbase: its scriptSig, and the transaction built around it. */
module Coinbase {
  import opened Wrappers
  import opened Bytes
  import opened Reader
  import opened Script
  import opened Transaction
  import Varint

  const MIN_SCRIPT_SIG: nat := 2
  const MAX_SCRIPT_SIG: nat := 100

  datatype CoinbaseError = ScriptSigLength(length: nat)

  datatype CoinbaseBuilder = CoinbaseBuilder(
    height: u32,
    value: u64,
    payoutScript: vec<byte>,
    extranonce: element,
    tag: element,
    headline: Option<element>,
    witnessCommitment: Option<vec<byte>>)

  function New(height: u32, value: u64, payoutScript: vec<byte>): CoinbaseBuilder
  {
    CoinbaseBuilder(height, value, payoutScript, [], [], None, None)
  }

  /** What follows the height: an empty headline is still pushed, an empty extranonce or tag is not. */
  function Pushes(c: CoinbaseBuilder): seq<element>
  {
    (if c.headline.Some? then [c.headline.value] else [])
    + (if c.extranonce != [] then [c.extranonce] else [])
    + (if c.tag != [] then [c.tag] else [])
  }

  function ScriptSig(c: CoinbaseBuilder): seq<byte> { BlockHeight(c.height) + PushAll(Pushes(c)) }

  lemma {:induction false} PushAllSnoc(items: seq<element>, last: element)
    ensures PushAll(items + [last]) == PushAll(items) + Push(last)
  {
    hide Push;
    if items == [] {
      assert [last][1..] == [] && Push(last) + [] == Push(last);
    } else {
      assert (items + [last])[1..] == items[1..] + [last];
      PushAllSnoc(items[1..], last);
    }
  }

  /** The height, then each part that is present. */
  method ComputeScriptSig(c: CoinbaseBuilder) returns (script: seq<byte>)
    ensures script == ScriptSig(c)
  {
    hide Push, BlockHeight;
    var out := new Varint.ByteVec();
    var prefix := EncodeBlockHeight(c.height);
    out.Extend(prefix);
    ghost var done: seq<element> := [];
    if c.headline.Some? {
      PushData(c.headline.value, out);
      PushAllSnoc(done, c.headline.value);
      done := done + [c.headline.value];
    }
    assert out.bytes == prefix + PushAll(done);
    if c.extranonce != [] {
      PushData(c.extranonce, out);
      PushAllSnoc(done, c.extranonce);
      done := done + [c.extranonce];
    }
    assert out.bytes == prefix + PushAll(done);
    if c.tag != [] {
      PushData(c.tag, out);
      PushAllSnoc(done, c.tag);
      done := done + [c.tag];
    }
    assert out.bytes == prefix + PushAll(done);
    assert done == Pushes(c);
    script := out.bytes;
  }

  /** A scriptSig reads as its height, then exactly the parts that were set, whatever bytes they hold. */
  lemma ScriptSigReadsBack(c: CoinbaseBuilder)
    ensures ReadScript(ScriptSig(c)) == Some([ScriptNumber(c.height)] + Pushes(c))
    ensures ReadScriptNumber(ScriptNumber(c.height)) == c.height
  {
    HeightThenPushes(c.height, Pushes(c));
    HeightReadsBack(c.height, []);
  }

  /** The node looks for the headline as a substring: it is one. */
  lemma HeadlineIsContiguous(c: CoinbaseBuilder) returns (at: nat)
    requires c.headline.Some?
    ensures At(ScriptSig(c), at, c.headline.value)
  {
    hide BlockHeight, PushHead;
    var headline := c.headline.value;
    var prefix, head := BlockHeight(c.height), PushHead(|headline|);
    var rest := PushAll(Pushes(c)[1..]);
    assert ScriptSig(c) == prefix + (head + headline + rest);
    at := |prefix| + |head|;
    assert ScriptSig(c)[at..at + |headline|] == headline;
  }

  /** The commitment output pays nothing. */
  function Outputs(c: CoinbaseBuilder): vec<TxOut>
  {
    if c.witnessCommitment.Some? then [TxOut(c.value, c.payoutScript), TxOut(0, c.witnessCommitment.value)]
    else [TxOut(c.value, c.payoutScript)]
  }

  function Build(c: CoinbaseBuilder): Result<Transaction, CoinbaseError>
  {
    var script := ScriptSig(c);
    if |script| < MIN_SCRIPT_SIG || |script| > MAX_SCRIPT_SIG then Failure(ScriptSigLength(|script|))
    else
      Success(Transaction(
        2,
        [TxIn(NULL_OUTPOINT, script, 0xFFFF_FFFF, if c.witnessCommitment.Some? then [Zeros(32)] else [])],
        Outputs(c),
        0))
  }

  method ComputeBuild(c: CoinbaseBuilder) returns (r: Result<Transaction, CoinbaseError>)
    ensures r == Build(c)
  {
    hide ScriptSig;
    var script := ComputeScriptSig(c);
    if |script| < MIN_SCRIPT_SIG || |script| > MAX_SCRIPT_SIG {
      return Failure(ScriptSigLength(|script|));
    }
    var stack: vec<vec<byte>> := if c.witnessCommitment.Some? then [Zeros(32)] else [];
    var outputs: vec<TxOut> := [TxOut(c.value, c.payoutScript)];
    if c.witnessCommitment.Some? {
      outputs := outputs + [TxOut(0, c.witnessCommitment.value)];
    }
    assert outputs == Outputs(c);
    return Success(Transaction(2, [TxIn(NULL_OUTPOINT, script, 0xFFFF_FFFF, stack)], outputs, 0));
  }

  function TotalValue(outputs: seq<TxOut>): nat
  {
    if outputs == [] then 0 else outputs[0].value + TotalValue(outputs[1..])
  }

  lemma OutputsTotal(c: CoinbaseBuilder)
    ensures TotalValue(Outputs(c)) == c.value
  {
    var outputs: seq<TxOut> := Outputs(c);
    assert outputs[0].value == c.value;
    if c.witnessCommitment.Some? {
      var rest: seq<TxOut> := outputs[1..];
      assert rest == [TxOut(0, c.witnessCommitment.value)] && rest[1..] == [];
      assert TotalValue(rest) == 0;
    } else {
      assert outputs[1..] == [];
    }
  }

  /** A built coinbase meets the rules a node checks on it, and it survives serialisation. */
  lemma BuiltCoinbase(c: CoinbaseBuilder, tx: Transaction, tail: seq<byte>)
    requires Build(c) == Success(tx)
    ensures |tx.inputs| == 1 && tx.inputs[0].previousOutput == OutPoint(Zeros(32), 0xFFFF_FFFF)
    ensures 2 <= |tx.inputs[0].scriptSig| <= 100 && BlockHeight(c.height) <= tx.inputs[0].scriptSig
    ensures tx.version == 2 && tx.inputs[0].sequence == 0xFFFF_FFFF && tx.lockTime == 0
    ensures TotalValue(tx.outputs) == tx.outputs[0].value == c.value && tx.outputs[0].scriptPubkey == c.payoutScript
    ensures if c.witnessCommitment.None? then |tx.outputs| == 1 && !HasWitness(tx)
            else |tx.outputs| == 2 && tx.outputs[1] == TxOut(0, c.witnessCommitment.value) && tx.inputs[0].stack == [Zeros(32)]
    ensures ParseTx(Serialize(tx) + tail) == Success((tx, |Serialize(tx)|))
  {
    hide BlockHeight, PushAll, Serialize, ParseTx, EncodeAs;
    RoundTrip(tx, tail);
    assert tx.inputs[0] in tx.inputs;
    OutputsTotal(c);
  }

  /** Building fails exactly when the parts do not fit, counted push by push. */
  lemma BuildFailsWhenTooLong(c: CoinbaseBuilder)
    ensures Build(c).Failure? <==> !(2 <= |BlockHeight(c.height)| + TotalPushed(Pushes(c)) <= 100)
    ensures Build(c).Failure? ==> Build(c).error == ScriptSigLength(|BlockHeight(c.height)| + TotalPushed(Pushes(c)))
  {
    hide BlockHeight;
    PushAllLength(Pushes(c));
  }

  function TotalPushed(items: seq<element>): nat
  {
    if items == [] then 0
    else
      var n := |items[0]|;
      (if n <= 75 then 1 else if n <= 255 then 2 else 3) + n + TotalPushed(items[1..])
  }

  lemma {:induction false} PushAllLength(items: seq<element>)
    ensures |PushAll(items)| == TotalPushed(items)
  {
    if items != [] { PushAllLength(items[1..]); }
  }
}

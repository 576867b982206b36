/** Transactions: the legacy and SegWit encodings, one parser for both, and the two ids. */
module Transaction {
  import opened Wrappers
  import opened Bytes
  import opened Hash256
  import opened Reader
  import Fips180
  import Sha256
  import Varint

  datatype OutPoint = OutPoint(txid: Hash256, vout: u32)

  datatype TxIn = TxIn(previousOutput: OutPoint, scriptSig: vec<byte>, sequence: u32, stack: vec<vec<byte>>)

  datatype TxOut = TxOut(value: u64, scriptPubkey: vec<byte>)

  datatype Transaction = Transaction(version: i32, inputs: vec<TxIn>, outputs: vec<TxOut>, lockTime: u32)

  const NULL_OUTPOINT := OutPoint(ZERO, 0xFFFF_FFFF)

  predicate NoWitness(i: TxIn) { i.stack == [] }

  predicate HasWitness(tx: Transaction) { exists i :: i in tx.inputs && !NoWitness(i) }

  // ----- the encodings -----

  function EncodeInput(i: TxIn): seq<byte>
  {
    i.previousOutput.txid + LeBytes(i.previousOutput.vout, 4) + EncodeVarBytes(i.scriptSig) + LeBytes(i.sequence, 4)
  }

  function EncodeOutput(o: TxOut): seq<byte>
  {
    LeBytes(o.value, 8) + EncodeVarBytes(o.scriptPubkey)
  }

  function EncodeStack(stack: vec<vec<byte>>): seq<byte>
  {
    Varint.Encode(|stack|) + EncodeMany(EncodeVarBytes, stack)
  }

  function EncodeWitnesses(inputs: seq<TxIn>): seq<byte>
  {
    if inputs == [] then [] else EncodeStack(inputs[0].stack) + EncodeWitnesses(inputs[1..])
  }

  /** Everything after the input count. */
  function EncodeRest(tx: Transaction, segwit: bool): (e: seq<byte>)
    ensures |e| >= 4
  {
    EncodeMany(EncodeInput, tx.inputs) + Varint.Encode(|tx.outputs|) + EncodeMany(EncodeOutput, tx.outputs)
    + (if segwit then EncodeWitnesses(tx.inputs) else []) + LeBytes(tx.lockTime, 4)
  }

  /** Either encoding; `flag` is the byte after the SegWit marker. */
  function EncodeAs(tx: Transaction, segwit: bool, flag: byte): seq<byte>
  {
    LeBytes(ToUnsigned(tx.version), 4) + (if segwit then [0x00, flag] else []) + Varint.Encode(|tx.inputs|) + EncodeRest(tx, segwit)
  }

  function SerializeLegacy(tx: Transaction): seq<byte> { EncodeAs(tx, false, 0x00) }

  function Serialize(tx: Transaction): seq<byte>
  {
    if HasWitness(tx) then EncodeAs(tx, true, 0x01) else SerializeLegacy(tx)
  }

  function Txid(tx: Transaction): Hash256 { Sha256.HashTwice(SerializeLegacy(tx)) }

  function Wtxid(tx: Transaction): Hash256 { Sha256.HashTwice(Serialize(tx)) }

  // ----- the parser -----

  function ParseInput(b: seq<byte>, at: nat): (r: Parsed<TxIn>)
  {
    var (txid, p1) :- ParseBytes(b, at, 32);
    var (vout, p2) :- ParseU32(b, p1);
    var (script, p3) :- ParseVarBytes(b, p2);
    var (sequence, p4) :- ParseU32(b, p3);
    Success((TxIn(OutPoint(txid, vout), script, sequence, []), p4))
  }

  function ParseOutput(b: seq<byte>, at: nat): (r: Parsed<TxOut>)
  {
    var (value, p1) :- ParseU64(b, at);
    var (script, p2) :- ParseVarBytes(b, p1);
    Success((TxOut(value, script), p2))
  }

  function ParseStack(b: seq<byte>, at: nat): (r: Parsed<vec<vec<byte>>>)
  {
    var (items, p1) :- ParseVarint(b, at);
    ParseMany(ParseVarBytes, b, p1, items)
  }

  /** Gives every input the stack read for it. */
  function ParseWitnesses(b: seq<byte>, at: nat, inputs: seq<TxIn>): (r: Parsed<seq<TxIn>>)
    ensures r.Success? ==> |r.value.0| == |inputs|
    decreases |inputs|
  {
    if inputs == [] then Success(([], at))
    else
      var (stack, p1) :- ParseStack(b, at);
      var (rest, p2) :- ParseWitnesses(b, p1, inputs[1..]);
      Success(([inputs[0].(stack := stack)] + rest, p2))
  }

  /** Everything after the input count. */
  function ParseRest(b: seq<byte>, at: nat, version: u32, count: u64, segwit: bool): (r: Parsed<Transaction>)
  {
    var (inputs, p1) :- ParseMany(ParseInput, b, at, count);
    var (outputCount, p2) :- ParseVarint(b, p1);
    var (outputs, p3) :- ParseMany(ParseOutput, b, p2, outputCount);
    var (filled, p4) :- if segwit then ParseWitnesses(b, p3, inputs) else Success((inputs, p3));
    var (lockTime, p5) :- ParseU32(b, p4);
    Success((Transaction(ToSigned(version), filled, outputs, lockTime), p5))
  }

  /** A zero input count is the SegWit marker; the flag byte after it is read and ignored. */
  function ParseTx(b: seq<byte>): (r: Parsed<Transaction>)
  {
    var (version, p1) :- ParseU32(b, 0);
    var (count, p2) :- ParseVarint(b, p1);
    if count != 0 then ParseRest(b, p2, version, count, false)
    else
      var (flag, p3) :- ParseBytes(b, p2, 1);
      var (realCount, p4) :- ParseVarint(b, p3);
      ParseRest(b, p4, version, realCount, true)
  }

  // ----- the parser accepts exactly the encodings -----

  lemma U32At(b: seq<byte>, at: nat, v: u32, end: nat)
    ensures ParseU32(b, at) == Success((v, end)) <==> At(b, at, LeBytes(v, 4)) && end == at + 4
  {
    Pow256Widths();
    LeAt(b, at, 4, v);
  }

  lemma U64At(b: seq<byte>, at: nat, v: u64, end: nat)
    ensures ParseU64(b, at) == Success((v, end)) <==> At(b, at, LeBytes(v, 8)) && end == at + 8
  {
    Pow256Widths();
    LeAt(b, at, 8, v);
  }

  lemma InputAt(b: seq<byte>, at: nat, i: TxIn, end: nat)
    ensures ParseInput(b, at) == Success((i, end)) <==> NoWitness(i) && At(b, at, EncodeInput(i)) && end == at + |EncodeInput(i)|
  {
    hide LeBytes, EncodeVarBytes, ParseVarBytes, ParseU32;
    var e0, e1, e2, e3 := i.previousOutput.txid, LeBytes(i.previousOutput.vout, 4), EncodeVarBytes(i.scriptSig), LeBytes(i.sequence, 4);
    var p3 := at + 36 + |e2|;
    AtSplit(b, at, e0 + e1 + e2, e3);
    AtSplit(b, at, e0 + e1, e2);
    AtSplit(b, at, e0, e1);
    U32At(b, at + 32, i.previousOutput.vout, at + 36);
    VarBytesAt(b, at + 36, i.scriptSig, p3);
    U32At(b, p3, i.sequence, p3 + 4);
    if ParseInput(b, at) == Success((i, end)) {
      var (vout, p2) := ParseU32(b, at + 32).value;
      U32At(b, at + 32, vout, p2);
      var (script, q3) := ParseVarBytes(b, p2).value;
      VarBytesAt(b, p2, script, q3);
      var (sequence, q4) := ParseU32(b, q3).value;
      U32At(b, q3, sequence, q4);
    }
  }

  lemma OutputAt(b: seq<byte>, at: nat, o: TxOut, end: nat)
    ensures ParseOutput(b, at) == Success((o, end)) <==> At(b, at, EncodeOutput(o)) && end == at + |EncodeOutput(o)|
  {
    hide LeBytes, EncodeVarBytes, ParseVarBytes, ParseU64;
    AtSplit(b, at, LeBytes(o.value, 8), EncodeVarBytes(o.scriptPubkey));
    U64At(b, at, o.value, at + 8);
    VarBytesAt(b, at + 8, o.scriptPubkey, end);
    if ParseOutput(b, at) == Success((o, end)) {
      var (value, p1) := ParseU64(b, at).value;
      U64At(b, at, value, p1);
    }
  }

  lemma InputsExact()
    ensures Exact(ParseInput, EncodeInput, NoWitness)
  {
    hide ParseInput, EncodeInput;
    forall b: seq<byte>, at: nat, i: TxIn, end: nat
      ensures ParseInput(b, at) == Success((i, end)) <==> NoWitness(i) && At(b, at, EncodeInput(i)) && end == at + |EncodeInput(i)|
    {
      InputAt(b, at, i, end);
    }
  }

  lemma OutputsExact()
    ensures Exact(ParseOutput, EncodeOutput, (o: TxOut) => true)
  {
    hide ParseOutput, EncodeOutput;
    forall b: seq<byte>, at: nat, o: TxOut, end: nat
      ensures ParseOutput(b, at) == Success((o, end)) <==> At(b, at, EncodeOutput(o)) && end == at + |EncodeOutput(o)|
    {
      OutputAt(b, at, o, end);
    }
  }

  lemma ItemsExact()
    ensures Exact(ParseVarBytes, EncodeVarBytes, (s: vec<byte>) => true)
  {
    hide ParseVarBytes, EncodeVarBytes;
    forall b: seq<byte>, at: nat, s: vec<byte>, end: nat
      ensures ParseVarBytes(b, at) == Success((s, end)) <==> At(b, at, EncodeVarBytes(s)) && end == at + |EncodeVarBytes(s)|
    {
      VarBytesAt(b, at, s, end);
    }
  }

  lemma StackAt(b: seq<byte>, at: nat, w: vec<vec<byte>>, end: nat)
    requires at <= |b|
    ensures ParseStack(b, at) == Success((w, end)) <==> At(b, at, EncodeStack(w)) && end == at + |EncodeStack(w)|
  {
    hide Varint.Encode, EncodeVarBytes, ParseVarBytes, ParseVarint, ParseMany, EncodeMany;
    var p1 := at + |Varint.Encode(|w|)|;
    AtSplit(b, at, Varint.Encode(|w|), EncodeMany(EncodeVarBytes, w));
    VarintAt(b, at, |w|, p1);
    ItemsExact();
    if p1 <= |b| { ManyAt(ParseVarBytes, EncodeVarBytes, (s: vec<byte>) => true, b, p1, |w|, w, end); }
    if ParseStack(b, at) == Success((w, end)) {
      var (items, q1) := ParseVarint(b, at).value;
      VarintAt(b, at, items, q1);
    }
  }

  /** Each input as it was before the witness section was read. */
  function Strip(inputs: seq<TxIn>): (s: seq<TxIn>)
    ensures |s| == |inputs|
    ensures forall k :: 0 <= k < |inputs| ==> s[k] == inputs[k].(stack := [])
  {
    seq(|inputs|, k requires 0 <= k < |inputs| => inputs[k].(stack := []))
  }

  lemma {:induction false} WitnessesAt(b: seq<byte>, at: nat, bare: seq<TxIn>, filled: seq<TxIn>, end: nat)
    requires at <= |b| && forall i :: i in bare ==> NoWitness(i)
    ensures ParseWitnesses(b, at, bare) == Success((filled, end)) <==>
            Strip(filled) == bare && At(b, at, EncodeWitnesses(filled)) && end == at + |EncodeWitnesses(filled)|
    decreases |bare|
  {
    hide EncodeStack, ParseStack, ParseWitnesses, EncodeWitnesses, Strip;
    if bare == [] || filled == [] {
      NoWitnesses(b, at, bare, filled, end);
      return;
    }
    var w := filled[0].stack;
    var next := at + |EncodeStack(w)|;
    FirstWitness(b, at, bare, filled, end);
    AtSplit(b, at, EncodeStack(w), EncodeWitnesses(filled[1..]));
    StackAt(b, at, w, next);
    assert bare[0] in bare && forall i :: i in bare[1..] ==> i in bare;
    if ParseStack(b, at).Success? {
      var (v, mid) := ParseStack(b, at).value;
      StackAt(b, at, v, mid);
    }
    if next <= |b| { WitnessesAt(b, next, bare[1..], filled[1..], end); }
  }

  lemma NoWitnesses(b: seq<byte>, at: nat, bare: seq<TxIn>, filled: seq<TxIn>, end: nat)
    requires at <= |b| && (bare == [] || filled == [])
    ensures ParseWitnesses(b, at, bare) == Success((filled, end)) <==>
            Strip(filled) == bare && At(b, at, EncodeWitnesses(filled)) && end == at + |EncodeWitnesses(filled)|
  {
    hide EncodeStack, ParseStack;
    assert b[at..at] == [];
  }

  /** Reading, stripping and writing the first input's stack, apart from the others'. */
  lemma FirstWitness(b: seq<byte>, at: nat, bare: seq<TxIn>, filled: seq<TxIn>, end: nat)
    requires bare != [] && filled != []
    ensures ParseWitnesses(b, at, bare) == Success((filled, end)) <==>
            && ParseStack(b, at).Success? && filled[0] == bare[0].(stack := ParseStack(b, at).value.0)
            && ParseWitnesses(b, ParseStack(b, at).value.1, bare[1..]) == Success((filled[1..], end))
    ensures Strip(filled) == bare <==> filled[0].(stack := []) == bare[0] && Strip(filled[1..]) == bare[1..]
    ensures EncodeWitnesses(filled) == EncodeStack(filled[0].stack) + EncodeWitnesses(filled[1..])
  {
    hide EncodeStack, ParseStack;
    assert filled == [filled[0]] + filled[1..];
    assert bare == [bare[0]] + bare[1..];
    assert Strip(filled) == [filled[0].(stack := [])] + Strip(filled[1..]);
    assert Strip(filled)[1..] == Strip(filled[1..]);
    if ParseWitnesses(b, at, bare) == Success((filled, end)) {
      var (v, mid) := ParseStack(b, at).value;
      var (rest, stop) := ParseWitnesses(b, mid, bare[1..]).value;
      var head := bare[0].(stack := v);
      assert filled == [head] + rest;
      assert ([head] + rest)[1..] == rest;
    }
  }

  lemma {:induction false} EncodeInputsIgnoresWitness(inputs: seq<TxIn>)
    ensures EncodeMany(EncodeInput, Strip(inputs)) == EncodeMany(EncodeInput, inputs)
  {
    if inputs != [] {
      assert Strip(inputs)[1..] == Strip(inputs[1..]);
      EncodeInputsIgnoresWitness(inputs[1..]);
    }
  }

  /** The five sections of `EncodeRest` stand one after another. */
  lemma RestSections(b: seq<byte>, at: nat, segwit: bool, tx: Transaction)
    ensures
      var e1, e2, e3 := EncodeMany(EncodeInput, tx.inputs), Varint.Encode(|tx.outputs|), EncodeMany(EncodeOutput, tx.outputs);
      var e4 := if segwit then EncodeWitnesses(tx.inputs) else [];
      var p1, p2, p3 := at + |e1|, at + |e1| + |e2|, at + |e1| + |e2| + |e3|;
      At(b, at, EncodeRest(tx, segwit)) <==>
      At(b, at, e1) && At(b, p1, e2) && At(b, p2, e3) && At(b, p3, e4) && At(b, p3 + |e4|, LeBytes(tx.lockTime, 4))
  {
    hide EncodeInput, EncodeOutput, EncodeWitnesses, EncodeMany, Varint.Encode, LeBytes, At;
    FiveSections(b, at, EncodeMany(EncodeInput, tx.inputs), Varint.Encode(|tx.outputs|), EncodeMany(EncodeOutput, tx.outputs),
                 if segwit then EncodeWitnesses(tx.inputs) else [], LeBytes(tx.lockTime, 4));
  }

  lemma FiveSections(b: seq<byte>, at: nat, e1: seq<byte>, e2: seq<byte>, e3: seq<byte>, e4: seq<byte>, e5: seq<byte>)
    ensures
      var p1, p2, p3 := at + |e1|, at + |e1| + |e2|, at + |e1| + |e2| + |e3|;
      At(b, at, e1 + e2 + e3 + e4 + e5) <==>
      At(b, at, e1) && At(b, p1, e2) && At(b, p2, e3) && At(b, p3, e4) && At(b, p3 + |e4|, e5)
  {
    hide At;
    AtSplit(b, at, e1 + e2 + e3 + e4, e5);
    AtSplit(b, at, e1 + e2 + e3, e4);
    AtSplit(b, at, e1 + e2, e3);
    AtSplit(b, at, e1, e2);
  }

  lemma RestForward(b: seq<byte>, at: nat, version: u32, count: u64, segwit: bool, tx: Transaction, end: nat)
    requires at <= |b| && ParseRest(b, at, version, count, segwit) == Success((tx, end))
    ensures tx.version == ToSigned(version) && |tx.inputs| == count && (!segwit ==> !HasWitness(tx))
    ensures At(b, at, EncodeRest(tx, segwit)) && end == at + |EncodeRest(tx, segwit)|
  {
    hide EncodeInput, EncodeOutput, EncodeWitnesses, EncodeMany, ParseMany, ParseWitnesses, ParseVarint, Varint.Encode, LeBytes, ParseU32;
    var (inputs, p1) := ParseMany(ParseInput, b, at, count).value;
    InputsExact();
    ManyAt(ParseInput, EncodeInput, NoWitness, b, at, count, inputs, p1);
    var (outputCount, p2) := ParseVarint(b, p1).value;
    VarintAt(b, p1, outputCount, p2);
    var (outputs, p3) := ParseMany(ParseOutput, b, p2, outputCount).value;
    OutputsExact();
    ManyAt(ParseOutput, EncodeOutput, (o: TxOut) => true, b, p2, outputCount, outputs, p3);
    var (filled, p4) := (if segwit then ParseWitnesses(b, p3, inputs) else Success((inputs, p3))).value;
    if segwit {
      WitnessesAt(b, p3, inputs, filled, p4);
      EncodeInputsIgnoresWitness(filled);
    } else {
      assert b[p3..p3] == [];
    }
    var (lockTime, p5) := ParseU32(b, p4).value;
    U32At(b, p4, lockTime, p5);
    RestSections(b, at, segwit, tx);
  }

  lemma RestBackward(b: seq<byte>, at: nat, version: u32, segwit: bool, tx: Transaction)
    requires at <= |b| && tx.version == ToSigned(version) && (!segwit ==> !HasWitness(tx))
    requires At(b, at, EncodeRest(tx, segwit))
    ensures ParseRest(b, at, version, |tx.inputs|, segwit) == Success((tx, at + |EncodeRest(tx, segwit)|))
  {
    hide EncodeInput, EncodeOutput, EncodeWitnesses, EncodeMany, ParseMany, ParseWitnesses, ParseVarint, Varint.Encode, LeBytes, ParseU32;
    RestSections(b, at, segwit, tx);
    var bare := if segwit then Strip(tx.inputs) else tx.inputs;
    var p1 := at + |EncodeMany(EncodeInput, tx.inputs)|;
    var p2 := p1 + |Varint.Encode(|tx.outputs|)|;
    var p3 := p2 + |EncodeMany(EncodeOutput, tx.outputs)|;
    var p4 := p3 + if segwit then |EncodeWitnesses(tx.inputs)| else 0;
    EncodeInputsIgnoresWitness(tx.inputs);
    InputsExact();
    forall i | i in bare
      ensures NoWitness(i)
    {
      var k :| 0 <= k < |bare| && bare[k] == i;
    }
    ManyAt(ParseInput, EncodeInput, NoWitness, b, at, |tx.inputs|, bare, p1);
    VarintAt(b, p1, |tx.outputs|, p2);
    OutputsExact();
    ManyAt(ParseOutput, EncodeOutput, (o: TxOut) => true, b, p2, |tx.outputs|, tx.outputs, p3);
    if segwit { WitnessesAt(b, p3, bare, tx.inputs, p4); }
    U32At(b, p4, tx.lockTime, p4 + 4);
  }

  /** The five-byte or six-byte head before the inputs. */
  lemma HeadSections(b: seq<byte>, tx: Transaction, segwit: bool, flag: byte)
    ensures
      var v, m, c := LeBytes(ToUnsigned(tx.version), 4), (if segwit then [0x00, flag] else []), Varint.Encode(|tx.inputs|);
      At(b, 0, EncodeAs(tx, segwit, flag)) <==>
      At(b, 0, v) && At(b, 4, m) && At(b, 4 + |m|, c) && At(b, 4 + |m| + |c|, EncodeRest(tx, segwit))
  {
    hide EncodeRest, Varint.Encode, LeBytes;
    var v, m, c := LeBytes(ToUnsigned(tx.version), 4), (if segwit then [0x00, flag] else []), Varint.Encode(|tx.inputs|);
    AtSplit(b, 0, v + m + c, EncodeRest(tx, segwit));
    AtSplit(b, 0, v + m, c);
    AtSplit(b, 0, v, m);
  }

  lemma SignedTwice(v: u32, w: i32)
    ensures ToSigned(ToUnsigned(w)) == w && ToUnsigned(ToSigned(v)) == v
  {
  }

  lemma EncodingOfZero()
    ensures Varint.Encode(0) == [0x00]
  {
  }

  /** Only zero encodes as the single byte the SegWit marker is. */
  lemma ZeroCountIsTheMarker(b: seq<byte>, at: nat, count: u64)
    requires At(b, at, Varint.Encode(count))
    ensures |Varint.Encode(count)| >= 1 && (b[at] == 0 <==> count == 0)
  {
    assert b[at] == Varint.Encode(count)[0];
  }

  lemma ParseBackward(b: seq<byte>, tx: Transaction, segwit: bool, flag: byte)
    requires At(b, 0, EncodeAs(tx, segwit, flag)) && if segwit then true else tx.inputs != [] && !HasWitness(tx)
    ensures ParseTx(b) == Success((tx, |EncodeAs(tx, segwit, flag)|))
  {
    hide EncodeRest, ParseRest, Varint.Encode, LeBytes, ParseVarint, ParseU32;
    HeadSections(b, tx, segwit, flag);
    SignedTwice(0, tx.version);
    U32At(b, 0, ToUnsigned(tx.version), 4);
    var at := if segwit then 6 else 4;
    var rest := at + |Varint.Encode(|tx.inputs|)|;
    VarintAt(b, at, |tx.inputs|, rest);
    if segwit {
      assert b[4..6] == [0x00, flag] && b[4] == b[4..6][0];
      EncodingOfZero();
      assert At(b, 4, [0x00]);
      VarintAt(b, 4, 0, 5);
    }
    RestBackward(b, rest, ToUnsigned(tx.version), segwit, tx);
  }

  lemma ParseForward(b: seq<byte>, tx: Transaction, end: nat)
    requires ParseTx(b) == Success((tx, end))
    ensures |b| >= 6
    ensures b[4] != 0 ==> At(b, 0, EncodeAs(tx, false, 0)) && tx.inputs != [] && !HasWitness(tx) && end == |EncodeAs(tx, false, 0)|
    ensures b[4] == 0 ==> At(b, 0, EncodeAs(tx, true, b[5])) && end == |EncodeAs(tx, true, b[5])|
  {
    hide EncodeRest, ParseRest, Varint.Encode, LeBytes, ParseVarint, ParseU32;
    var (version, p1) := ParseU32(b, 0).value;
    U32At(b, 0, version, p1);
    var (count, p2) := ParseVarint(b, 4).value;
    VarintAt(b, 4, count, p2);
    ZeroCountIsTheMarker(b, 4, count);
    if count != 0 {
      RestForward(b, p2, version, count, false, tx, end);
      SignedTwice(version, 0);
      HeadSections(b, tx, false, 0);
    } else {
      EncodingOfZero();
      var (realCount, p4) := ParseVarint(b, 6).value;
      VarintAt(b, 6, realCount, p4);
      RestForward(b, p4, version, realCount, true, tx, end);
      SignedTwice(version, 0);
      assert At(b, 4, [0x00, b[5]]);
      HeadSections(b, tx, true, b[5]);
    }
  }

  /** A transaction of one input with one witness item, and one output, as it stands on the wire. */
  lemma WireExample(txid: Hash256)
    ensures
      var tx := Transaction(2, [TxIn(OutPoint(txid, 1), [0x51], 0xFFFF_FFFE, [[0xAA]])], [TxOut(0x0102, [0x52])], 7);
      var input: seq<byte> := txid + [0x01, 0, 0, 0, 0x01, 0x51, 0xFE, 0xFF, 0xFF, 0xFF];
      var output: seq<byte> := [0x02, 0x01, 0, 0, 0, 0, 0, 0, 0x01, 0x52];
      && Serialize(tx) == [0x02, 0, 0, 0] + [0x00, 0x01] + [0x01] + (input + [0x01] + output + [0x01, 0x01, 0xAA] + [0x07, 0, 0, 0])
      && SerializeLegacy(tx) == [0x02, 0, 0, 0] + [] + [0x01] + (input + [0x01] + output + [] + [0x07, 0, 0, 0])
  {
    var i, o := TxIn(OutPoint(txid, 1), [0x51], 0xFFFF_FFFE, [[0xAA]]), TxOut(0x0102, [0x52]);
    var tx := Transaction(2, [i], [o], 7);
    InputExample(txid);
    OutputExample();
    WitnessExample(i);
    hide *;
    SmallNumbers();
    ExampleParts(tx);
  }

  lemma SmallNumbers()
    ensures LeBytes(2, 4) == [2, 0, 0, 0] && LeBytes(7, 4) == [7, 0, 0, 0] && Varint.Encode(1) == [1]
  {
  }

  lemma ExampleParts(tx: Transaction)
    requires tx.version == 2 && |tx.inputs| == |tx.outputs| == 1 && tx.lockTime == 7 && tx.inputs[0].stack != []
    ensures var (v, c, t) := (LeBytes(2, 4), Varint.Encode(1), LeBytes(7, 4));
      var (i, o) := (EncodeMany(EncodeInput, tx.inputs), EncodeMany(EncodeOutput, tx.outputs));
      && Serialize(tx) == v + [0x00, 0x01] + c + (i + c + o + EncodeWitnesses(tx.inputs) + t)
      && SerializeLegacy(tx) == v + [] + c + (i + c + o + [] + t)
  {
    hide LeBytes, EncodeInput, EncodeOutput, EncodeMany, EncodeWitnesses, Varint.Encode;
    assert tx.inputs[0] in tx.inputs && !NoWitness(tx.inputs[0]);
  }

  lemma InputExample(txid: Hash256)
    ensures EncodeMany(EncodeInput, [TxIn(OutPoint(txid, 1), [0x51], 0xFFFF_FFFE, [[0xAA]])])
            == txid + [0x01, 0, 0, 0, 0x01, 0x51, 0xFE, 0xFF, 0xFF, 0xFF]
  {
    var i := TxIn(OutPoint(txid, 1), [0x51], 0xFFFF_FFFE, [[0xAA]]);
    OneEncoded(EncodeInput, i);
    assert LeBytes(1, 4) == [1, 0, 0, 0] && LeBytes(0xFFFF_FFFE, 4) == [0xFE, 0xFF, 0xFF, 0xFF];
    hide LeBytes, EncodeMany;
    assert EncodeInput(i) == txid + [1, 0, 0, 0] + [0x01, 0x51] + [0xFE, 0xFF, 0xFF, 0xFF];
  }

  lemma OutputExample()
    ensures EncodeMany(EncodeOutput, [TxOut(0x0102, [0x52])]) == [0x02, 0x01, 0, 0, 0, 0, 0, 0, 0x01, 0x52]
  {
    var o := TxOut(0x0102, [0x52]);
    OneEncoded(EncodeOutput, o);
    assert LeBytes(0x0102, 8) == [0x02, 0x01, 0, 0, 0, 0, 0, 0];
    hide LeBytes, EncodeMany;
    assert EncodeOutput(o) == [0x02, 0x01, 0, 0, 0, 0, 0, 0] + [0x01, 0x52];
  }

  lemma WitnessExample(i: TxIn)
    requires i.stack == [[0xAA]]
    ensures EncodeWitnesses([i]) == [0x01, 0x01, 0xAA]
  {
    var item: vec<byte> := [0xAA];
    assert EncodeMany(EncodeVarBytes, i.stack) == EncodeVarBytes(item) + [];
    assert EncodeWitnesses([i]) == EncodeStack(i.stack) + [];
  }

  lemma OneEncoded<T>(encode: T -> seq<byte>, x: T)
    ensures EncodeMany(encode, [x]) == encode(x)
  {
    assert [x][1..] == [];
  }

  // ----- what the format guarantees -----

  lemma WithoutInputs(tx: Transaction, flag: byte)
    requires tx.inputs == []
    ensures !HasWitness(tx) && |EncodeAs(tx, true, flag)| == |SerializeLegacy(tx)| + 2
  {
    hide LeBytes, Varint.Encode;
  }

  /** Whatever follows it, a serialised transaction parses back and the parse stops at its end, exactly when it has an input. */
  lemma RoundTrip(tx: Transaction, tail: seq<byte>)
    ensures ParseTx(Serialize(tx) + tail) == Success((tx, |Serialize(tx)|)) <==> tx.inputs != []
  {
    hide EncodeAs, ParseTx;
    var b := Serialize(tx) + tail;
    var segwit := HasWitness(tx);
    assert At(b, 0, EncodeAs(tx, segwit, if segwit then 1 else 0));
    if tx.inputs != [] {
      ParseBackward(b, tx, segwit, if segwit then 1 else 0);
    } else if ParseTx(b) == Success((tx, |Serialize(tx)|)) {
      ParseForward(b, tx, |Serialize(tx)|);
      WithoutInputs(tx, b[5]);
    }
  }

  /** The parser never looks past the transaction: what it accepts, it accepts the same with anything after it. */
  lemma TailIgnored(b: seq<byte>, tail: seq<byte>, tx: Transaction, end: nat)
    requires ParseTx(b) == Success((tx, end))
    ensures end <= |b| && ParseTx(b + tail) == Success((tx, end))
  {
    hide EncodeAs, ParseTx;
    ParseForward(b, tx, end);
    var segwit := b[4] == 0;
    var flag := if segwit then b[5] else 0;
    assert (b + tail)[..end] == b[..end];
    ParseBackward(b + tail, tx, segwit, flag);
  }

  /** The fifth byte tells the two encodings of transactions with inputs apart. */
  lemma EncodingsNeverCoincide(a: Transaction, b: Transaction, flag: byte)
    requires a.inputs != []
    ensures EncodeAs(a, false, 0)[4] != 0 && EncodeAs(b, true, flag)[4] == 0
  {
    var x := EncodeAs(a, false, 0);
    HeadSections(x, a, false, 0);
    ZeroCountIsTheMarker(x, 4, |a.inputs|);
    hide EncodeRest, Varint.Encode, LeBytes;
  }

  /** Serialisation is injective, and no serialised transaction begins another. */
  lemma SerializePrefixFree(a: Transaction, b: Transaction)
    requires a.inputs != [] && b.inputs != [] && Serialize(a) <= Serialize(b)
    ensures a == b
  {
    hide Serialize, ParseTx;
    var tail := Serialize(b)[|Serialize(a)|..];
    assert Serialize(a) + tail == Serialize(b) + [];
    RoundTrip(a, tail);
    RoundTrip(b, []);
  }

  /** What was accepted is what would be written back, except for a wrong flag byte or an empty witness section. */
  lemma AcceptedReserializes(b: seq<byte>, tx: Transaction, end: nat)
    requires ParseTx(b) == Success((tx, end))
    ensures |b| >= 6 && end <= |b|
    ensures b[..end] == Serialize(tx) <==> b[4] != 0 || (b[5] == 1 && HasWitness(tx))
  {
    hide EncodeRest, ParseTx, Varint.Encode, LeBytes;
    ParseForward(b, tx, end);
    if b[4] == 0 {
      assert b[5] == b[..end][5] == EncodeAs(tx, true, b[5])[5];
      if HasWitness(tx) {
        assert EncodeAs(tx, true, 1)[5] == 1;
      } else {
        LegacyIsShorter(tx, b[5]);
      }
    }
  }

  lemma LegacyIsShorter(tx: Transaction, flag: byte)
    ensures |SerializeLegacy(tx)| + 2 <= |EncodeAs(tx, true, flag)|
  {
    hide LeBytes, Varint.Encode, EncodeMany, EncodeWitnesses;
  }

  function WithoutWitness(tx: Transaction): Transaction { tx.(inputs := Strip(tx.inputs)) }

  /** The bytes under a txid determine the transaction up to its witnesses, and nothing of the witnesses. */
  lemma TxidPreimage(a: Transaction, b: Transaction)
    requires a.inputs != [] && b.inputs != []
    ensures SerializeLegacy(a) == SerializeLegacy(b) <==> WithoutWitness(a) == WithoutWitness(b)
    ensures WithoutWitness(a) == WithoutWitness(b) ==> Txid(a) == Txid(b)
  {
    hide Sha256.HashTwice;
    StrippedLegacy(a);
    StrippedLegacy(b);
    if SerializeLegacy(a) == SerializeLegacy(b) {
      SerializePrefixFree(WithoutWitness(a), WithoutWitness(b));
    }
  }

  lemma StrippedLegacy(tx: Transaction)
    ensures SerializeLegacy(WithoutWitness(tx)) == SerializeLegacy(tx) == Serialize(WithoutWitness(tx))
  {
    hide LeBytes, Varint.Encode, EncodeInput, EncodeOutput;
    EncodeInputsIgnoresWitness(tx.inputs);
    forall i | i in Strip(tx.inputs)
      ensures NoWitness(i)
    {
      var k :| 0 <= k < |tx.inputs| && Strip(tx.inputs)[k] == i;
    }
  }

  /** The two ids are the standard's double hash of the two encodings, which are the same bytes exactly when there is no witness to leave out. */
  lemma IdsShareAPreimage(tx: Transaction)
    ensures Txid(tx) == Fips180.Hash(Fips180.Hash(SerializeLegacy(tx))) && Wtxid(tx) == Fips180.Hash(Fips180.Hash(Serialize(tx)))
    ensures Serialize(tx) == SerializeLegacy(tx) <==> !HasWitness(tx)
  {
    hide EncodeAs, Sha256.HashTwice, Fips180.Hash;
    Fips180.SameHashTwice(SerializeLegacy(tx));
    Fips180.SameHashTwice(Serialize(tx));
    if HasWitness(tx) { LegacyIsShorter(tx, 1); }
  }

  // ----- the loops -----

  lemma EncodeManyStep<T>(encode: T -> seq<byte>, xs: seq<T>, i: nat)
    requires i < |xs|
    ensures EncodeMany(encode, xs[i..]) == encode(xs[i]) + EncodeMany(encode, xs[i + 1..])
  {
    assert xs[i..][1..] == xs[i + 1..];
  }

  method WriteVarBytes(data: vec<byte>, out: Varint.ByteVec)
    modifies out
    ensures out.bytes == old(out.bytes) + EncodeVarBytes(data)
  {
    Varint.EncodeInto(|data|, out);
    out.Extend(data);
  }

  method WriteInputs(tx: Transaction, out: Varint.ByteVec)
    modifies out
    ensures out.bytes == old(out.bytes) + (Varint.Encode(|tx.inputs|) + EncodeMany(EncodeInput, tx.inputs))
  {
    hide LeBytes, Varint.Encode, EncodeVarBytes, EncodeMany;
    Varint.EncodeInto(|tx.inputs|, out);
    ghost var start := out.bytes;
    Regroup(old(out.bytes), Varint.Encode(|tx.inputs|), EncodeMany(EncodeInput, tx.inputs));
    for i := 0 to |tx.inputs|
      invariant out.bytes + EncodeMany(EncodeInput, tx.inputs[i..]) == start + EncodeMany(EncodeInput, tx.inputs)
    {
      ghost var before := out.bytes;
      var input := tx.inputs[i];
      EncodeManyStep(EncodeInput, tx.inputs, i);
      out.Extend(input.previousOutput.txid);
      out.Extend(LeBytes(input.previousOutput.vout, 4));
      WriteVarBytes(input.scriptSig, out);
      out.Extend(LeBytes(input.sequence, 4));
      assert out.bytes == before + EncodeInput(input);
      Regroup(before, EncodeInput(input), EncodeMany(EncodeInput, tx.inputs[i + 1..]));
    }
    NothingLeft(EncodeInput, tx.inputs);
  }

  lemma NothingLeft<T>(encode: T -> seq<byte>, xs: seq<T>)
    ensures xs[0..] == xs && EncodeMany(encode, xs[|xs|..]) == []
  {
  }

  method WriteOutputs(tx: Transaction, out: Varint.ByteVec)
    modifies out
    ensures out.bytes == old(out.bytes) + (Varint.Encode(|tx.outputs|) + EncodeMany(EncodeOutput, tx.outputs))
  {
    hide LeBytes, Varint.Encode, EncodeVarBytes, EncodeMany;
    Varint.EncodeInto(|tx.outputs|, out);
    ghost var start := out.bytes;
    Regroup(old(out.bytes), Varint.Encode(|tx.outputs|), EncodeMany(EncodeOutput, tx.outputs));
    for i := 0 to |tx.outputs|
      invariant out.bytes + EncodeMany(EncodeOutput, tx.outputs[i..]) == start + EncodeMany(EncodeOutput, tx.outputs)
    {
      ghost var before := out.bytes;
      EncodeManyStep(EncodeOutput, tx.outputs, i);
      out.Extend(LeBytes(tx.outputs[i].value, 8));
      WriteVarBytes(tx.outputs[i].scriptPubkey, out);
      assert out.bytes == before + EncodeOutput(tx.outputs[i]);
      Regroup(before, EncodeOutput(tx.outputs[i]), EncodeMany(EncodeOutput, tx.outputs[i + 1..]));
    }
    NothingLeft(EncodeOutput, tx.outputs);
  }

  method WriteStack(stack: vec<vec<byte>>, out: Varint.ByteVec)
    modifies out
    ensures out.bytes == old(out.bytes) + EncodeStack(stack)
  {
    hide Varint.Encode, EncodeVarBytes, EncodeMany;
    Varint.EncodeInto(|stack|, out);
    ghost var start := out.bytes;
    Regroup(old(out.bytes), Varint.Encode(|stack|), EncodeMany(EncodeVarBytes, stack));
    for i := 0 to |stack|
      invariant out.bytes + EncodeMany(EncodeVarBytes, stack[i..]) == start + EncodeMany(EncodeVarBytes, stack)
    {
      ghost var before := out.bytes;
      EncodeManyStep(EncodeVarBytes, stack, i);
      WriteVarBytes(stack[i], out);
      Regroup(before, EncodeVarBytes(stack[i]), EncodeMany(EncodeVarBytes, stack[i + 1..]));
    }
    NothingLeft(EncodeVarBytes, stack);
  }

  method WriteWitnesses(inputs: seq<TxIn>, out: Varint.ByteVec)
    modifies out
    ensures out.bytes == old(out.bytes) + EncodeWitnesses(inputs)
  {
    hide EncodeStack;
    for i := 0 to |inputs|
      invariant out.bytes + EncodeWitnesses(inputs[i..]) == old(out.bytes) + EncodeWitnesses(inputs)
    {
      ghost var before := out.bytes;
      assert inputs[i..][1..] == inputs[i + 1..];
      WriteStack(inputs[i].stack, out);
      Regroup(before, EncodeStack(inputs[i].stack), EncodeWitnesses(inputs[i + 1..]));
    }
  }

  method ComputeSerializeLegacy(tx: Transaction) returns (bytes: seq<byte>)
    ensures bytes == SerializeLegacy(tx)
  {
    hide LeBytes, Varint.Encode, EncodeMany;
    var out := new Varint.ByteVec();
    out.Extend(LeBytes(ToUnsigned(tx.version), 4));
    WriteInputs(tx, out);
    WriteOutputs(tx, out);
    out.Extend(LeBytes(tx.lockTime, 4));
    bytes := out.bytes;
  }

  method ComputeSerialize(tx: Transaction) returns (bytes: seq<byte>)
    ensures bytes == Serialize(tx)
  {
    hide LeBytes, Varint.Encode, EncodeMany, EncodeWitnesses;
    if !HasWitness(tx) {
      bytes := ComputeSerializeLegacy(tx);
      return;
    }
    var out := new Varint.ByteVec();
    out.Extend(LeBytes(ToUnsigned(tx.version), 4));
    out.Push(0x00);
    out.Push(0x01);
    WriteInputs(tx, out);
    WriteOutputs(tx, out);
    WriteWitnesses(tx.inputs, out);
    out.Extend(LeBytes(tx.lockTime, 4));
    bytes := out.bytes;
  }

  /** A parse of the remaining items continues the ones already read. */
  function Continue<T>(done: seq<T>, r: Parsed<seq<T>>): Parsed<seq<T>>
  {
    match r
    case Success((rest, end)) => Success((done + rest, end))
    case Failure(e) => Failure(e)
  }

  lemma ContinueEnds<T>(r: Parsed<seq<T>>, done: seq<T>, at: nat)
    ensures Continue([], r) == r && Continue(done, Success(([], at))) == Success((done, at))
  {
    assert done + [] == done;
    if r.Success? { assert [] + r.value.0 == r.value.0; }
  }

  lemma ContinueStep<T>(parse: (seq<byte>, nat) -> Parsed<T>, b: seq<byte>, at: nat, count: nat, done: seq<T>)
    requires count > 0
    ensures match parse(b, at)
      case Success((x, next)) => Continue(done, ParseMany(parse, b, at, count)) == Continue(done + [x], ParseMany(parse, b, next, count - 1))
      case Failure(e) => Continue(done, ParseMany(parse, b, at, count)) == Failure(e)
  {
    if parse(b, at).Success? {
      var (x, next) := parse(b, at).value;
      var tail := ParseMany(parse, b, next, count - 1);
      if tail.Success? { assert done + ([x] + tail.value.0) == done + [x] + tail.value.0; }
    }
  }

  method ReadInput(c: Cursor) returns (r: Result<TxIn, ReadError>)
    requires c.Valid()
    modifies c
    ensures c.Valid()
    ensures match ParseInput(c.bytes, old(c.position))
      case Success((i, end)) => r == Success(i) && c.position == end
      case Failure(e) => r == Failure(e)
  {
    hide Varint.Decode;
    Pow256Widths();
    var txid := c.ReadBytes(32);
    if txid.Failure? { return Failure(txid.error); }
    var vout := c.ReadLe(4);
    if vout.Failure? { return Failure(vout.error); }
    var script := c.ReadVarBytes();
    if script.Failure? { return Failure(script.error); }
    var sequence := c.ReadLe(4);
    if sequence.Failure? { return Failure(sequence.error); }
    return Success(TxIn(OutPoint(txid.value, vout.value), script.value, sequence.value, []));
  }

  method ReadOutput(c: Cursor) returns (r: Result<TxOut, ReadError>)
    requires c.Valid()
    modifies c
    ensures c.Valid()
    ensures match ParseOutput(c.bytes, old(c.position))
      case Success((o, end)) => r == Success(o) && c.position == end
      case Failure(e) => r == Failure(e)
  {
    hide Varint.Decode;
    Pow256Widths();
    var value := c.ReadLe(8);
    if value.Failure? { return Failure(value.error); }
    var script := c.ReadVarBytes();
    if script.Failure? { return Failure(script.error); }
    return Success(TxOut(value.value, script.value));
  }

  method ReadInputs(c: Cursor, count: u64) returns (r: Result<seq<TxIn>, ReadError>)
    requires c.Valid()
    modifies c
    ensures c.Valid()
    ensures match ParseMany(ParseInput, c.bytes, old(c.position), count)
      case Success((xs, end)) => r == Success(xs) && c.position == end
      case Failure(e) => r == Failure(e)
  {
    hide ParseInput;
    var inputs := [];
    ContinueEnds(ParseMany(ParseInput, c.bytes, c.position, count), inputs, 0);
    for i := 0 to count
      invariant c.Valid()
      invariant Continue(inputs, ParseMany(ParseInput, c.bytes, c.position, count - i)) == ParseMany(ParseInput, c.bytes, old(c.position), count)
    {
      ContinueStep(ParseInput, c.bytes, c.position, count - i, inputs);
      var input := ReadInput(c);
      if input.Failure? { return Failure(input.error); }
      inputs := inputs + [input.value];
    }
    ContinueEnds(ParseMany(ParseInput, c.bytes, c.position, 0), inputs, c.position);
    return Success(inputs);
  }

  method ReadOutputs(c: Cursor, count: u64) returns (r: Result<seq<TxOut>, ReadError>)
    requires c.Valid()
    modifies c
    ensures c.Valid()
    ensures match ParseMany(ParseOutput, c.bytes, old(c.position), count)
      case Success((xs, end)) => r == Success(xs) && c.position == end
      case Failure(e) => r == Failure(e)
  {
    hide ParseOutput;
    var outputs := [];
    ContinueEnds(ParseMany(ParseOutput, c.bytes, c.position, count), outputs, 0);
    for i := 0 to count
      invariant c.Valid()
      invariant Continue(outputs, ParseMany(ParseOutput, c.bytes, c.position, count - i))
                == ParseMany(ParseOutput, c.bytes, old(c.position), count)
    {
      ContinueStep(ParseOutput, c.bytes, c.position, count - i, outputs);
      var output := ReadOutput(c);
      if output.Failure? { return Failure(output.error); }
      outputs := outputs + [output.value];
    }
    ContinueEnds(ParseMany(ParseOutput, c.bytes, c.position, 0), outputs, c.position);
    return Success(outputs);
  }

  method ReadStack(c: Cursor) returns (r: Result<vec<vec<byte>>, ReadError>)
    requires c.Valid()
    modifies c
    ensures c.Valid()
    ensures match ParseStack(c.bytes, old(c.position))
      case Success((xs, end)) => r == Success(xs) && c.position == end
      case Failure(e) => r == Failure(e)
  {
    hide ParseVarint, ParseVarBytes;
    var items := c.ReadVarint();
    if items.Failure? { return Failure(items.error); }
    var stack: seq<vec<byte>> := [];
    ghost var start := c.position;
    ContinueEnds(ParseMany(ParseVarBytes, c.bytes, c.position, items.value), stack, 0);
    for i := 0 to items.value
      invariant c.Valid() && |stack| == i
      invariant Continue(stack, ParseMany(ParseVarBytes, c.bytes, c.position, items.value - i))
                == ParseMany(ParseVarBytes, c.bytes, start, items.value)
    {
      ContinueStep(ParseVarBytes, c.bytes, c.position, items.value - i, stack);
      var item := c.ReadVarBytes();
      if item.Failure? { return Failure(item.error); }
      stack := stack + [item.value];
    }
    ContinueEnds(ParseMany(ParseVarBytes, c.bytes, c.position, 0), stack, c.position);
    return Success(stack);
  }

  method ReadWitnesses(c: Cursor, bare: seq<TxIn>) returns (r: Result<seq<TxIn>, ReadError>)
    requires c.Valid()
    modifies c
    ensures c.Valid()
    ensures match ParseWitnesses(c.bytes, old(c.position), bare)
      case Success((xs, end)) => r == Success(xs) && c.position == end
      case Failure(e) => r == Failure(e)
  {
    hide ParseStack;
    var filled := [];
    assert bare[0..] == bare;
    ContinueEnds(ParseWitnesses(c.bytes, c.position, bare), filled, 0);
    for i := 0 to |bare|
      invariant c.Valid()
      invariant Continue(filled, ParseWitnesses(c.bytes, c.position, bare[i..])) == ParseWitnesses(c.bytes, old(c.position), bare)
    {
      ghost var before := c.position;
      assert bare[i..][1..] == bare[i + 1..];
      var stack := ReadStack(c);
      if stack.Failure? { return Failure(stack.error); }
      ghost var tail := ParseWitnesses(c.bytes, c.position, bare[i + 1..]);
      var input := bare[i].(stack := stack.value);
      if tail.Success? { assert filled + ([input] + tail.value.0) == filled + [input] + tail.value.0; }
      filled := filled + [input];
    }
    ContinueEnds(ParseWitnesses(c.bytes, c.position, []), filled, c.position);
    return Success(filled);
  }

  method Deserialize(bytes: seq<byte>) returns (r: Result<Transaction, ReadError>)
    ensures match ParseTx(bytes)
      case Success((tx, end)) => r == Success(tx)
      case Failure(e) => r == Failure(e)
  {
    hide ParseVarint, ParseMany, ParseWitnesses;
    Pow256Widths();
    var c := new Cursor(bytes);
    var version := c.ReadLe(4);
    if version.Failure? { return Failure(version.error); }
    var count := c.ReadVarint();
    if count.Failure? { return Failure(count.error); }
    var segwit := count.value == 0;
    if segwit {
      var flag := c.ReadBytes(1);
      if flag.Failure? { return Failure(flag.error); }
      count := c.ReadVarint();
      if count.Failure? { return Failure(count.error); }
    }
    var inputs := ReadInputs(c, count.value);
    if inputs.Failure? { return Failure(inputs.error); }
    var outputCount := c.ReadVarint();
    if outputCount.Failure? { return Failure(outputCount.error); }
    var outputs := ReadOutputs(c, outputCount.value);
    if outputs.Failure? { return Failure(outputs.error); }
    if segwit {
      inputs := ReadWitnesses(c, inputs.value);
      if inputs.Failure? { return Failure(inputs.error); }
    }
    var lockTime := c.ReadLe(4);
    if lockTime.Failure? { return Failure(lockTime.error); }
    return Success(Transaction(ToSigned(version.value), inputs.value, outputs.value, lockTime.value));
  }
}

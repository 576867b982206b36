/** Assembling a block, and the reader that splits it again. */
module Block {
  import opened Wrappers
  import opened Bytes
  import opened Hash256
  import opened Header
  import Merkle
  import Reader
  import opened Transaction
  import Tx = Transaction
  import Varint
  import Witness

  /** A `Vec` of raw transactions; with the coinbase added its length still fits the machine word. */
  type RawTransactions = s: seq<seq<byte>> | |s| < TWO_64 - 1

  datatype BlockBuilder = BlockBuilder(coinbase: Transaction, transactions: RawTransactions, txids: seq<Hash256>)

  datatype BlockError = CountMismatch(transactions: nat, txids: nat) | TooManyTransactions(count: nat)

  function New(coinbase: Transaction, transactions: RawTransactions, txids: seq<Hash256>): Result<BlockBuilder, BlockError>
  {
    if |transactions| != |txids| then Failure(CountMismatch(|transactions|, |txids|))
    else Success(BlockBuilder(coinbase, transactions, txids))
  }

  function MerkleRootOf(b: BlockBuilder): Hash256 { Merkle.Root([Txid(b.coinbase)] + b.txids) }

  function TransactionCount(b: BlockBuilder): u64 { |b.transactions| + 1 }

  function HeaderFor(b: BlockBuilder, template: BlockHeader, height: u32): Result<BlockHeader, BlockError>
  {
    if !template.headerV2 then Success(template.(merkleRoot := MerkleRootOf(b), txcount := 0, height := 0))
    else if TransactionCount(b) > 0xFFFF then Failure(TooManyTransactions(TransactionCount(b)))
    else Success(template.(merkleRoot := MerkleRootOf(b), txcount := TransactionCount(b), height := height))
  }

  method ComputeHeader(b: BlockBuilder, template: BlockHeader, height: u32) returns (r: Result<BlockHeader, BlockError>)
    ensures r == HeaderFor(b, template, height)
  {
    hide Txid;
    var count := TransactionCount(b);
    var header := template;
    var leaves := [Txid(b.coinbase)];
    leaves := leaves + b.txids;
    var root := Merkle.ComputeRoot(leaves);
    header := header.(merkleRoot := root.value);
    if header.headerV2 {
      if count > 0xFFFF {
        return Failure(TooManyTransactions(count));
      }
      header := header.(txcount := count);
      header := header.(height := height);
    } else {
      header := header.(txcount := 0);
      header := header.(height := 0);
    }
    return Success(header);
  }

  function Concat(parts: seq<seq<byte>>): seq<byte>
  {
    if parts == [] then [] else parts[0] + Concat(parts[1..])
  }

  function SerializeBlock(b: BlockBuilder, h: BlockHeader): seq<byte>
  {
    Header.Serialize(h) + Varint.Encode(TransactionCount(b)) + Tx.Serialize(b.coinbase) + Concat(b.transactions)
  }

  method ComputeSerialize(b: BlockBuilder, h: BlockHeader) returns (bytes: seq<byte>)
    ensures bytes == SerializeBlock(b, h)
  {
    hide Header.Serialize, Varint.Encode, Tx.Serialize;
    var out := new Varint.ByteVec();
    out.Extend(Header.Serialize(h));
    Varint.EncodeInto(TransactionCount(b), out);
    var coinbase := Tx.ComputeSerialize(b.coinbase);
    out.Extend(coinbase);
    ghost var start := out.bytes;
    assert b.transactions[0..] == b.transactions;
    for i := 0 to |b.transactions|
      invariant out.bytes + Concat(b.transactions[i..]) == start + Concat(b.transactions)
    {
      ghost var before := out.bytes;
      assert b.transactions[i..][1..] == b.transactions[i + 1..];
      out.Extend(b.transactions[i]);
      Regroup(before, b.transactions[i], Concat(b.transactions[i + 1..]));
    }
    assert out.bytes + [] == out.bytes;
    bytes := out.bytes;
  }

  // ----- reading a block back -----

  datatype Block = Block(header: BlockHeader, count: u64, txs: seq<Transaction>)

  /** `count` transactions that fill the bytes exactly. */
  function ParseTransactions(s: seq<byte>, count: nat): Option<seq<Transaction>>
    decreases count
  {
    if count == 0 then if s == [] then Some([]) else None
    else
      match ParseTx(s)
      case Failure(_) => None
      case Success((tx, n)) =>
        if n > |s| then None
        else
          match ParseTransactions(s[n..], count - 1)
          case None => None
          case Some(rest) => Some([tx] + rest)
  }

  /** Header, CompactSize count, transactions, and nothing after them. */
  function ParseBlock(s: seq<byte>): Option<Block>
  {
    if |s| < 4 then None
    else
      var size := if U32AtOffset(s, 0) >= VERSION_HEADER_V2_FLAG then HEADER_V2_SIZE else HEADER_V1_SIZE;
      if |s| < size then None
      else
        match Header.Deserialize(s[..size])
        case Failure(_) => None
        case Success(h) =>
          match Reader.ParseVarint(s, size)
          case Failure(_) => None
          case Success((count, at)) =>
            match ParseTransactions(s[at..], count)
            case None => None
            case Some(txs) => Some(Block(h, count, txs))
  }

  /** Each raw string is one transaction, to its last byte. */
  predicate Whole(raw: seq<seq<byte>>, txs: seq<Transaction>)
  {
    |raw| == |txs| && forall i :: 0 <= i < |raw| ==> ParseTx(raw[i]) == Success((txs[i], |raw[i]|))
  }

  lemma {:induction false} TransactionsSplit(raw: seq<seq<byte>>, txs: seq<Transaction>)
    requires Whole(raw, txs)
    ensures ParseTransactions(Concat(raw), |raw|) == Some(txs)
  {
    hide ParseTx;
    if raw != [] {
      var rest := Concat(raw[1..]);
      TailIgnored(raw[0], rest, txs[0], |raw[0]|);
      assert (raw[0] + rest)[|raw[0]|..] == rest;
      TransactionsSplit(raw[1..], txs[1..]);
      assert txs == [txs[0]] + txs[1..];
    }
  }

  lemma HeaderSplits(h: BlockHeader, tail: seq<byte>)
    ensures var s := Header.Serialize(h) + tail;
      && (U32AtOffset(s, 0) >= VERSION_HEADER_V2_FLAG <==> h.headerV2)
      && s[..SerializedSize(h)] == Header.Serialize(h)
  {
    hide LeBytes, CommonFieldsAt, V2FieldsAt, SerializeCommon;
    var b := Header.Serialize(h);
    Layout(b, h);
    VersionWord(b, h);
    assert (b + tail)[0..4] == b[0..4];
  }

  lemma VersionWord(b: seq<byte>, h: BlockHeader)
    requires |b| == SerializedSize(h) && CommonFieldsAt(b, h)
    ensures U32AtOffset(b, 0) == CompleteVersion(h)
  {
    hide LeBytes;
    Pow256Widths();
    LeOffset(b, 0, CompleteVersion(h), 4);
  }

  /** A coinbase in front of raw transactions is read first, and leaves them. */
  lemma CoinbaseFirst(coinbase: Transaction, raw: seq<seq<byte>>)
    requires coinbase.inputs != []
    ensures ParseTransactions(Tx.Serialize(coinbase) + Concat(raw), |raw| + 1)
            == match ParseTransactions(Concat(raw), |raw|) case None => None case Some(txs) => Some([coinbase] + txs)
  {
    hide Tx.Serialize, ParseTx, Concat;
    RoundTrip(coinbase, Concat(raw));
    assert (Tx.Serialize(coinbase) + Concat(raw))[|Tx.Serialize(coinbase)|..] == Concat(raw);
  }

  /** A serialised block splits back into its header, its coinbase and whatever its raw bytes hold, which is their transactions when each holds one. */
  lemma BlockSplits(b: BlockBuilder, h: BlockHeader)
    requires WellFormed(h) && b.coinbase.inputs != []
    ensures ParseBlock(SerializeBlock(b, h))
            == match ParseTransactions(Concat(b.transactions), |b.transactions|)
               case None => None
               case Some(txs) => Some(Block(h, TransactionCount(b), [b.coinbase] + txs))
    ensures forall txs :: Whole(b.transactions, txs) ==> ParseTransactions(Concat(b.transactions), |b.transactions|) == Some(txs)
  {
    hide Header.Serialize, Header.Deserialize, WellFormed, Varint.Encode, Tx.Serialize, ParseTx, Concat, ParseTransactions, U32AtOffset, Whole;
    var body := Tx.Serialize(b.coinbase) + Concat(b.transactions);
    var head, count := Header.Serialize(h), Varint.Encode(TransactionCount(b));
    var s := SerializeBlock(b, h);
    var size, at := SerializedSize(h), |head| + |count|;
    assert s == head + (count + body) && s[at..] == body;
    HeaderSplits(h, count + body);
    DeserializeSerialize(h);
    assert s[size..at] == count;
    Reader.VarintAt(s, size, TransactionCount(b), at);
    CoinbaseFirst(b.coinbase, b.transactions);
    forall txs | Whole(b.transactions, txs)
      ensures ParseTransactions(Concat(b.transactions), |b.transactions|) == Some(txs)
    {
      TransactionsSplit(b.transactions, txs);
    }
  }

  /** A root over claimed ids is the root over the transactions' own exactly when the ids are theirs, unless the double hash collides. */
  lemma RootOfBody(coinbase: Transaction, txids: seq<Hash256>, txs: seq<Transaction>) returns (left: (Hash256, Hash256), right: (Hash256, Hash256))
    requires |txids| == |txs|
    ensures txids == Witness.Txids(txs) ==> Merkle.Root([Txid(coinbase)] + txids) == Merkle.Root(Witness.Txids([coinbase] + txs))
    ensures Merkle.Root([Txid(coinbase)] + txids) == Merkle.Root(Witness.Txids([coinbase] + txs)) ==>
              txids == Witness.Txids(txs) || Merkle.IsCollision(left, right)
  {
    hide Txid, Merkle.Root, Merkle.IsCollision;
    var claimed, own := [Txid(coinbase)] + txids, Witness.Txids([coinbase] + txs);
    assert own == [Txid(coinbase)] + Witness.Txids(txs);
    left, right := (ZERO, ZERO), (ZERO, ZERO);
    if Merkle.Root(claimed) == Merkle.Root(own) {
      left, right := Merkle.EqualRootsCollide(claimed, own);
      if claimed == own { assert txids == claimed[1..] == own[1..] == Witness.Txids(txs); }
    }
  }

  /**
    The header of a v2 block states the count the body carries and the root of the coinbase with the ids
    the body was given, which is the body's own root when they are its transactions' ids, and otherwise
    only under a collision; it is refused exactly past sixteen bits.
   */
  lemma HeaderDescribesBody(b: BlockBuilder, template: BlockHeader, height: u32, txs: seq<Transaction>)
    returns (left: (Hash256, Hash256), right: (Hash256, Hash256))
    requires template.headerV2 && template.version >= 0 && b.coinbase.inputs != [] && |b.txids| == |b.transactions| == |txs|
    ensures HeaderFor(b, template, height).Failure? <==> |b.transactions| + 1 > 0xFFFF
    ensures HeaderFor(b, template, height).Success? ==>
              var h := HeaderFor(b, template, height).value;
              && (Whole(b.transactions, txs) ==> ParseBlock(SerializeBlock(b, h)) == Some(Block(h, h.txcount, [b.coinbase] + txs)))
              && h.merkleRoot == Merkle.Root([Txid(b.coinbase)] + b.txids) && h.height == height
              && (b.txids == Witness.Txids(txs) ==> h.merkleRoot == Merkle.Root(Witness.Txids([b.coinbase] + txs)))
              && (h.merkleRoot == Merkle.Root(Witness.Txids([b.coinbase] + txs)) ==>
                    b.txids == Witness.Txids(txs) || Merkle.IsCollision(left, right))
  {
    hide Header.Serialize, Varint.Encode, Tx.Serialize, ParseBlock, SerializeBlock, Txid, Merkle.Root, Merkle.IsCollision, Whole;
    left, right := RootOfBody(b.coinbase, b.txids, txs);
    if HeaderFor(b, template, height).Success? { BlockSplits(b, HeaderFor(b, template, height).value); }
  }

  /** Before the fork the count and the height stay out of the header, whatever the body, so a null header stays one a parser returns. */
  lemma PreForkHeaderIsNull(b: BlockBuilder, template: BlockHeader, height: u32)
    requires !template.headerV2 && WellFormed(template)
    ensures HeaderFor(b, template, height).Success?
    ensures var h := HeaderFor(b, template, height).value;
      && h.merkleRoot == Merkle.Root([Txid(b.coinbase)] + b.txids) && h.txcount == h.height == 0
      && Header.Deserialize(Header.Serialize(h)) == Success(h)
  {
    hide Merkle.Root, Txid, Header.Serialize, Header.Deserialize;
    DeserializeSerialize(HeaderFor(b, template, height).value);
  }
}

/** The SegWit commitment of BIP 141. */
module Witness {
  import opened Wrappers
  import opened Bytes
  import opened Hash256
  import Fips180
  import Merkle
  import Script
  import Sha256
  import opened Transaction

  const COMMITMENT_HEADER: seq<byte> := [0xAA, 0x21, 0xA9, 0xED]
  const OP_RETURN: byte := 0x6A
  const PUSH_36: byte := 0x24

  /** The coinbase stands as zeros in front of the others. */
  function WitnessMerkleRoot(wtxids: seq<Hash256>): Hash256 { Merkle.Root([ZERO] + wtxids) }

  function Commitment(root: Hash256, reserved: Hash256): Hash256 { Sha256.HashTwice(root + reserved) }

  function CommitmentScript(wtxids: seq<Hash256>): (s: seq<byte>)
    ensures |s| == 38
  {
    [OP_RETURN, PUSH_36] + COMMITMENT_HEADER + Commitment(WitnessMerkleRoot(wtxids), Zeros(32))
  }

  /** The script is OP_RETURN followed by one minimal push of the four marker bytes and the standard's double hash of the root and 32 zero bytes. */
  lemma ScriptIsReturnAndPush(wtxids: seq<Hash256>)
    ensures CommitmentScript(wtxids)[0] == 0x6A
    ensures Script.ReadScript(CommitmentScript(wtxids)[1..])
            == Some([[0xAA, 0x21, 0xA9, 0xED] + Fips180.Hash(Fips180.Hash(Merkle.Root([ZERO] + wtxids) + Zeros(32)))])
  {
    hide Sha256.HashTwice, Fips180.Hash, Merkle.Root, Script.ReadElement;
    Fips180.SameHashTwice(Merkle.Root([ZERO] + wtxids) + Zeros(32));
    var data: seq<byte> := COMMITMENT_HEADER + Commitment(WitnessMerkleRoot(wtxids), Zeros(32));
    Script.PushAllReadsBack([data]);
    assert Script.PushAll([data]) == Script.Push(data) + [] == Script.Push(data);
    assert CommitmentScript(wtxids)[1..] == Script.Push(data);
  }

  function Wtxids(txs: seq<Transaction>): (ids: seq<Hash256>)
    ensures |ids| == |txs| && forall i :: 0 <= i < |txs| ==> ids[i] == Wtxid(txs[i])
  {
    seq(|txs|, i requires 0 <= i < |txs| => Wtxid(txs[i]))
  }

  function Txids(txs: seq<Transaction>): (ids: seq<Hash256>)
    ensures |ids| == |txs| && forall i :: 0 <= i < |txs| ==> ids[i] == Txid(txs[i])
  {
    seq(|txs|, i requires 0 <= i < |txs| => Txid(txs[i]))
  }

  /**
    The coinbase never enters the commitment: over the whole block, the witness tree folded from its own
    coinbase branch is the same for every coinbase.
   */
  lemma CommitmentIgnoresCoinbase(coinbase: Transaction, rest: seq<Transaction>)
    ensures Merkle.FoldBranch(ZERO, Merkle.Branch(Wtxids([coinbase] + rest))) == WitnessMerkleRoot(Wtxids(rest))
  {
    hide Wtxid, Merkle.FoldBranch, Merkle.Branch, Merkle.Root;
    var all := Wtxids([coinbase] + rest);
    Merkle.BranchFoldsToRoot(all, ZERO);
    assert all[0 := ZERO] == [ZERO] + Wtxids(rest);
  }

  /** Two lists of one length under one commitment are equal, or exhibit a collision of the double hash. */
  lemma CommitmentBinds(a: seq<Hash256>, b: seq<Hash256>) returns (left: (Hash256, Hash256), right: (Hash256, Hash256))
    requires |a| == |b| && CommitmentScript(a) == CommitmentScript(b)
    ensures a == b || Merkle.IsCollision(left, right)
  {
    hide Sha256.HashTwice, Merkle.Root;
    var x, y := WitnessMerkleRoot(a), WitnessMerkleRoot(b);
    var s, t := CommitmentScript(a), CommitmentScript(b);
    assert Commitment(x, Zeros(32)) == s[6..] == t[6..] == Commitment(y, Zeros(32));
    if x == y {
      left, right := Merkle.EqualRootsCollide([ZERO] + a, [ZERO] + b);
      if [ZERO] + a == [ZERO] + b {
        assert a == ([ZERO] + a)[1..] && b == ([ZERO] + b)[1..];
      }
    } else {
      left, right := (x, Zeros(32)), (y, Zeros(32));
    }
  }

  method ComputeCommitmentScript(wtxids: seq<Hash256>) returns (script: seq<byte>)
    ensures script == CommitmentScript(wtxids)
  {
    hide Sha256.HashTwice;
    var root := Merkle.ComputeRoot([ZERO] + wtxids);
    var buffer := new byte[64](i => 0);
    forall i | 0 <= i < 32 {
      buffer[i] := root.value[i];
    }
    assert buffer[..] == root.value + Zeros(32);
    var value := Sha256.HashTwice(buffer[..]);
    script := [OP_RETURN];
    script := script + [PUSH_36];
    script := script + COMMITMENT_HEADER;
    script := script + value;
  }
}

/** BIP 340 tagged hashes, whole and built up in pieces. */
module TaggedHash {
  import opened Bytes
  import Fips180
  import Sha256

  function Prefix(tag: seq<byte>): (p: seq<byte>)
    ensures |p| == 64
  {
    Sha256.Hash(tag) + Sha256.Hash(tag)
  }

  function Tagged(tag: seq<byte>, data: seq<byte>): (digest: seq<byte>)
    ensures |digest| == 32
  {
    Sha256.Hash(Prefix(tag) + data)
  }

  /** The standard's hash of the tag's digest twice and then the data, as BIP 340 defines it. */
  lemma TaggedIsStandard(tag: seq<byte>, data: seq<byte>)
    ensures Tagged(tag, data) == Fips180.Hash(Fips180.Hash(tag) + Fips180.Hash(tag) + data)
  {
    hide Sha256.Hash, Fips180.Hash;
    Fips180.SameHash(tag);
    Fips180.SameHash(Prefix(tag) + data);
  }

  /** Accumulates the fields of a tagged hash. */
  class TaggedHasher {
    var buffer: seq<byte>
    ghost var tag: seq<byte>
    ghost var written: seq<byte>

    ghost predicate Valid()
      reads this
    {
      buffer == Prefix(tag) + written
    }

    constructor (tag: seq<byte>)
      ensures Valid() && this.tag == tag && written == []
    {
      var tagHash := Sha256.Hash(tag);
      buffer := tagHash + tagHash;
      this.tag := tag;
      written := [];
    }

    method Write(bytes: seq<byte>)
      requires Valid()
      modifies this
      ensures Valid() && tag == old(tag) && written == old(written) + bytes
    {
      hide Prefix;
      buffer := buffer + bytes;
      written := written + bytes;
      assert buffer == Prefix(tag) + written;
    }

    method WriteU8(value: byte)
      requires Valid()
      modifies this
      ensures Valid() && tag == old(tag) && written == old(written) + [value]
    {
      Write([value]);
    }

    method WriteU32(value: u32)
      requires Valid()
      modifies this
      ensures Valid() && tag == old(tag) && written == old(written) + LeBytes(value, 4)
    {
      Write(LeBytes(value, 4));
    }

    method BytesWritten() returns (count: nat)
      requires Valid()
      ensures count == 0x40 + |written|
    {
      count := |buffer|;
    }

    /** However the data was cut into writes, the digest is the tagged hash of all of it. */
    method Finalize() returns (digest: seq<byte>)
      requires Valid()
      ensures digest == Tagged(tag, written)
    {
      digest := Sha256.Hash(buffer);
    }
  }
}

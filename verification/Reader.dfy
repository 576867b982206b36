/** A bounds-checked cursor over a byte string, and the parsers it refines. */
module Reader {
  import opened Wrappers
  import opened Bytes
  import opened Hash256
  import Varint

  datatype ReadError = UnexpectedEnd | BadVarInt(error: Varint.VarIntError)

  /** A `Vec`: its length fits the machine word. */
  type vec<T> = s: seq<T> | |s| < TWO_64

  /** What a parse yields: a value and where the cursor stands after it. */
  type Parsed<+T> = Result<(T, nat), ReadError>

  function ParseBytes(b: seq<byte>, at: nat, count: nat): (r: Parsed<seq<byte>>)
    ensures r.Success? ==> r.value.1 <= |b| && |r.value.0| == count
  {
    if at + count <= |b| then Success((b[at..at + count], at + count)) else Failure(UnexpectedEnd)
  }

  function ParseLe(b: seq<byte>, at: nat, width: nat): (r: Parsed<nat>)
    ensures r.Success? ==> r.value.1 <= |b| && r.value.0 < Pow256(width)
  {
    var (s, end) :- ParseBytes(b, at, width);
    LeValueBound(s);
    Success((LeValue(s), end))
  }

  function ParseU32(b: seq<byte>, at: nat): (r: Parsed<u32>)
    ensures r.Success? ==> r.value.1 <= |b|
  {
    Pow256Widths();
    var (v, end) :- ParseLe(b, at, 4);
    Success((v, end))
  }

  function ParseU64(b: seq<byte>, at: nat): (r: Parsed<u64>)
    ensures r.Success? ==> r.value.1 <= |b|
  {
    Pow256Widths();
    var (v, end) :- ParseLe(b, at, 8);
    Success((v, end))
  }

  function ParseVarint(b: seq<byte>, at: nat): (r: Parsed<u64>)
    ensures r.Success? ==> at <= r.value.1 <= |b|
  {
    if at > |b| then Failure(UnexpectedEnd) else
    match Varint.Decode(b[at..])
    case Failure(e) => Failure(BadVarInt(e))
    case Success((value, consumed)) => Varint.DecodeCanonical(b[at..]); Success((value, at + consumed))
  }

  function ParseVarBytes(b: seq<byte>, at: nat): (r: Parsed<vec<byte>>)
    ensures r.Success? ==> r.value.1 <= |b|
  {
    var (length, next) :- ParseVarint(b, at);
    ParseBytes(b, next, length)
  }

  // ----- what stands in a byte string at a position -----

  /** `enc` occupies `b` from position `at`. */
  predicate At(b: seq<byte>, at: nat, enc: seq<byte>)
  {
    at + |enc| <= |b| && b[at..at + |enc|] == enc
  }

  lemma AtSplit(b: seq<byte>, at: nat, x: seq<byte>, y: seq<byte>)
    ensures At(b, at, x + y) <==> At(b, at, x) && At(b, at + |x|, y)
  {
    if at + |x| + |y| <= |b| {
      var s := b[at..at + |x| + |y|];
      assert s == b[at..at + |x|] + b[at + |x|..at + |x| + |y|];
      if s == x + y {
        assert b[at..at + |x|] == s[..|x|] == x;
        assert b[at + |x|..at + |x| + |y|] == s[|x|..] == y;
      }
    }
  }

  function EncodeVarBytes(data: vec<byte>): seq<byte>
  {
    Varint.Encode(|data|) + data
  }

  lemma LeAt(b: seq<byte>, at: nat, width: nat, v: nat)
    requires v < Pow256(width)
    ensures ParseLe(b, at, width) == Success((v, at + width)) <==> At(b, at, LeBytes(v, width))
  {
    LeValueOfLeBytes(v, width);
    if at + width <= |b| { LeBytesOfLeValue(b[at..at + width]); }
  }

  lemma VarintAt(b: seq<byte>, at: nat, v: u64, end: nat)
    ensures ParseVarint(b, at) == Success((v, end)) <==> At(b, at, Varint.Encode(v)) && end == at + |Varint.Encode(v)|
  {
    hide Varint.Encode, Varint.Decode;
    if at > |b| { return; }
    var e, s := Varint.Encode(v), b[at..];
    if Varint.Decode(s).Success? {
      Varint.DecodeCanonical(s);
      Varint.DecodeEncode(Varint.Decode(s).value.0, []);
      assert s[..Varint.Decode(s).value.1] == b[at..at + Varint.Decode(s).value.1];
    }
    if At(b, at, e) {
      assert s == e + s[|e|..];
      Varint.DecodeEncode(v, s[|e|..]);
    }
  }

  /** What goes wrong with a length is reported as that, and what is missing after it as the end of the input. */
  lemma VarBytesFails(b: seq<byte>, at: nat)
    requires at <= |b|
    ensures match Varint.Decode(b[at..])
      case Failure(e) => ParseVarBytes(b, at) == Failure(BadVarInt(e))
      case Success((length, n)) =>
        if at + n + length <= |b| then ParseVarBytes(b, at) == Success((b[at + n..at + n + length], at + n + length))
        else ParseVarBytes(b, at) == Failure(UnexpectedEnd)
  {
    hide Varint.Decode;
  }

  lemma VarBytesAt(b: seq<byte>, at: nat, data: vec<byte>, end: nat)
    ensures ParseVarBytes(b, at) == Success((data, end)) <==> At(b, at, EncodeVarBytes(data)) && end == at + |EncodeVarBytes(data)|
  {
    hide Varint.Encode;
    var e := Varint.Encode(|data|);
    AtSplit(b, at, e, data);
    VarintAt(b, at, |data|, at + |e|);
    if ParseVarBytes(b, at) == Success((data, end)) {
      var (length, next) := ParseVarint(b, at).value;
      VarintAt(b, at, length, next);
    }
  }

  // ----- repetition -----

  /** `count` items one after the other, as every counted loop of a deserialiser reads them. */
  function ParseMany<T>(parse: (seq<byte>, nat) -> Parsed<T>, b: seq<byte>, at: nat, count: nat): (r: Parsed<seq<T>>)
    ensures r.Success? ==> |r.value.0| == count
    decreases count
  {
    if count == 0 then Success(([], at))
    else
      var (x, next) :- parse(b, at);
      var (rest, end) :- ParseMany(parse, b, next, count - 1);
      Success(([x] + rest, end))
  }

  function EncodeMany<T>(encode: T -> seq<byte>, xs: seq<T>): seq<byte>
  {
    if xs == [] then [] else encode(xs[0]) + EncodeMany(encode, xs[1..])
  }

  /** The parser accepts exactly what the encoder writes for well-formed items, and stops at its end. */
  ghost predicate Exact<T(!new)>(parse: (seq<byte>, nat) -> Parsed<T>, encode: T -> seq<byte>, ok: T -> bool)
  {
    forall b: seq<byte>, at: nat, x: T, end: nat ::
      parse(b, at) == Success((x, end)) <==> ok(x) && At(b, at, encode(x)) && end == at + |encode(x)|
  }

  /** Exactness lifts from items to counted sequences of them. */
  lemma {:induction false} ManyAt<T(!new)>(parse: (seq<byte>, nat) -> Parsed<T>, encode: T -> seq<byte>, ok: T -> bool,
                                           b: seq<byte>, at: nat, count: nat, xs: seq<T>, end: nat)
    requires Exact(parse, encode, ok) && at <= |b|
    ensures ParseMany(parse, b, at, count) == Success((xs, end)) <==>
            |xs| == count && (forall x :: x in xs ==> ok(x)) && At(b, at, EncodeMany(encode, xs)) && end == at + |EncodeMany(encode, xs)|
    decreases count
  {
    if count == 0 || xs == [] {
      assert b[at..at] == [];
      return;
    }
    var x, rest := xs[0], xs[1..];
    var next := at + |encode(x)|;
    assert xs == [x] + rest;
    AtSplit(b, at, encode(x), EncodeMany(encode, rest));
    assert (forall y :: y in xs ==> ok(y)) <==> ok(x) && forall y :: y in rest ==> ok(y);
    assert parse(b, at) == Success((x, next)) <==> ok(x) && At(b, at, encode(x));
    if ParseMany(parse, b, at, count) == Success((xs, end)) {
      var (y, mid) := parse(b, at).value;
      assert parse(b, at) == Success((y, mid));
      var (ys, stop) := ParseMany(parse, b, mid, count - 1).value;
      assert [y] + ys == xs;
      assert y == xs[0] && ys == ([y] + ys)[1..];
    }
    if next <= |b| { ManyAt(parse, encode, ok, b, next, count - 1, rest, end); }
  }

  // ----- the cursor -----

  class Cursor {
    const bytes: seq<byte>
    var position: nat

    ghost predicate Valid()
      reads this
    {
      position <= |bytes|
    }

    constructor (bytes: seq<byte>)
      ensures Valid() && this.bytes == bytes && position == 0
    {
      this.bytes := bytes;
      position := 0;
    }

    method Remaining() returns (n: nat)
      requires Valid()
      ensures n == |bytes| - position
    {
      n := |bytes| - position;
    }

    /** Fails without moving when fewer than `count` bytes are left. */
    method ReadBytes(count: nat) returns (r: Result<seq<byte>, ReadError>)
      requires Valid()
      modifies this
      ensures Valid()
      ensures match ParseBytes(bytes, old(position), count)
        case Success((s, end)) => r == Success(s) && position == end
        case Failure(e) => r == Failure(e) && position == old(position)
    {
      var end := position + count;
      if end > |bytes| {
        return Failure(UnexpectedEnd);
      }
      r := Success(bytes[position..end]);
      position := end;
    }

    method ReadLe(width: nat) returns (r: Result<nat, ReadError>)
      requires Valid()
      modifies this
      ensures Valid()
      ensures match ParseLe(bytes, old(position), width)
        case Success((v, end)) => r == Success(v) && position == end
        case Failure(e) => r == Failure(e) && position == old(position)
    {
      var s := ReadBytes(width);
      match s
      case Success(data) => r := Success(LeValue(data));
      case Failure(e) => r := Failure(e);
    }

    method ReadVarint() returns (r: Result<u64, ReadError>)
      requires Valid()
      modifies this
      ensures Valid()
      ensures match ParseVarint(bytes, old(position))
        case Success((v, end)) => r == Success(v) && position == end
        case Failure(e) => r == Failure(e) && position == old(position)
    {
      match Varint.Decode(bytes[position..])
      case Failure(e) => r := Failure(BadVarInt(e));
      case Success((value, consumed)) =>
        Varint.DecodeCanonical(bytes[position..]);
        position := position + consumed;
        r := Success(value);
    }

    /** Fails past the length when the data after it is short. */
    method ReadVarBytes() returns (r: Result<seq<byte>, ReadError>)
      requires Valid()
      modifies this
      ensures Valid() && position >= old(position)
      ensures match ParseVarBytes(bytes, old(position))
        case Success((s, end)) => r == Success(s) && position == end
        case Failure(e) => r == Failure(e)
    {
      var length := ReadVarint();
      match length
      case Failure(e) => r := Failure(e);
      case Success(n) => r := ReadBytes(n);
    }
  }
}

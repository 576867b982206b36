/** Data pushes, script numbers and the BIP 34 height, with the reader that undoes them. */
module Script {
  import opened Wrappers
  import opened Bytes
  import opened Hash256
  import Varint

  const OP_PUSHDATA1: byte := 0x4C
  const OP_PUSHDATA2: byte := 0x4D
  const OP_PUSHDATA4: byte := 0x4E
  const OP_1NEGATE: byte := 0x4F
  const OP_1: byte := 0x51
  const OP_16: byte := 0x60

  /** Script's maximum element size; the source panics above it. */
  const MAX_ELEMENT: nat := 520

  type element = s: seq<byte> | |s| <= MAX_ELEMENT

  function PushHead(length: nat): (h: seq<byte>)
    requires length <= MAX_ELEMENT
    ensures 1 <= |h| <= 3
  {
    if length <= 75 then [length]
    else if length <= 255 then [OP_PUSHDATA1, length]
    else [OP_PUSHDATA2] + LeBytes(length, 2)
  }

  function Push(data: element): seq<byte> { PushHead(|data|) + data }

  method PushData(data: element, out: Varint.ByteVec)
    modifies out
    ensures out.bytes == old(out.bytes) + Push(data)
  {
    if |data| <= 75 {
      out.Push(|data|);
    } else if |data| <= 255 {
      out.Push(OP_PUSHDATA1);
      out.Push(|data|);
    } else {
      out.Push(OP_PUSHDATA2);
      out.Extend(LeBytes(|data|, 2));
    }
    out.Extend(data);
  }

  // ----- script numbers -----

  /** Little-endian without trailing zeros. */
  function MinimalLe(v: nat): (s: seq<byte>)
  {
    if v == 0 then [] else [v % 256] + MinimalLe(v / 256)
  }

  /** A zero byte keeps a set top bit from reading as a sign. */
  function ScriptNumber(v: u32): seq<byte>
  {
    var m := MinimalLe(v);
    if m != [] && m[|m| - 1] >= 0x80 then m + [0x00] else m
  }

  /** How Script reads a number: little-endian magnitude, sign in the top bit of the last byte. */
  function ReadScriptNumber(s: seq<byte>): int
  {
    if s == [] then 0
    else if s[|s| - 1] < 0x80 then LeValue(s)
    else 0x80 * Pow256(|s| - 1) - LeValue(s)
  }

  lemma {:induction false} MinimalLeValue(v: nat)
    ensures LeValue(MinimalLe(v)) == v
    ensures v > 0 ==> MinimalLe(v) != [] && MinimalLe(v)[|MinimalLe(v)| - 1] > 0
  {
    if v > 0 {
      MinimalLeValue(v / 256);
      assert MinimalLe(v)[1..] == MinimalLe(v / 256);
      if v / 256 > 0 { assert MinimalLe(v)[|MinimalLe(v)| - 1] == MinimalLe(v / 256)[|MinimalLe(v / 256)| - 1]; }
    }
  }

  lemma {:induction false} MinimalLeFits(v: nat, n: nat)
    requires v < Pow256(n)
    ensures |MinimalLe(v)| <= n
  {
    if v > 0 { MinimalLeFits(v / 256, n - 1); }
  }

  /** A number reads back, and no byte string that reads as it is shorter. */
  lemma ScriptNumberReadsBack(v: u32, other: seq<byte>)
    ensures ReadScriptNumber(ScriptNumber(v)) == v && |ScriptNumber(v)| <= 5
    ensures ReadScriptNumber(other) == v ==> |ScriptNumber(v)| <= |other|
  {
    hide LeValue, MinimalLe;
    var m := MinimalLe(v);
    MinimalLeValue(v);
    Pow256Widths();
    MinimalLeFits(v, 4);
    LeValueConcat(m, [0x00]);
    LeValueZeros(1);
    assert Zeros(1) == [0x00];
    if v == 0 { assert m == [] by { MinimalLeFits(0, 0); } }
    if ReadScriptNumber(other) == v && v > 0 {
      PositiveNeedsRoom(v, other);
    }
  }

  lemma PositiveNeedsRoom(v: u32, other: seq<byte>)
    requires v > 0 && ReadScriptNumber(other) == v
    ensures |ScriptNumber(v)| <= |other|
  {
    hide LeValue, MinimalLe, Pow256;
    MinimalLeValue(v);
    var m, n := MinimalLe(v), |other|;
    var top: nat := other[n - 1];
    var q := Pow256(n - 1);
    LeValueLast(other);
    LeValueBound(other[..n - 1]);
    if top >= 0x80 { MulMonotone(q, 0x80, top); assert false; }
    MulMonotone(q, top + 1, 0x80);
    assert q * (top + 1) == q * top + q;
    assert v < 0x80 * q;
    Pow256Step(n);
    MinimalLeFits(v, n);
    if |m| == n && m[n - 1] >= 0x80 {
      var last: nat := m[n - 1];
      LeValueLast(m);
      MulMonotone(q, 0x80, last);
      assert false;
    }
  }

  lemma Pow256Step(n: nat)
    requires n > 0
    ensures Pow256(n) == 256 * Pow256(n - 1)
  {
  }

  lemma MinimalLeFirst(value: nat)
    requires value > 0
    ensures MinimalLe(value) == [value % 256] + MinimalLe(value / 256)
  {
  }

  lemma MinimalLeStep(done: seq<byte>, value: nat)
    requires value > 0
    ensures done + [value % 256] + MinimalLe(value / 256) == done + MinimalLe(value)
  {
    hide MinimalLe;
    MinimalLeFirst(value);
    Regroup(done, [value % 256], MinimalLe(value / 256));
  }

  method EncodeScriptNumber(v: u32) returns (encoded: seq<byte>)
    ensures encoded == ScriptNumber(v)
  {
    if v == 0 {
      return [];
    }
    encoded := [];
    var value: nat := v;
    assert [] + MinimalLe(v) == MinimalLe(v);
    while value > 0
      invariant encoded + MinimalLe(value) == MinimalLe(v)
      invariant value < v ==> encoded != []
    {
      MinimalLeStep(encoded, value);
      encoded := encoded + [value % 256];
      value := value / 256;
    }
    assert encoded + [] == encoded;
    if encoded[|encoded| - 1] >= 0x80 {
      encoded := encoded + [0x00];
    }
  }

  // ----- the height -----

  function BlockHeight(height: u32): (s: seq<byte>)
  {
    if height == 0 then [0x00]
    else if height <= 16 then [OP_1 + height - 1]
    else
      ScriptNumberReadsBack(height, []);
      Push(ScriptNumber(height))
  }

  method EncodeBlockHeight(height: u32) returns (s: seq<byte>)
    ensures s == BlockHeight(height)
  {
    if height == 0 {
      s := [0x00];
    } else if height <= 16 {
      s := [OP_1 + height - 1];
    } else {
      var out := new Varint.ByteVec();
      ScriptNumberReadsBack(height, []);
      var number := EncodeScriptNumber(height);
      PushData(number, out);
      s := out.bytes;
    }
  }

  // ----- reading a script back -----

  /** Every element is the bytes it leaves on the stack; a length is read from `from` up to `head`, where the data starts. */
  function ReadCounted(s: seq<byte>, from: nat, head: nat): Option<(seq<byte>, nat)>
    requires from <= head
  {
    if |s| < head || |s| - head < LeValue(s[from..head]) then None
    else
      var end := head + LeValue(s[from..head]);
      Some((s[head..end], end))
  }

  /** The first element and how many bytes it took; only pushes are understood. */
  function ReadElement(s: seq<byte>): (r: Option<(seq<byte>, nat)>)
    ensures r.Some? ==> 0 < r.value.1 <= |s|
  {
    if s == [] then None
    else if s[0] <= 75 then ReadCounted(s, 0, 1)
    else if s[0] == OP_PUSHDATA1 then ReadCounted(s, 1, 2)
    else if s[0] == OP_PUSHDATA2 then ReadCounted(s, 1, 3)
    else if s[0] == OP_PUSHDATA4 then ReadCounted(s, 1, 5)
    else if s[0] == OP_1NEGATE then Some(([0x81], 1))
    else if OP_1 <= s[0] <= OP_16 then Some(([s[0] - OP_1 + 1], 1))
    else None
  }

  function ReadScript(s: seq<byte>): Option<seq<seq<byte>>>
    decreases |s|
  {
    if s == [] then Some([])
    else
      match ReadElement(s)
      case None => None
      case Some((e, n)) =>
        match ReadScript(s[n..])
        case None => None
        case Some(rest) => Some([e] + rest)
  }

  lemma LeValueOne(s: seq<byte>)
    requires |s| == 1
    ensures LeValue(s) == s[0]
  {
    assert LeValue(s[1..]) == 0;
  }

  lemma PushReadsBack(data: seq<byte>, tail: seq<byte>)
    requires |data| <= 520
    ensures ReadElement(Push(data) + tail) == Some((data, |Push(data)|))
  {
    hide LeBytes, LeValue;
    var s := Push(data) + tail;
    var head := |PushHead(|data|)|;
    assert s[head..head + |data|] == data;
    if |data| <= 75 {
      LeValueOne(s[0..1]);
    } else if |data| <= 255 {
      LeValueOne(s[1..2]);
    } else {
      Pow256Widths();
      LeValueOfLeBytes(|data|, 2);
      assert s[1..3] == LeBytes(|data|, 2);
    }
  }

  /** The single bytes that have an opcode to themselves: 1 to 16, and minus one. */
  predicate HasOpcode(data: seq<byte>) { |data| == 1 && (1 <= data[0] <= 16 || data[0] == 0x81) }

  /** A push is the shortest that leaves its bytes exactly when they are not a single byte with its own opcode. */
  lemma PushIsShortest(data: element)
    ensures (forall s :: ReadElement(s).Some? && ReadElement(s).value.0 == data ==> |Push(data)| <= ReadElement(s).value.1)
            <==> !HasOpcode(data)
  {
    hide ReadElement;
    if HasOpcode(data) {
      OpcodeIsShorter(data);
    } else {
      forall s | ReadElement(s).Some? && ReadElement(s).value.0 == data
        ensures |Push(data)| <= ReadElement(s).value.1
      {
        OthersAreNoShorter(data, s);
      }
    }
  }

  function OpcodeFor(data: seq<byte>): byte
    requires HasOpcode(data)
  {
    if data[0] == 0x81 then OP_1NEGATE else OP_1 + data[0] - 1
  }

  lemma OpcodeIsShorter(data: element)
    requires HasOpcode(data)
    ensures ReadElement([OpcodeFor(data)]) == Some((data, 1)) && |Push(data)| == 2
  {
    assert data == [data[0]];
  }

  lemma OthersAreNoShorter(data: element, s: seq<byte>)
    requires ReadElement(s).Some? && ReadElement(s).value.0 == data && !HasOpcode(data)
    ensures |Push(data)| <= ReadElement(s).value.1
  {
    hide LeBytes, LeValue;
    if s[0] <= 75 {
      LeValueOne(s[0..1]);
    } else if s[0] == OP_PUSHDATA1 {
      LeValueOne(s[1..2]);
    }
  }

  /** The opcode for 5 is one byte, and the push of it two. */
  lemma FiveIsPushedLong()
    ensures ReadElement([0x55]) == Some(([5], 1)) && Push([5]) == [0x01, 0x05]
  {
    assert OpcodeFor([5]) == 0x55;
    OpcodeIsShorter([5]);
  }

  /** BIP 34: whatever follows the prefix, the first element read is the height. */
  lemma HeightReadsBack(height: u32, tail: seq<byte>)
    ensures ReadElement(BlockHeight(height) + tail) == Some((ScriptNumber(height), |BlockHeight(height)|))
    ensures ReadScriptNumber(ScriptNumber(height)) == height && 1 <= |BlockHeight(height)| <= 6
  {
    hide ReadScriptNumber, ScriptNumber, LeValue;
    ScriptNumberReadsBack(height, []);
    if height > 16 {
      PushReadsBack(ScriptNumber(height), tail);
    } else {
      SmallNumber(height);
      if height == 0 {
        PushReadsBack([], tail);
        assert Push([]) == BlockHeight(0);
      }
    }
  }

  lemma SmallNumber(height: u32)
    requires height <= 16
    ensures ScriptNumber(height) == if height == 0 then [] else [height]
  {
    assert MinimalLe(0) == [];
    if height > 0 {
      assert height as nat % 256 == height && height as nat / 256 == 0;
      assert MinimalLe(height) == [height] + MinimalLe(0);
    }
  }

  /** The height prefix, with its own opcodes for 1 to 16, is never longer than another that reads as the same element. */
  lemma HeightIsShortest(height: u32, s: seq<byte>)
    requires ReadElement(s).Some? && ReadElement(s).value.0 == ScriptNumber(height)
    ensures |BlockHeight(height)| <= ReadElement(s).value.1
  {
    if height > 16 {
      hide ReadElement, ScriptNumber;
      var number := ScriptNumber(height);
      ScriptNumberReadsBack(height, []);
      if |number| == 1 { LeValueOne(number); }
      assert Pow256(0) == 1;
      PushIsShortest(number);
    }
  }

  function PushAll(items: seq<element>): (s: seq<byte>)
  {
    if items == [] then [] else Push(items[0]) + PushAll(items[1..])
  }

  lemma {:induction false} PushAllReadsBack(items: seq<element>)
    ensures ReadScript(PushAll(items)) == Some(items)
  {
    hide Push, ReadElement;
    if items == [] {
    } else {
      var rest := PushAll(items[1..]);
      var s := Push(items[0]) + rest;
      PushReadsBack(items[0], rest);
      assert s[|Push(items[0])|..] == rest;
      PushAllReadsBack(items[1..]);
      assert [items[0]] + items[1..] == items;
    }
  }

  /** Arbitrary bytes pushed after the height are never read as opcodes: the script is its height and exactly its pushes. */
  lemma HeightThenPushes(height: u32, items: seq<element>)
    ensures ReadScript(BlockHeight(height) + PushAll(items)) == Some([ScriptNumber(height)] + items)
  {
    hide BlockHeight, ReadElement, PushAll;
    var prefix, rest := BlockHeight(height), PushAll(items);
    HeightReadsBack(height, rest);
    PushAllReadsBack(items);
    assert (prefix + rest)[|prefix|..] == rest;
  }
}

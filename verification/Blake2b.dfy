/** The portable BLAKE2b: mixing, compression and the block loop (sections 2 and 3 of RFC 7693). */
module Blake2b {
  import opened Bytes

  type word = bv64

  /** An index into the sixteen working words or the sixteen message words. */
  type lane = i: int | 0 <= i < 16

  type row = s: seq<lane> | |s| == 16 witness seq(16, i => 0)

  const BLOCK_BYTES: nat := 128

  const ROUNDS: nat := 12

  function IV(): (iv: seq<word>)
    ensures |iv| == 8
  {
    [0x6a09_e667_f3bc_c908, 0xbb67_ae85_84ca_a73b, 0x3c6e_f372_fe94_f82b, 0xa54f_f53a_5f1d_36f1,
     0x510e_527f_ade6_82d1, 0x9b05_688c_2b3e_6c1f, 0x1f83_d9ab_fb41_bd6b, 0x5be0_cd19_137e_2179]
  }

  const SIGMA: seq<row> :=
    [ [0, 1, 2, 3, 4, 5, 6, 7, 8, 9, 10, 11, 12, 13, 14, 15],
      [14, 10, 4, 8, 9, 15, 13, 6, 1, 12, 0, 2, 11, 7, 5, 3],
      [11, 8, 12, 0, 5, 2, 15, 13, 10, 14, 3, 6, 7, 1, 9, 4],
      [7, 9, 3, 1, 13, 12, 11, 14, 2, 6, 5, 10, 4, 0, 15, 8],
      [9, 0, 5, 7, 2, 4, 10, 15, 14, 1, 11, 12, 6, 8, 3, 13],
      [2, 12, 6, 10, 0, 11, 8, 3, 4, 13, 7, 5, 15, 14, 1, 9],
      [12, 5, 1, 15, 14, 13, 4, 10, 0, 7, 6, 3, 9, 2, 8, 11],
      [13, 11, 7, 14, 12, 1, 3, 9, 5, 0, 15, 4, 8, 6, 2, 10],
      [6, 15, 14, 9, 11, 3, 0, 8, 12, 2, 13, 7, 1, 4, 10, 5],
      [10, 2, 8, 4, 7, 6, 1, 5, 15, 11, 9, 14, 3, 12, 13, 0] ]

  /** Every round reads every message word, sixteen in sixteen reads; its columns touch every working word, and so do its diagonals. */
  lemma RoundsUseEverything(r: nat, i: lane)
    requires r < |SIGMA|
    ensures |SIGMA| == 10 && i in SIGMA[r] && i in Lanes(0) && i in Lanes(4)
  {
    assert SIGMA[r] in SIGMA;
  }

  /** The working words four consecutive mixes touch, in order. */
  function Lanes(first: nat): (lanes: row)
    requires first <= 4
  {
    var q := QUADS[first..first + 4];
    [q[0].a, q[0].b, q[0].c, q[0].d, q[1].a, q[1].b, q[1].c, q[1].d, q[2].a, q[2].b, q[2].c, q[2].d, q[3].a, q[3].b, q[3].c, q[3].d]
  }

  // ----- words -----

  function Add(a: word, b: word): word { a + b }

  function Sub(a: word, b: word): word { a - b }

  function XorWord(a: word, b: word): word { a ^ b }

  function NotWord(a: word): word { !a }

  /** The four rotation distances of the mixing function. */
  datatype Distance = R32 | R24 | R16 | R63

  function XorRotate(d: word, a: word, r: Distance): word
  {
    match r
    case R32 => (d ^ a).RotateRight(32)
    case R24 => (d ^ a).RotateRight(24)
    case R16 => (d ^ a).RotateRight(16)
    case R63 => (d ^ a).RotateRight(63)
  }

  function RotateXor(d: word, a: word, r: Distance): word
  {
    match r
    case R32 => d.RotateLeft(32) ^ a
    case R24 => d.RotateLeft(24) ^ a
    case R16 => d.RotateLeft(16) ^ a
    case R63 => d.RotateLeft(63) ^ a
  }

  lemma SumIsAdd(a: word, b: word)
    ensures Add(a, b) == a + b
  {
  }

  lemma DifferenceIsSub(a: word, b: word)
    ensures Sub(a, b) == a - b
  {
  }

  /** Unfolding only the outer function leaves an identity the bit-vector rewriter closes. */
  lemma UndoPlain(a: word, b: word)
    ensures Sub(a + b, b) == a && Add(a - b, b) == a
  {
  }

  lemma AddSub(a: word, b: word)
    ensures Sub(Add(a, b), b) == a && Add(Sub(a, b), b) == a
  {
    hide Add, Sub;
    SumIsAdd(a, b);
    DifferenceIsSub(a, b);
    UndoPlain(a, b);
  }

  /** Unfolding only the outer function leaves an identity the bit-vector rewriter closes. */
  lemma RotateInversePlain(d: word, a: word)
    ensures RotateXor((d ^ a).RotateRight(32), a, R32) == d && XorRotate(d.RotateLeft(32) ^ a, a, R32) == d
    ensures RotateXor((d ^ a).RotateRight(24), a, R24) == d && XorRotate(d.RotateLeft(24) ^ a, a, R24) == d
    ensures RotateXor((d ^ a).RotateRight(16), a, R16) == d && XorRotate(d.RotateLeft(16) ^ a, a, R16) == d
    ensures RotateXor((d ^ a).RotateRight(63), a, R63) == d && XorRotate(d.RotateLeft(63) ^ a, a, R63) == d
  {
  }

  lemma RotateInverse(d: word, a: word, r: Distance)
    ensures RotateXor(XorRotate(d, a, r), a, r) == d && XorRotate(RotateXor(d, a, r), a, r) == d
  {
    RotateInversePlain(d, a);
    match r {
      case R32 =>
        assert XorRotate(d, a, R32) == (d ^ a).RotateRight(32) && RotateXor(d, a, R32) == d.RotateLeft(32) ^ a;
      case R24 =>
        assert XorRotate(d, a, R24) == (d ^ a).RotateRight(24) && RotateXor(d, a, R24) == d.RotateLeft(24) ^ a;
      case R16 =>
        assert XorRotate(d, a, R16) == (d ^ a).RotateRight(16) && RotateXor(d, a, R16) == d.RotateLeft(16) ^ a;
      case R63 =>
        assert XorRotate(d, a, R63) == (d ^ a).RotateRight(63) && RotateXor(d, a, R63) == d.RotateLeft(63) ^ a;
    }
  }

  // ----- mixing, as updates of one word at a time -----

  function AddAt(v: seq<word>, i: nat, x: word): (w: seq<word>)
    requires i < |v|
    ensures |w| == |v|
  {
    v[i := Add(v[i], x)]
  }

  function SubAt(v: seq<word>, i: nat, x: word): (w: seq<word>)
    requires i < |v|
    ensures |w| == |v|
  {
    v[i := Sub(v[i], x)]
  }

  function XorRotateAt(v: seq<word>, i: nat, x: word, r: Distance): (w: seq<word>)
    requires i < |v|
    ensures |w| == |v|
  {
    v[i := XorRotate(v[i], x, r)]
  }

  function RotateXorAt(v: seq<word>, i: nat, x: word, r: Distance): (w: seq<word>)
    requires i < |v|
    ensures |w| == |v|
  {
    v[i := RotateXor(v[i], x, r)]
  }

  lemma AddAtInverse(v: seq<word>, i: nat, x: word)
    requires i < |v|
    ensures SubAt(AddAt(v, i, x), i, x) == v && AddAt(SubAt(v, i, x), i, x) == v
  {
    hide Add, Sub;
    AddSub(v[i], x);
    WrittenBack(v, i, Add(v[i], x));
    WrittenBack(v, i, Sub(v[i], x));
  }

  lemma WrittenBack<T>(v: seq<T>, i: nat, x: T)
    requires i < |v|
    ensures v[i := x][i] == x && v[i := x][i := v[i]] == v
  {
  }

  lemma XorRotateAtInverse(v: seq<word>, i: nat, x: word, r: Distance)
    requires i < |v|
    ensures RotateXorAt(XorRotateAt(v, i, x, r), i, x, r) == v && XorRotateAt(RotateXorAt(v, i, x, r), i, x, r) == v
  {
    hide XorRotate, RotateXor;
    RotateInverse(v[i], x, r);
    WrittenBack(v, i, XorRotate(v[i], x, r));
    WrittenBack(v, i, RotateXor(v[i], x, r));
  }

  predicate Distinct(a: lane, b: lane, c: lane, d: lane)
  {
    a != b && a != c && a != d && b != c && b != d && c != d
  }

  /** Half of `G`: one message word, two rotations. */
  function Half(v: seq<word>, a: lane, b: lane, c: lane, d: lane, x: word, r: Distance, s: Distance): (w: seq<word>)
    requires |v| == 16
    ensures |w| == 16
  {
    var v1 := AddAt(AddAt(v, a, v[b]), a, x);
    var v2 := XorRotateAt(v1, d, v1[a], r);
    var v3 := AddAt(v2, c, v2[d]);
    XorRotateAt(v3, b, v3[c], s)
  }

  function Unhalf(v: seq<word>, a: lane, b: lane, c: lane, d: lane, x: word, r: Distance, s: Distance): (w: seq<word>)
    requires |v| == 16
    ensures |w| == 16
  {
    var v3 := RotateXorAt(v, b, v[c], s);
    var v2 := SubAt(v3, c, v3[d]);
    var v1 := RotateXorAt(v2, d, v2[a], r);
    var v0 := SubAt(v1, a, x);
    SubAt(v0, a, v0[b])
  }

  lemma UnhalfHalf(v: seq<word>, a: lane, b: lane, c: lane, d: lane, x: word, r: Distance, s: Distance)
    requires |v| == 16 && Distinct(a, b, c, d)
    ensures Unhalf(Half(v, a, b, c, d, x, r, s), a, b, c, d, x, r, s) == v
  {
    hide Add, Sub, XorRotate, RotateXor;
    var v0 := AddAt(v, a, v[b]);
    var v1 := AddAt(v0, a, x);
    var v2 := XorRotateAt(v1, d, v1[a], r);
    var v3 := AddAt(v2, c, v2[d]);
    XorRotateAtInverse(v3, b, v3[c], s);
    AddAtInverse(v2, c, v2[d]);
    XorRotateAtInverse(v1, d, v1[a], r);
    AddAtInverse(v0, a, x);
    AddAtInverse(v, a, v[b]);
  }

  lemma HalfUnhalf(v: seq<word>, a: lane, b: lane, c: lane, d: lane, x: word, r: Distance, s: Distance)
    requires |v| == 16 && Distinct(a, b, c, d)
    ensures Half(Unhalf(v, a, b, c, d, x, r, s), a, b, c, d, x, r, s) == v
  {
    hide Add, Sub, XorRotate, RotateXor;
    var v3 := RotateXorAt(v, b, v[c], s);
    var v2 := SubAt(v3, c, v3[d]);
    var v1 := RotateXorAt(v2, d, v2[a], r);
    var v0 := SubAt(v1, a, x);
    AddAtInverse(v0, a, v0[b]);
    AddAtInverse(v1, a, x);
    XorRotateAtInverse(v2, d, v2[a], r);
    AddAtInverse(v3, c, v3[d]);
    XorRotateAtInverse(v, b, v[c], s);
  }

  /** The mixing function `G` (section 3.1 of RFC 7693). */
  function Mixed(v: seq<word>, a: lane, b: lane, c: lane, d: lane, x: word, y: word): (w: seq<word>)
    requires |v| == 16
    ensures |w| == 16
  {
    Half(Half(v, a, b, c, d, x, R32, R24), a, b, c, d, y, R16, R63)
  }

  function Unmixed(v: seq<word>, a: lane, b: lane, c: lane, d: lane, x: word, y: word): (w: seq<word>)
    requires |v| == 16
    ensures |w| == 16
  {
    Unhalf(Unhalf(v, a, b, c, d, y, R16, R63), a, b, c, d, x, R32, R24)
  }

  lemma MixInverse(v: seq<word>, a: lane, b: lane, c: lane, d: lane, x: word, y: word)
    requires |v| == 16 && Distinct(a, b, c, d)
    ensures Unmixed(Mixed(v, a, b, c, d, x, y), a, b, c, d, x, y) == v
    ensures Mixed(Unmixed(v, a, b, c, d, x, y), a, b, c, d, x, y) == v
  {
    hide Half, Unhalf;
    UnhalfHalf(v, a, b, c, d, x, R32, R24);
    UnhalfHalf(Half(v, a, b, c, d, x, R32, R24), a, b, c, d, y, R16, R63);
    HalfUnhalf(v, a, b, c, d, y, R16, R63);
    HalfUnhalf(Unhalf(v, a, b, c, d, y, R16, R63), a, b, c, d, x, R32, R24);
  }

  method AddInto(v: array<word>, i: nat, x: word)
    requires i < v.Length
    modifies v
    ensures v[..] == AddAt(old(v[..]), i, x)
  {
    hide Add;
    v[i] := Add(v[i], x);
  }

  method XorRotateInto(v: array<word>, i: nat, x: word, r: Distance)
    requires i < v.Length
    modifies v
    ensures v[..] == XorRotateAt(old(v[..]), i, x, r)
  {
    hide XorRotate;
    v[i] := XorRotate(v[i], x, r);
  }

  /** Mixes two message words into four working words, in place. */
  method Mix(v: array<word>, a: lane, b: lane, c: lane, d: lane, x: word, y: word)
    requires v.Length == 16
    modifies v
    ensures v[..] == Mixed(old(v[..]), a, b, c, d, x, y)
  {
    hide AddAt, XorRotateAt;
    AddInto(v, a, v[b]);
    AddInto(v, a, x);
    XorRotateInto(v, d, v[a], R32);
    AddInto(v, c, v[d]);
    XorRotateInto(v, b, v[c], R24);
    AddInto(v, a, v[b]);
    AddInto(v, a, y);
    XorRotateInto(v, d, v[a], R16);
    AddInto(v, c, v[d]);
    XorRotateInto(v, b, v[c], R63);
  }

  // ----- rounds -----

  datatype Quad = Quad(a: lane, b: lane, c: lane, d: lane)

  /** Four columns, then four diagonals. */
  const QUADS: seq<Quad> :=
    [ Quad(0, 4, 8, 12), Quad(1, 5, 9, 13), Quad(2, 6, 10, 14), Quad(3, 7, 11, 15),
      Quad(0, 5, 10, 15), Quad(1, 6, 11, 12), Quad(2, 7, 8, 13), Quad(3, 4, 9, 14) ]

  /** The first `k` mixes of a round whose message order is `s`. */
  function Mixes(v: seq<word>, m: seq<word>, s: row, k: nat): (w: seq<word>)
    requires |v| == |m| == 16 && k <= 8
    ensures |w| == 16
  {
    if k == 0 then v
    else var q := QUADS[k - 1]; Mixed(Mixes(v, m, s, k - 1), q.a, q.b, q.c, q.d, m[s[2 * k - 2]], m[s[2 * k - 1]])
  }

  function Unmixes(v: seq<word>, m: seq<word>, s: row, k: nat): (w: seq<word>)
    requires |v| == |m| == 16 && k <= 8
    ensures |w| == 16
    decreases k
  {
    if k == 0 then v
    else var q := QUADS[k - 1]; Unmixes(Unmixed(v, q.a, q.b, q.c, q.d, m[s[2 * k - 2]], m[s[2 * k - 1]]), m, s, k - 1)
  }

  lemma {:induction false} MixesInverse(v: seq<word>, m: seq<word>, s: row, k: nat)
    requires |v| == |m| == 16 && k <= 8
    ensures Unmixes(Mixes(v, m, s, k), m, s, k) == v
    ensures Mixes(Unmixes(v, m, s, k), m, s, k) == v
    decreases k
  {
    hide Mixed, Unmixed;
    if k > 0 {
      var q := QUADS[k - 1];
      var x, y := m[s[2 * k - 2]], m[s[2 * k - 1]];
      assert Distinct(q.a, q.b, q.c, q.d);
      MixInverse(Mixes(v, m, s, k - 1), q.a, q.b, q.c, q.d, x, y);
      MixesInverse(v, m, s, k - 1);
      MixInverse(v, q.a, q.b, q.c, q.d, x, y);
      MixesInverse(Unmixed(v, q.a, q.b, q.c, q.d, x, y), m, s, k - 1);
    }
  }

  /** The first `n` rounds; rounds 10 and 11 reuse rows 0 and 1. */
  function Rounds(v: seq<word>, m: seq<word>, n: nat): (w: seq<word>)
    requires |v| == |m| == 16
    ensures |w| == 16
  {
    if n == 0 then v else Mixes(Rounds(v, m, n - 1), m, SIGMA[(n - 1) % 10], 8)
  }

  function Unrounds(v: seq<word>, m: seq<word>, n: nat): (w: seq<word>)
    requires |v| == |m| == 16
    ensures |w| == 16
    decreases n
  {
    if n == 0 then v else Unrounds(Unmixes(v, m, SIGMA[(n - 1) % 10], 8), m, n - 1)
  }

  /** Before the feed-forward the rounds are a bijection of the working words, for any message words. */
  lemma {:induction false} RoundsReversible(v: seq<word>, m: seq<word>, n: nat)
    requires |v| == |m| == 16
    ensures Unrounds(Rounds(v, m, n), m, n) == v
    ensures Rounds(Unrounds(v, m, n), m, n) == v
    decreases n
  {
    hide Mixes, Unmixes;
    if n > 0 {
      var s := SIGMA[(n - 1) % 10];
      MixesInverse(Rounds(v, m, n - 1), m, s, 8);
      RoundsReversible(v, m, n - 1);
      MixesInverse(v, m, s, 8);
      RoundsReversible(Unmixes(v, m, s, 8), m, n - 1);
    }
  }

  // ----- compression -----

  /** The eight bits of a byte. */
  function Bits(b: byte): bv8 { b as bv8 }

  /** The byte eight bits spell. */
  function Octet(x: bv8): byte { x as int }

  function Join(a: bv8, b: bv8, c: bv8, d: bv8, e: bv8, f: bv8, g: bv8, h: bv8): word
  {
    a as bv64 | (b as bv64 << 8) | (c as bv64 << 16) | (d as bv64 << 24)
    | (e as bv64 << 32) | (f as bv64 << 40) | (g as bv64 << 48) | (h as bv64 << 56)
  }

  /** `from_le_bytes`. */
  function LeWord(b: seq<byte>): word
    requires |b| == 8
  {
    Join(Bits(b[0]), Bits(b[1]), Bits(b[2]), Bits(b[3]), Bits(b[4]), Bits(b[5]), Bits(b[6]), Bits(b[7]))
  }

  /** `to_le_bytes`. */
  function WordBytes(w: word): (s: seq<byte>)
    ensures |s| == 8
  {
    [Octet((w & 0xFF) as bv8), Octet(((w >> 8) & 0xFF) as bv8), Octet(((w >> 16) & 0xFF) as bv8), Octet(((w >> 24) & 0xFF) as bv8),
     Octet(((w >> 32) & 0xFF) as bv8), Octet(((w >> 40) & 0xFF) as bv8), Octet(((w >> 48) & 0xFF) as bv8), Octet(((w >> 56) & 0xFF) as bv8)]
  }

  lemma BytePlain(b: byte)
    ensures b as bv64 == (b as bv8) as bv64 && (b as bv8) as int == b
  {
  }

  lemma ByteOfBits(b: byte)
    ensures Octet(Bits(b)) == b
  {
    BytePlain(b);
  }

  lemma JoinedBytes(a: bv8, b: bv8, c: bv8, d: bv8, e: bv8, f: bv8, g: bv8, h: bv8)
    ensures
      var w := Join(a, b, c, d, e, f, g, h);
      && (w & 0xFF) as bv8 == a && ((w >> 8) & 0xFF) as bv8 == b && ((w >> 16) & 0xFF) as bv8 == c && ((w >> 24) & 0xFF) as bv8 == d
      && ((w >> 32) & 0xFF) as bv8 == e && ((w >> 40) & 0xFF) as bv8 == f && ((w >> 48) & 0xFF) as bv8 == g && ((w >> 56) & 0xFF) as bv8 == h
  {
  }

  lemma SplitBytes(w: word, a: bv8, b: bv8, c: bv8, d: bv8, e: bv8, f: bv8, g: bv8, h: bv8)
    requires (w & 0xFF) as bv8 == a && ((w >> 8) & 0xFF) as bv8 == b && ((w >> 16) & 0xFF) as bv8 == c && ((w >> 24) & 0xFF) as bv8 == d
    requires ((w >> 32) & 0xFF) as bv8 == e && ((w >> 40) & 0xFF) as bv8 == f && ((w >> 48) & 0xFF) as bv8 == g && ((w >> 56) & 0xFF) as bv8 == h
    ensures WordBytes(w) == [Octet(a), Octet(b), Octet(c), Octet(d), Octet(e), Octet(f), Octet(g), Octet(h)]
  {
  }

  /** Reading eight bytes as a word loses nothing. */
  lemma WordBytesOfLeWord(b: seq<byte>)
    requires |b| == 8
    ensures WordBytes(LeWord(b)) == b
  {
    hide Join, WordBytes, Bits, Octet;
    ByteOfBits(b[0]);
    ByteOfBits(b[1]);
    ByteOfBits(b[2]);
    ByteOfBits(b[3]);
    ByteOfBits(b[4]);
    ByteOfBits(b[5]);
    ByteOfBits(b[6]);
    ByteOfBits(b[7]);
    JoinedBytes(Bits(b[0]), Bits(b[1]), Bits(b[2]), Bits(b[3]), Bits(b[4]), Bits(b[5]), Bits(b[6]), Bits(b[7]));
    SplitBytes(LeWord(b), Bits(b[0]), Bits(b[1]), Bits(b[2]), Bits(b[3]), Bits(b[4]), Bits(b[5]), Bits(b[6]), Bits(b[7]));
    EightOf(b);
  }

  lemma EightOf<T>(s: seq<T>)
    requires |s| == 8
    ensures s == [s[0], s[1], s[2], s[3], s[4], s[5], s[6], s[7]]
  {
  }

  function MessageWords(block: seq<byte>, n: nat): (m: seq<word>)
    requires |block| == BLOCK_BYTES && n <= 16
    ensures |m| == n
  {
    if n == 0 then [] else MessageWords(block, n - 1) + [LeWord(block[8 * n - 8..8 * n])]
  }

  /** `as u64`: the low eight bytes of a number. */
  function LowWord(n: nat): word { LeWord(LeBytes(n, 8)) }

  /** The state and the IV, with the byte counter and the final flag folded in. */
  function WorkingWords(state: seq<word>, counter: nat, last: bool): (v: seq<word>)
    requires |state| == 8
    ensures |v| == 16
  {
    var v := state + IV();
    var v := v[12 := XorWord(v[12], LowWord(counter))];
    var v := v[13 := XorWord(v[13], LowWord(counter / TWO_64))];
    if last then v[14 := NotWord(v[14])] else v
  }

  function FeedForward(state: seq<word>, v: seq<word>, n: nat): (r: seq<word>)
    requires |state| == 8 && |v| == 16 && n <= 8
    ensures |r| == 8
  {
    if n == 0 then state
    else var r := FeedForward(state, v, n - 1); r[n - 1 := XorWord(r[n - 1], XorWord(v[n - 1], v[n + 7]))]
  }

  function Compressed(state: seq<word>, block: seq<byte>, counter: nat, last: bool): (r: seq<word>)
    requires |state| == 8 && |block| == BLOCK_BYTES
    ensures |r| == 8
  {
    FeedForward(state, Rounds(WorkingWords(state, counter, last), MessageWords(block, 16), ROUNDS), 8)
  }

  method ReadWords(block: seq<byte>) returns (m: array<word>)
    requires |block| == BLOCK_BYTES
    ensures fresh(m) && m[..] == MessageWords(block, 16)
  {
    hide LeWord;
    m := new word[16](i => 0);
    for i := 0 to 16
      invariant m[..i] == MessageWords(block, i)
    {
      m[i] := LeWord(block[8 * i..8 * i + 8]);
      TakeStep(m[..], i);
    }
    assert m[..] == m[..16];
  }

  method LoadWorking(state: array<word>, counter: nat, last: bool) returns (v: array<word>)
    requires state.Length == 8
    ensures fresh(v) && v[..] == WorkingWords(state[..], counter, last)
  {
    hide XorWord, NotWord, LowWord;
    var iv := IV();
    ghost var start := state[..] + iv;
    v := new word[16](i requires 0 <= i < 16 reads state => if i < 8 then state[i] else iv[i - 8]);
    assert v[..] == start;
    v[12] := XorWord(v[12], LowWord(counter));
    v[13] := XorWord(v[13], LowWord(counter / TWO_64));
    if last {
      v[14] := NotWord(v[14]);
    }
  }

  method RunRound(v: array<word>, m: seq<word>, s: row)
    requires v.Length == 16 == |m|
    modifies v
    ensures v[..] == Mixes(old(v[..]), m, s, 8)
  {
    hide Mixed, Mixes;
    ghost var start := v[..];
    QuadTable();
    MixesFirst(start, m, s);
    MixesStep(start, m, s, 0);
    Mix(v, 0, 4, 8, 12, m[s[0]], m[s[1]]);
    MixesStep(start, m, s, 1);
    Mix(v, 1, 5, 9, 13, m[s[2]], m[s[3]]);
    MixesStep(start, m, s, 2);
    Mix(v, 2, 6, 10, 14, m[s[4]], m[s[5]]);
    MixesStep(start, m, s, 3);
    Mix(v, 3, 7, 11, 15, m[s[6]], m[s[7]]);
    MixesStep(start, m, s, 4);
    Mix(v, 0, 5, 10, 15, m[s[8]], m[s[9]]);
    MixesStep(start, m, s, 5);
    Mix(v, 1, 6, 11, 12, m[s[10]], m[s[11]]);
    MixesStep(start, m, s, 6);
    Mix(v, 2, 7, 8, 13, m[s[12]], m[s[13]]);
    MixesStep(start, m, s, 7);
    Mix(v, 3, 4, 9, 14, m[s[14]], m[s[15]]);
  }

  lemma QuadTable()
    ensures |QUADS| == 8
    ensures QUADS[0] == Quad(0, 4, 8, 12) && QUADS[1] == Quad(1, 5, 9, 13) && QUADS[2] == Quad(2, 6, 10, 14) && QUADS[3] == Quad(3, 7, 11, 15)
    ensures QUADS[4] == Quad(0, 5, 10, 15) && QUADS[5] == Quad(1, 6, 11, 12) && QUADS[6] == Quad(2, 7, 8, 13) && QUADS[7] == Quad(3, 4, 9, 14)
  {
  }

  lemma MixesFirst(v: seq<word>, m: seq<word>, s: row)
    requires |v| == |m| == 16
    ensures Mixes(v, m, s, 0) == v
  {
  }

  lemma MixesStep(v: seq<word>, m: seq<word>, s: row, k: nat)
    requires |v| == |m| == 16 && k < 8
    ensures var q := QUADS[k];
      Mixes(v, m, s, k + 1) == Mixed(Mixes(v, m, s, k), q.a, q.b, q.c, q.d, m[s[2 * k]], m[s[2 * k + 1]])
  {
    hide Mixed;
  }

  /** Absorbs one block into `state`, in place (section 3.2 of RFC 7693). */
  method Compress(state: array<word>, block: seq<byte>, counter: nat, last: bool)
    requires state.Length == 8 && |block| == BLOCK_BYTES
    modifies state
    ensures state[..] == Compressed(old(state[..]), block, counter, last)
  {
    hide Mixes, MessageWords, WorkingWords, XorWord;
    var m := ReadWords(block);
    var v := LoadWorking(state, counter, last);
    ghost var start := v[..];
    for r := 0 to ROUNDS
      invariant state[..] == old(state[..]) && m[..] == MessageWords(block, 16)
      invariant v[..] == Rounds(start, m[..], r)
    {
      RunRound(v, m[..], SIGMA[r % 10]);
    }
    for i := 0 to 8
      invariant v[..] == Rounds(start, MessageWords(block, 16), ROUNDS)
      invariant state[..] == FeedForward(old(state[..]), v[..], i)
    {
      state[i] := XorWord(state[i], XorWord(v[i], v[i + 8]));
    }
  }

  // ----- the block loop -----

  /** One call of the compression function. */
  datatype Call = Call(block: seq<byte>, counter: nat, last: bool)

  function BlockCount(len: nat): (n: nat)
    ensures n >= 1 && len <= BLOCK_BYTES * n
    ensures n > 1 ==> BLOCK_BYTES * (n - 1) < len
  {
    if len == 0 then 1 else (len + 127) / 128
  }

  function Min(a: nat, b: nat): nat { if a <= b then a else b }

  /** The i-th block, zero-padded, with the bytes counted so far and the final flag. */
  function CallAt(message: seq<byte>, i: nat): (c: Call)
    requires i < BlockCount(|message|)
    ensures |c.block| == BLOCK_BYTES
  {
    var end := Min(128 * (i + 1), |message|);
    var data := message[128 * i..end];
    Call(data + Zeros(128 - |data|), end, i == BlockCount(|message|) - 1)
  }

  function Calls(message: seq<byte>): (calls: seq<Call>)
    ensures |calls| == BlockCount(|message|)
    ensures forall i :: 0 <= i < |calls| ==> calls[i] == CallAt(message, i)
  {
    seq(BlockCount(|message|), i requires 0 <= i < BlockCount(|message|) => CallAt(message, i))
  }

  /** The state after the first `n` calls. */
  function Absorb(state: seq<word>, message: seq<byte>, n: nat): (r: seq<word>)
    requires |state| == 8 && n <= BlockCount(|message|)
    ensures |r| == 8
  {
    if n == 0 then state
    else var c := CallAt(message, n - 1); Compressed(Absorb(state, message, n - 1), c.block, c.counter, c.last)
  }

  /** Counters never pass the length, exactly the final call is flagged, and no blocks are skipped. */
  lemma CallShape(message: seq<byte>, i: nat)
    requires i < |Calls(message)|
    ensures Calls(message)[i].counter == Min(128 * (i + 1), |message|)
    ensures Calls(message)[i].last <==> i == |Calls(message)| - 1
    ensures Calls(message)[i].last ==> Calls(message)[i].counter == |message|
    ensures forall k :: 128 * i <= k < Min(128 * (i + 1), |message|) ==> message[k] == Calls(message)[i].block[k - 128 * i]
  {
  }

  /** Framing is unambiguous and prefix-free: no call sequence even begins another message's. */
  lemma FramingPrefixFree(a: seq<byte>, b: seq<byte>)
    requires Calls(a) <= Calls(b)
    ensures a == b
  {
    var n := |Calls(a)|;
    assert Calls(b)[n - 1] == Calls(a)[n - 1];
    CallShape(a, n - 1);
    CallShape(b, n - 1);
    assert |a| == |b|;
    forall k | 0 <= k < |a|
      ensures a[k] == b[k]
    {
      var i := k / 128;
      CallShape(a, i);
      CallShape(b, i);
      assert Calls(a)[i] == Calls(b)[i];
    }
  }

  function Parameter(digestSize: nat): word
    requires 1 <= digestSize <= 64
  {
    0x0101_0000 ^ Bits(digestSize) as bv64
  }

  /** The first word of the parameter block of an unkeyed, sequential hash: digest length, no key, fanout and depth of one. */
  lemma ParameterWord(digestSize: nat)
    requires 1 <= digestSize <= 64
    ensures LeWord([digestSize, 0, 1, 1, 0, 0, 0, 0]) == Parameter(digestSize)
  {
    assert Bits(0) == 0 && Bits(1) == 1;
    hide Bits;
    ParameterPlain(Bits(digestSize));
  }

  lemma ParameterPlain(b: bv8)
    ensures Join(b, 0, 1, 1, 0, 0, 0, 0) == 0x0101_0000 ^ b as bv64
  {
  }

  /** The IV with the parameter block of an unkeyed, sequential hash folded in. */
  function InitialState(digestSize: nat): (s: seq<word>)
    requires 1 <= digestSize <= 64
    ensures |s| == 8
  {
    var iv := IV(); iv[0 := XorWord(iv[0], Parameter(digestSize))]
  }

  // ----- what the rounds are handed -----

  lemma {:induction false} MessageWordsInjective(a: seq<byte>, b: seq<byte>, n: nat)
    requires |a| == |b| == BLOCK_BYTES && n <= 16 && MessageWords(a, n) == MessageWords(b, n)
    ensures a[..8 * n] == b[..8 * n]
  {
    hide LeWord, WordBytes;
    if n > 0 {
      var x, y := a[8 * n - 8..8 * n], b[8 * n - 8..8 * n];
      assert MessageWords(a, n)[..n - 1] == MessageWords(a, n - 1) && MessageWords(b, n)[..n - 1] == MessageWords(b, n - 1);
      assert MessageWords(a, n)[n - 1] == LeWord(x) && MessageWords(b, n)[n - 1] == LeWord(y);
      MessageWordsInjective(a, b, n - 1);
      WordBytesOfLeWord(x);
      WordBytesOfLeWord(y);
      assert a[..8 * n] == a[..8 * n - 8] + x && b[..8 * n] == b[..8 * n - 8] + y;
    }
  }

  lemma LowWordBinds(m: nat, n: nat)
    ensures LowWord(m) == LowWord(n) <==> m % TWO_64 == n % TWO_64
  {
    hide LeWord, WordBytes, LeBytes;
    Pow256Widths();
    LeBytesDrop(m, 8);
    LeBytesDrop(n, 8);
    if LowWord(m) == LowWord(n) {
      WordBytesOfLeWord(LeBytes(m, 8));
      WordBytesOfLeWord(LeBytes(n, 8));
      LeBytesInjective(m % TWO_64, n % TWO_64, 8);
    }
  }

  const TWO_128: nat := TWO_64 * TWO_64

  lemma BothHalves(m: nat, n: nat)
    ensures m % TWO_128 == n % TWO_128 <==> m % TWO_64 == n % TWO_64 && m / TWO_64 % TWO_64 == n / TWO_64 % TWO_64
  {
    Halves(m);
    Halves(n);
  }

  lemma Halves(n: nat)
    ensures n % TWO_128 == n % TWO_64 + TWO_64 * (n / TWO_64 % TWO_64)
  {
    var q, r := n / TWO_64, n % TWO_64;
    DivUnique(n, TWO_128, q / TWO_64, r + TWO_64 * (q % TWO_64));
  }

  lemma XorWordBinds(a: word, x: word, y: word)
    ensures XorWord(a, x) == XorWord(a, y) <==> x == y
  {
    assert x != y ==> a ^ x != a ^ y;
  }

  lemma NotWordDiffers(a: word)
    ensures NotWord(a) != a
  {
  }

  /** From one state the rounds start alike exactly when the counters agree in 128 bits and the final flags agree. */
  lemma WorkingWordsBind(state: seq<word>, other: seq<word>, c: nat, d: nat, last: bool, end: bool)
    requires |state| == |other| == 8
    ensures WorkingWords(state, c, last) == WorkingWords(other, d, end) <==> state == other && c % TWO_128 == d % TWO_128 && last == end
  {
    hide XorWord, NotWord, LowWord, IV;
    var v, w := WorkingWords(state, c, last), WorkingWords(other, d, end);
    var iv := IV();
    XorWordBinds(iv[4], LowWord(c), LowWord(d));
    XorWordBinds(iv[5], LowWord(c / TWO_64), LowWord(d / TWO_64));
    LowWordBinds(c, d);
    LowWordBinds(c / TWO_64, d / TWO_64);
    BothHalves(c, d);
    NotWordDiffers(iv[6]);
    assert v[..8] == state && w[..8] == other;
    assert v[12] == XorWord(iv[4], LowWord(c)) && w[12] == XorWord(iv[4], LowWord(d));
    assert v[13] == XorWord(iv[5], LowWord(c / TWO_64)) && w[13] == XorWord(iv[5], LowWord(d / TWO_64));
    assert v[14] == (if last then NotWord(iv[6]) else iv[6]) && w[14] == if end then NotWord(iv[6]) else iv[6];
  }

  /** The message words and the working words of each call, as `Rounds` gets them. */
  function Handed(message: seq<byte>, digestSize: nat): (h: seq<(seq<word>, seq<word>)>)
    requires 1 <= digestSize <= 64
    ensures |h| == BlockCount(|message|)
  {
    seq(BlockCount(|message|), i requires 0 <= i < BlockCount(|message|) => HandedAt(message, digestSize, i))
  }

  function HandedAt(message: seq<byte>, digestSize: nat, i: nat): (seq<word>, seq<word>)
    requires 1 <= digestSize <= 64 && i < BlockCount(|message|)
  {
    var c := CallAt(message, i);
    (MessageWords(c.block, 16), WorkingWords(Absorb(InitialState(digestSize), message, i), c.counter, c.last))
  }

  /** The state moves on by the rounds over just those words, fed forward. */
  lemma RoundsTakeHanded(message: seq<byte>, digestSize: nat, i: nat)
    requires 1 <= digestSize <= 64 && i < BlockCount(|message|)
    ensures var (s, h) := (Absorb(InitialState(digestSize), message, i), Handed(message, digestSize)[i]);
      |h.0| == |h.1| == 16 && Absorb(InitialState(digestSize), message, i + 1) == FeedForward(s, Rounds(h.1, h.0, ROUNDS), 8)
  {
    hide MessageWords, WorkingWords, Rounds, FeedForward, InitialState, CallAt;
  }

  lemma HandedBinds(a: seq<byte>, b: seq<byte>, m: nat, n: nat, i: nat)
    requires 1 <= m <= 64 && 1 <= n <= 64 && i < BlockCount(|a|) && i < BlockCount(|b|)
    requires HandedAt(a, m, i) == HandedAt(b, n, i)
    ensures var (c, d) := (CallAt(a, i), CallAt(b, i)); c.block == d.block && c.counter % TWO_128 == d.counter % TWO_128 && c.last == d.last
  {
    hide MessageWords, WorkingWords, InitialState, CallAt, Absorb;
    var c, d := CallAt(a, i), CallAt(b, i);
    MessageWordsInjective(c.block, d.block, 16);
    assert c.block[..128] == c.block && d.block[..128] == d.block;
    WorkingWordsBind(Absorb(InitialState(m), a, i), Absorb(InitialState(n), b, i), c.counter, d.counter, c.last, d.last);
  }

  /** What the rounds are handed determines the message: no message's words even begin another's. */
  lemma HandedPrefixFree(a: seq<byte>, b: seq<byte>, m: nat, n: nat)
    requires 1 <= m <= 64 && 1 <= n <= 64 && Handed(a, m) <= Handed(b, n)
    ensures a == b
  {
    hide HandedAt, CallAt;
    forall i | 0 <= i < |Handed(a, m)|
      ensures var (c, d) := (CallAt(a, i), CallAt(b, i)); c.block == d.block && c.counter % TWO_128 == d.counter % TWO_128 && c.last == d.last
    {
      assert Handed(a, m)[i] == Handed(b, n)[i];
      HandedBinds(a, b, m, n, i);
    }
    var k := |Handed(a, m)| - 1;
    LastCall(a, k);
    LastCall(b, k);
    SameCounter(|a|, |b|);
    assert Calls(a) == Calls(b) by {
      forall i | 0 <= i <= k
        ensures CallAt(a, i) == CallAt(b, i)
      {
        CounterAt(a, i);
        CounterAt(b, i);
      }
    }
    FramingPrefixFree(a, b);
  }

  lemma LastCall(message: seq<byte>, i: nat)
    requires i < BlockCount(|message|)
    ensures CallAt(message, i).last <==> i == BlockCount(|message|) - 1
    ensures CallAt(message, i).last ==> CallAt(message, i).counter == |message|
  {
  }

  lemma CounterAt(message: seq<byte>, i: nat)
    requires i < BlockCount(|message|)
    ensures CallAt(message, i).counter == Min(128 * (i + 1), |message|)
  {
  }

  /** Lengths that take as many blocks are too close to agree in 128 bits by accident. */
  lemma SameCounter(m: nat, n: nat)
    requires BlockCount(m) == BlockCount(n) && m % TWO_128 == n % TWO_128
    ensures m == n
  {
    var d := m / TWO_128 - n / TWO_128;
    assert m - n == TWO_128 * d;
    assert -128 <= m - n <= 128;
  }

  // ----- the digest -----

  function StateBytes(state: seq<word>, n: nat): (d: seq<byte>)
    requires n <= |state|
    ensures |d| == 8 * n
  {
    if n == 0 then [] else StateBytes(state, n - 1) + WordBytes(state[n - 1])
  }

  function Hash(message: seq<byte>, digestSize: nat): (digest: seq<byte>)
    requires 1 <= digestSize <= 64
    ensures |digest| == digestSize
  {
    StateBytes(Absorb(InitialState(digestSize), message, BlockCount(|message|)), 8)[..digestSize]
  }

  function Hash256(message: seq<byte>): (digest: seq<byte>)
    ensures |digest| == 32
  {
    Hash(message, 32)
  }

  method ComputeHash(message: seq<byte>, digestSize: nat) returns (digest: seq<byte>)
    requires 1 <= digestSize <= 64
    ensures digest == Hash(message, digestSize)
  {
    hide Compressed, InitialState, WordBytes;
    var start := InitialState(digestSize);
    var state := new word[8](i requires 0 <= i < 8 => start[i]);
    assert state[..] == start;
    var offset := 0;
    ghost var i := 0;
    while |message| - offset > BLOCK_BYTES
      invariant offset == 128 * i && i < BlockCount(|message|) && fresh(state)
      invariant state[..] == Absorb(start, message, i)
    {
      var block := message[offset..offset + BLOCK_BYTES];
      assert block + Zeros(0) == block;
      offset := offset + BLOCK_BYTES;
      Compress(state, block, offset, false);
      i := i + 1;
    }
    var finalBlock := new byte[BLOCK_BYTES](i => 0);
    var remaining := message[offset..];
    for k := 0 to |remaining|
      invariant fresh(finalBlock) && state[..] == Absorb(start, message, i)
      invariant finalBlock[..] == remaining[..k] + Zeros(BLOCK_BYTES - k)
    {
      finalBlock[k] := remaining[k];
    }
    assert finalBlock[..] == CallAt(message, i).block;
    Compress(state, finalBlock[..], |message|, true);
    var out := [];
    for k := 0 to 8
      invariant out == StateBytes(state[..], k)
    {
      out := out + WordBytes(state[k]);
    }
    digest := out[..digestSize];
  }
}

/**
  BLAKE2b as RFC 7693 states it: the mixing function on four words, the permutation table as it is
  printed in hexadecimal, and the compression function with its counter and final flag. The
  implementation is proved equal to it.
 */
module Rfc7693 {
  import opened Bytes
  import Blake2b

  /** A number modulo 2^64. */
  type word = bv64

  type lane = Blake2b.lane

  function Bits(b: byte): bv8 { b as bv8 }

  function Plus(a: word, b: word): word { a + b }

  function Xor64(a: word, b: word): word { a ^ b }

  // ----- section 3.1: mixing -----

  function Rotr32(x: word): word { (x >> 32) | (x << 32) }

  function Rotr24(x: word): word { (x >> 24) | (x << 40) }

  function Rotr16(x: word): word { (x >> 16) | (x << 48) }

  function Rotr63(x: word): word { (x >> 63) | (x << 1) }

  datatype Four = Four(a: word, b: word, c: word, d: word)

  function G(v: Four, x: word, y: word): Four
  {
    var a1 := Plus(Plus(v.a, v.b), x);
    var d1 := Rotr32(Xor64(v.d, a1));
    var c1 := Plus(v.c, d1);
    var b1 := Rotr24(Xor64(v.b, c1));
    var a2 := Plus(Plus(a1, b1), y);
    var d2 := Rotr16(Xor64(d1, a2));
    var c2 := Plus(c1, d2);
    Four(a2, Rotr63(Xor64(b1, c2)), c2, d2)
  }

  /** Four words of a sequence replaced. */
  function Put(v: seq<word>, i: lane, j: lane, k: lane, l: lane, g: Four): (w: seq<word>)
    requires |v| == 16
    ensures |w| == 16
  {
    v[i := g.a][j := g.b][k := g.c][l := g.d]
  }

  /** `G` on four of the sixteen words. */
  function GAt(v: seq<word>, i: lane, j: lane, k: lane, l: lane, x: word, y: word): (w: seq<word>)
    requires |v| == 16
    ensures |w| == 16
  {
    Put(v, i, j, k, l, G(Four(v[i], v[j], v[k], v[l]), x, y))
  }

  // ----- section 2.7: the message schedule -----

  function HexDigit(c: char): lane
  {
    if '0' <= c <= '9' then c as int - '0' as int else if 'a' <= c <= 'f' then c as int - 'a' as int + 10 else 0
  }

  function SigmaRow(r: nat): (row: string)
    requires r < 10
    ensures |row| == 16
  {
    match r
    case 0 => "0123456789abcdef"
    case 1 => "ea489fd61c02b753"
    case 2 => "b8c052fdae367194"
    case 3 => "7931dcbe265a40f8"
    case 4 => "905724afe1bc683d"
    case 5 => "2c6a0b834d75fe19"
    case 6 => "c51fed4a0763928b"
    case 7 => "db7ec13950f4862a"
    case 8 => "6fe9b308c2d714a5"
    case _ => "a2847615fb9e3cd0"
  }

  /** The message word the i-th place of a round reads. */
  function Pick(m: seq<word>, round: nat, i: nat): word
    requires |m| == 16 && i < 16
  {
    m[HexDigit(SigmaRow(round % 10)[i])]
  }

  // ----- section 3.2: compression -----

  /** One round: the columns, then the diagonals. */
  function Round(v0: seq<word>, m: seq<word>, r: nat): (w: seq<word>)
    requires |v0| == |m| == 16
    ensures |w| == 16
  {
    var v := GAt(v0, 0, 4, 8, 12, Pick(m, r, 0), Pick(m, r, 1));
    var v := GAt(v, 1, 5, 9, 13, Pick(m, r, 2), Pick(m, r, 3));
    var v := GAt(v, 2, 6, 10, 14, Pick(m, r, 4), Pick(m, r, 5));
    var v := GAt(v, 3, 7, 11, 15, Pick(m, r, 6), Pick(m, r, 7));
    var v := GAt(v, 0, 5, 10, 15, Pick(m, r, 8), Pick(m, r, 9));
    var v := GAt(v, 1, 6, 11, 12, Pick(m, r, 10), Pick(m, r, 11));
    var v := GAt(v, 2, 7, 8, 13, Pick(m, r, 12), Pick(m, r, 13));
    GAt(v, 3, 4, 9, 14, Pick(m, r, 14), Pick(m, r, 15))
  }

  function Rounds(v: seq<word>, m: seq<word>, n: nat): (w: seq<word>)
    requires |v| == |m| == 16
    ensures |w| == 16
  {
    if n == 0 then v else Round(Rounds(v, m, n - 1), m, n - 1)
  }

  /** Each byte pushes the ones after it up. */
  function Horner(a: bv8, b: bv8, c: bv8, d: bv8, e: bv8, f: bv8, g: bv8, h: bv8): word
  {
    (((((((((((((h as bv64 << 8) | g as bv64) << 8) | f as bv64) << 8) | e as bv64) << 8) | d as bv64) << 8) | c as bv64) << 8) | b as bv64) << 8)
    | a as bv64
  }

  /** Eight bytes as a number, least significant first. */
  function Number(b: seq<byte>): word
    requires |b| == 8
  {
    Horner(Bits(b[0]), Bits(b[1]), Bits(b[2]), Bits(b[3]), Bits(b[4]), Bits(b[5]), Bits(b[6]), Bits(b[7]))
  }

  /** What the rounds start from: the state, the IV, the counter's two halves, and every bit of a word turned over at the end. */
  function Start(h: seq<word>, t: nat, final: bool): (v: seq<word>)
    requires |h| == 8
    ensures |v| == 16
  {
    var iv := Blake2b.IV();
    h + iv[..4]
    + [Xor64(iv[4], Number(LeBytes(t % TWO_64, 8))), Xor64(iv[5], Number(LeBytes(t / TWO_64 % TWO_64, 8))),
       if final then Xor64(iv[6], 0xFFFF_FFFF_FFFF_FFFF) else iv[6], iv[7]]
  }

  function Words(block: seq<byte>): (m: seq<word>)
    requires |block| == 128
    ensures |m| == 16
  {
    seq(16, i requires 0 <= i < 16 => Number(block[8 * i..8 * i + 8]))
  }

  function F(h: seq<word>, block: seq<byte>, t: nat, final: bool): (r: seq<word>)
    requires |h| == 8 && |block| == 128
    ensures |r| == 8
  {
    Feed(h, Rounds(Start(h, t, final), Words(block), 12))
  }

  /** Both halves of the working words over the state. */
  function Feed(h: seq<word>, v: seq<word>): (r: seq<word>)
    requires |h| == 8 && |v| == 16
    ensures |r| == 8
  {
    seq(8, i requires 0 <= i < 8 => Xor64(Xor64(h[i], v[i]), v[i + 8]))
  }

  // ----- section 3.3: the hash -----

  /** How many blocks a message takes; an empty one still takes one. */
  function Blocks(len: nat): (dd: nat)
    ensures dd >= 1 && len <= 128 * dd
  {
    if len == 0 then 1 else (len + 127) / 128
  }

  function Padded(message: seq<byte>): (p: seq<byte>)
    ensures |p| == 128 * Blocks(|message|)
  {
    message + Zeros(128 * Blocks(|message|) - |message|)
  }

  /** The state after `n` blocks: each but the last counts whole blocks, and the last counts the message. */
  function State(message: seq<byte>, nn: nat, n: nat): (h: seq<word>)
    requires 1 <= nn <= 64 && n <= Blocks(|message|)
    ensures |h| == 8
  {
    if n == 0 then
      var iv := Blake2b.IV(); iv[0 := Xor64(iv[0], Number([nn, 0, 1, 1, 0, 0, 0, 0]))]
    else
      var last := n == Blocks(|message|);
      F(State(message, nn, n - 1), Padded(message)[128 * n - 128..128 * n], if last then |message| else 128 * n, last)
  }

  /** The bytes of a word, least significant first. */
  function Octets(w: word): (s: seq<byte>)
    ensures |s| == 8
  {
    [Octet(w % 0x100), Octet(w / 0x100 % 0x100), Octet(w / 0x1_0000 % 0x100), Octet(w / 0x100_0000 % 0x100),
     Octet(w / 0x1_0000_0000 % 0x100), Octet(w / 0x100_0000_0000 % 0x100),
     Octet(w / 0x1_0000_0000_0000 % 0x100), Octet(w / 0x100_0000_0000_0000 % 0x100)]
  }

  function Octet(w: word): byte
    requires w < 0x100
  {
    w as bv8 as int
  }

  function Hash(message: seq<byte>, nn: nat): (digest: seq<byte>)
    requires 1 <= nn <= 64
    ensures |digest| == nn
  {
    Front(State(message, nn, Blocks(|message|)), nn)
  }

  /** The first `nn` bytes of the state. */
  function Front(h: seq<word>, nn: nat): (digest: seq<byte>)
    requires |h| == 8 && nn <= 64
    ensures |digest| == nn
  {
    seq(nn, k requires 0 <= k < nn => Octets(h[k / 8])[k % 8])
  }

  // ----- the implementation meets it -----

  lemma PlusIsAdd(a: word, b: word)
    ensures Blake2b.Add(a, b) == Plus(a, b)
  {
  }

  /** Unfolding only the outer function leaves an identity the bit-vector rewriter closes. */
  lemma RotatePlain(d: word, a: word)
    ensures Rotr32(d ^ a) == (d ^ a).RotateRight(32) && Rotr24(d ^ a) == (d ^ a).RotateRight(24)
    ensures Rotr16(d ^ a) == (d ^ a).RotateRight(16) && Rotr63(d ^ a) == (d ^ a).RotateRight(63)
  {
  }

  lemma RotationsByShifts(d: word, a: word)
    ensures Blake2b.XorRotate(d, a, Blake2b.R32) == Rotr32(Xor64(d, a)) && Blake2b.XorRotate(d, a, Blake2b.R24) == Rotr24(Xor64(d, a))
    ensures Blake2b.XorRotate(d, a, Blake2b.R16) == Rotr16(Xor64(d, a)) && Blake2b.XorRotate(d, a, Blake2b.R63) == Rotr63(Xor64(d, a))
  {
    hide Rotr32, Rotr24, Rotr16, Rotr63;
    RotatePlain(d, a);
  }

  lemma PutTwice(v: seq<word>, i: lane, j: lane, k: lane, l: lane, f: Four, g: Four)
    requires |v| == 16 && Blake2b.Distinct(i, j, k, l)
    ensures var w := Put(v, i, j, k, l, f);
      w[i] == f.a && w[j] == f.b && w[k] == f.c && w[l] == f.d && Put(w, i, j, k, l, g) == Put(v, i, j, k, l, g)
  {
  }

  /** Half of `G`, on the four words alone. */
  lemma SameHalf(v: seq<word>, i: lane, j: lane, k: lane, l: lane, x: word, r: Blake2b.Distance, s: Blake2b.Distance)
    requires |v| == 16 && Blake2b.Distinct(i, j, k, l)
    ensures var a := Plus(Plus(v[i], v[j]), x);
      var d := Blake2b.XorRotate(v[l], a, r);
      var c := Plus(v[k], d);
      Blake2b.Half(v, i, j, k, l, x, r, s) == Put(v, i, j, k, l, Four(a, Blake2b.XorRotate(v[j], c, s), c, d))
  {
    hide Plus, Blake2b.Add, Blake2b.XorRotate;
    PlusIsAdd(v[i], v[j]);
    PlusIsAdd(Plus(v[i], v[j]), x);
    PlusIsAdd(v[k], Blake2b.XorRotate(v[l], Plus(Plus(v[i], v[j]), x), r));
  }

  /** The in-place mixing function is `G` on the four words it touches. */
  lemma SameMix(v: seq<word>, i: lane, j: lane, k: lane, l: lane, x: word, y: word)
    requires |v| == 16 && Blake2b.Distinct(i, j, k, l)
    ensures Blake2b.Mixed(v, i, j, k, l, x, y) == GAt(v, i, j, k, l, x, y)
  {
    hide Plus, Xor64, Rotr32, Rotr24, Rotr16, Rotr63, Blake2b.Half, Blake2b.XorRotate, Put;
    var a1 := Plus(Plus(v[i], v[j]), x);
    RotationsByShifts(v[l], a1);
    var d1 := Rotr32(Xor64(v[l], a1));
    var c1 := Plus(v[k], d1);
    RotationsByShifts(v[j], c1);
    var b1 := Rotr24(Xor64(v[j], c1));
    SameHalf(v, i, j, k, l, x, Blake2b.R32, Blake2b.R24);
    var w := Put(v, i, j, k, l, Four(a1, b1, c1, d1));
    var a2 := Plus(Plus(a1, b1), y);
    RotationsByShifts(d1, a2);
    var d2 := Rotr16(Xor64(d1, a2));
    RotationsByShifts(b1, Plus(c1, d2));
    PutTwice(v, i, j, k, l, Four(a1, b1, c1, d1), G(Four(v[i], v[j], v[k], v[l]), x, y));
    SameHalf(w, i, j, k, l, y, Blake2b.R16, Blake2b.R63);
  }

  lemma SameSigma(r: nat, i: nat)
    requires r < 10 && i < 16
    ensures |Blake2b.SIGMA| == 10 && Blake2b.SIGMA[r][i] == HexDigit(SigmaRow(r)[i])
  {
    match r
    case 0 => SameRow0(i);
    case 1 => SameRow1(i);
    case 2 => SameRow2(i);
    case 3 => SameRow3(i);
    case 4 => SameRow4(i);
    case 5 => SameRow5(i);
    case 6 => SameRow6(i);
    case 7 => SameRow7(i);
    case 8 => SameRow8(i);
    case _ => SameRow9(i);
  }

  lemma SameRow0(i: nat)
    requires i < 16
    ensures Blake2b.SIGMA[0][i] == HexDigit(SigmaRow(0)[i])
  {
  }

  lemma SameRow1(i: nat)
    requires i < 16
    ensures Blake2b.SIGMA[1][i] == HexDigit(SigmaRow(1)[i])
  {
  }

  lemma SameRow2(i: nat)
    requires i < 16
    ensures Blake2b.SIGMA[2][i] == HexDigit(SigmaRow(2)[i])
  {
  }

  lemma SameRow3(i: nat)
    requires i < 16
    ensures Blake2b.SIGMA[3][i] == HexDigit(SigmaRow(3)[i])
  {
  }

  lemma SameRow4(i: nat)
    requires i < 16
    ensures Blake2b.SIGMA[4][i] == HexDigit(SigmaRow(4)[i])
  {
  }

  lemma SameRow5(i: nat)
    requires i < 16
    ensures Blake2b.SIGMA[5][i] == HexDigit(SigmaRow(5)[i])
  {
  }

  lemma SameRow6(i: nat)
    requires i < 16
    ensures Blake2b.SIGMA[6][i] == HexDigit(SigmaRow(6)[i])
  {
  }

  lemma SameRow7(i: nat)
    requires i < 16
    ensures Blake2b.SIGMA[7][i] == HexDigit(SigmaRow(7)[i])
  {
  }

  lemma SameRow8(i: nat)
    requires i < 16
    ensures Blake2b.SIGMA[8][i] == HexDigit(SigmaRow(8)[i])
  {
  }

  lemma SameRow9(i: nat)
    requires i < 16
    ensures Blake2b.SIGMA[9][i] == HexDigit(SigmaRow(9)[i])
  {
  }


  lemma SamePick(m: seq<word>, r: nat, i: nat)
    requires |m| == 16 && i < 16
    ensures |Blake2b.SIGMA| == 10 && m[Blake2b.SIGMA[r % 10][i]] == Pick(m, r, i)
  {
    hide Blake2b.SIGMA, SigmaRow, HexDigit;
    SameSigma(r % 10, i);
  }

  lemma SameRound(v: seq<word>, m: seq<word>, r: nat)
    requires |v| == |m| == 16
    ensures |Blake2b.SIGMA| == 10 && Blake2b.Mixes(v, m, Blake2b.SIGMA[r % 10], 8) == Round(v, m, r)
  {
    hide Blake2b.SIGMA, Blake2b.Mixes, Blake2b.QUADS, GAt, Pick;
    SamePick(m, r, 0);
    var s := Blake2b.SIGMA[r % 10];
    Blake2b.QuadTable();
    Blake2b.MixesFirst(v, m, s);
    var v1 := SameStep(v, v, m, r, 0, 0, 4, 8, 12);
    var v2 := SameStep(v, v1, m, r, 1, 1, 5, 9, 13);
    var v3 := SameStep(v, v2, m, r, 2, 2, 6, 10, 14);
    var v4 := SameStep(v, v3, m, r, 3, 3, 7, 11, 15);
    var v5 := SameStep(v, v4, m, r, 4, 0, 5, 10, 15);
    var v6 := SameStep(v, v5, m, r, 5, 1, 6, 11, 12);
    var v7 := SameStep(v, v6, m, r, 6, 2, 7, 8, 13);
    var v8 := SameStep(v, v7, m, r, 7, 3, 4, 9, 14);
  }

  /** One mix of a round. */
  lemma SameStep(start: seq<word>, v: seq<word>, m: seq<word>, r: nat, k: nat, i: lane, j: lane, a: lane, b: lane) returns (w: seq<word>)
    requires |start| == |v| == |m| == 16 && k < 8 && |Blake2b.SIGMA| == 10 && |Blake2b.QUADS| == 8
    requires Blake2b.QUADS[k] == Blake2b.Quad(i, j, a, b) && Blake2b.Distinct(i, j, a, b)
    requires v == Blake2b.Mixes(start, m, Blake2b.SIGMA[r % 10], k)
    ensures w == GAt(v, i, j, a, b, Pick(m, r, 2 * k), Pick(m, r, 2 * k + 1)) == Blake2b.Mixes(start, m, Blake2b.SIGMA[r % 10], k + 1)
  {
    hide Blake2b.SIGMA, Blake2b.Mixes, Blake2b.QUADS, GAt, Pick, Blake2b.Mixed;
    w := GAt(v, i, j, a, b, Pick(m, r, 2 * k), Pick(m, r, 2 * k + 1));
    Blake2b.MixesStep(start, m, Blake2b.SIGMA[r % 10], k);
    SamePick(m, r, 2 * k);
    SamePick(m, r, 2 * k + 1);
    SameMix(v, i, j, a, b, Pick(m, r, 2 * k), Pick(m, r, 2 * k + 1));
  }

  lemma {:induction false} SameRounds(v: seq<word>, m: seq<word>, n: nat)
    requires |v| == |m| == 16
    ensures Blake2b.Rounds(v, m, n) == Rounds(v, m, n)
  {
    hide Blake2b.SIGMA, Blake2b.Mixes, Round;
    if n > 0 {
      SameRounds(v, m, n - 1);
      SameRound(Rounds(v, m, n - 1), m, n - 1);
    }
  }

  lemma SameNumber(b: seq<byte>)
    requires |b| == 8
    ensures Blake2b.LeWord(b) == Number(b)
  {
    hide Blake2b.Bits, Bits, Blake2b.Join, Horner;
    SameBits(b, 0);
    SameBits(b, 1);
    SameBits(b, 2);
    SameBits(b, 3);
    SameBits(b, 4);
    SameBits(b, 5);
    SameBits(b, 6);
    SameBits(b, 7);
    JoinIsHorner(Bits(b[0]), Bits(b[1]), Bits(b[2]), Bits(b[3]), Bits(b[4]), Bits(b[5]), Bits(b[6]), Bits(b[7]));
  }

  lemma SameBits(b: seq<byte>, i: nat)
    requires i < |b|
    ensures Blake2b.Bits(b[i]) == Bits(b[i])
  {
  }

  lemma JoinIsHorner(a: bv8, b: bv8, c: bv8, d: bv8, e: bv8, f: bv8, g: bv8, h: bv8)
    ensures Blake2b.Join(a, b, c, d, e, f, g, h) == Horner(a, b, c, d, e, f, g, h)
  {
  }

  lemma {:induction false} SameWords(block: seq<byte>, n: nat)
    requires |block| == 128 && n <= 16
    ensures Blake2b.MessageWords(block, n) == Words(block)[..n]
  {
    hide Blake2b.LeWord, Number;
    if n > 0 {
      SameWords(block, n - 1);
      SameNumber(block[8 * n - 8..8 * n]);
    }
  }

  /** The low word of a number is the number modulo 2^64, written out. */
  lemma LowBytes(n: nat)
    ensures LeBytes(n, 8) == LeBytes(n % TWO_64, 8)
  {
    Pow256Widths();
    LeBytesDrop(n, 8);
  }

  lemma NotIsXor(w: word)
    ensures Blake2b.NotWord(w) == Xor64(w, 0xFFFF_FFFF_FFFF_FFFF)
  {
  }

  lemma XorIsXor(a: word, b: word)
    ensures Blake2b.XorWord(a, b) == Xor64(a, b)
  {
  }

  lemma SameStart(h: seq<word>, t: nat, final: bool)
    requires |h| == 8
    ensures Blake2b.WorkingWords(h, t, final) == Start(h, t, final)
  {
    hide Xor64, Blake2b.XorWord, Blake2b.NotWord, Number, Blake2b.LeWord, LeBytes, Blake2b.IV;
    var iv := Blake2b.IV();
    LowBytes(t);
    LowBytes(t / TWO_64);
    SameNumber(LeBytes(t, 8));
    SameNumber(LeBytes(t / TWO_64, 8));
    XorIsXor(iv[4], Blake2b.LowWord(t));
    XorIsXor(iv[5], Blake2b.LowWord(t / TWO_64));
    NotIsXor(iv[6]);
  }

  lemma XorGroups(a: word, b: word, c: word)
    ensures Xor64(a, b ^ c) == Xor64(a ^ b, c)
  {
  }

  lemma FeedOrder(a: word, b: word, c: word)
    ensures Blake2b.XorWord(a, Blake2b.XorWord(b, c)) == Xor64(Xor64(a, b), c)
  {
    hide Blake2b.XorWord;
    XorIsXor(b, c);
    XorIsXor(a, Xor64(b, c));
    XorGroups(a, b, c);
  }

  lemma {:induction false} SameFeed(h: seq<word>, v: seq<word>, n: nat)
    requires |h| == 8 && |v| == 16 && n <= 8
    ensures Blake2b.FeedForward(h, v, n) == Feed(h, v)[..n] + h[n..]
  {
    hide Blake2b.XorWord, Xor64;
    if n > 0 {
      SameFeed(h, v, n - 1);
      FeedOrder(h[n - 1], v[n - 1], v[n + 7]);
    }
  }

  /** One call of the compression function is `F`. */
  lemma SameCompression(h: seq<word>, block: seq<byte>, t: nat, final: bool)
    requires |h| == 8 && |block| == 128
    ensures Blake2b.Compressed(h, block, t, final) == F(h, block, t, final)
  {
    hide Blake2b.Rounds, Rounds, Blake2b.WorkingWords, Start, Blake2b.MessageWords, Words, Blake2b.FeedForward, Feed;
    SameStart(h, t, final);
    SameWords(block, 16);
    assert Words(block)[..16] == Words(block);
    SameRounds(Start(h, t, final), Words(block), 12);
    var v := Rounds(Start(h, t, final), Words(block), 12);
    SameFeed(h, v, 8);
    assert Feed(h, v)[..8] + h[8..] == Feed(h, v);
  }

  lemma SameInitial(nn: nat)
    requires 1 <= nn <= 64
    ensures Blake2b.InitialState(nn) == var iv := Blake2b.IV(); iv[0 := Xor64(iv[0], Number([nn, 0, 1, 1, 0, 0, 0, 0]))]
  {
    hide Blake2b.IV, Blake2b.XorWord, Xor64, Number, Blake2b.LeWord, Blake2b.Parameter;
    Blake2b.ParameterWord(nn);
    SameNumber([nn, 0, 1, 1, 0, 0, 0, 0]);
    XorIsXor(Blake2b.IV()[0], Blake2b.Parameter(nn));
  }

  lemma SameBlock(message: seq<byte>, n: nat)
    requires 1 <= n <= Blocks(|message|)
    ensures Blocks(|message|) == Blake2b.BlockCount(|message|)
    ensures var c := Blake2b.CallAt(message, n - 1);
      && c.block == Padded(message)[128 * n - 128..128 * n] && c.last == (n == Blocks(|message|))
      && c.counter == if c.last then |message| else 128 * n
  {
    if n < Blocks(|message|) {
      WholeBlock(message, Zeros(128 * Blocks(|message|) - |message|), 128 * n - 128);
      assert message[128 * n - 128..128 * n] + Zeros(0) == message[128 * n - 128..128 * n];
    } else {
      LastBlock(message, 128 * n - 128);
    }
  }

  lemma WholeBlock(message: seq<byte>, tail: seq<byte>, at: nat)
    requires at + 128 <= |message|
    ensures (message + tail)[at..at + 128] == message[at..at + 128]
  {
  }

  lemma LastBlock(message: seq<byte>, at: nat)
    requires at <= |message| <= at + 128
    ensures (message + Zeros(at + 128 - |message|))[at..at + 128] == message[at..] + Zeros(at + 128 - |message|)
  {
  }

  lemma {:induction false} SameState(message: seq<byte>, nn: nat, n: nat)
    requires 1 <= nn <= 64 && n <= Blocks(|message|)
    ensures Blocks(|message|) == Blake2b.BlockCount(|message|)
    ensures Blake2b.Absorb(Blake2b.InitialState(nn), message, n) == State(message, nn, n)
  {
    hide Blake2b.CallAt, Padded, Blake2b.InitialState, Blake2b.Compressed, F;
    if n == 0 {
      SameInitial(nn);
    } else {
      SameState(message, nn, n - 1);
      SameBlock(message, n);
      var c := Blake2b.CallAt(message, n - 1);
      SameCompression(State(message, nn, n - 1), c.block, c.counter, c.last);
    }
  }

  lemma ShiftsDivide(w: word)
    ensures w & 0xFF == w % 0x100 && (w >> 8) & 0xFF == w / 0x100 % 0x100
    ensures (w >> 16) & 0xFF == w / 0x1_0000 % 0x100 && (w >> 24) & 0xFF == w / 0x100_0000 % 0x100
    ensures (w >> 32) & 0xFF == w / 0x1_0000_0000 % 0x100 && (w >> 40) & 0xFF == w / 0x100_0000_0000 % 0x100
    ensures (w >> 48) & 0xFF == w / 0x1_0000_0000_0000 % 0x100 && (w >> 56) & 0xFF == w / 0x100_0000_0000_0000 % 0x100
  {
  }

  lemma SameBytes(w: word)
    ensures Blake2b.WordBytes(w) == Octets(w)
  {
    ShiftsDivide(w);
  }

  lemma {:induction false} StateByteAt(h: seq<word>, n: nat, k: nat)
    requires n <= |h| && k < 8 * n
    ensures Blake2b.StateBytes(h, n)[k] == Octets(h[k / 8])[k % 8]
  {
    hide Blake2b.WordBytes, Octets;
    if k < 8 * n - 8 {
      StateByteAt(h, n - 1, k);
    } else {
      SameBytes(h[n - 1]);
    }
  }

  /** The implementation computes the standard's function on every message, at every digest length. */
  lemma SameHash(message: seq<byte>, nn: nat)
    requires 1 <= nn <= 64
    ensures Blake2b.Hash(message, nn) == Hash(message, nn)
  {
    hide Blake2b.Absorb, State, Blake2b.InitialState, Blake2b.StateBytes, Octets;
    SameState(message, nn, Blocks(|message|));
    var h := State(message, nn, Blocks(|message|));
    forall k: nat | k < nn
      ensures Blake2b.StateBytes(h, 8)[k] == Octets(h[k / 8])[k % 8]
    {
      StateByteAt(h, 8, k);
    }
  }
}

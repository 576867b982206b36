/**
  SHA-256 as its standard states it: two interleaved recurrences on numbers modulo 2^32, which is what
  32-bit vectors under `+` are (FIPS 180-4). The implementation is proved equal to it.
 */
module Fips180 {
  import opened Bytes
  import Padding
  import Sha256

  /** A number modulo 2^32. */
  type word = bv32

  function Plus(a: word, b: word): word { a + b }

  function Minus(a: word, b: word): word { a - b }

  function Plus4(a: word, b: word, c: word, d: word): word { Plus(Plus(Plus(a, b), c), d) }

  // ----- section 4.1.2: the functions, with rotations as pairs of shifts -----

  function Ch(x: word, y: word, z: word): word { (x & y) | (!x & z) }

  function Maj(x: word, y: word, z: word): word { (x & y) | (x & z) | (y & z) }

  function Sum0(x: word): word { ((x >> 2) | (x << 30)) ^ ((x >> 13) | (x << 19)) ^ ((x >> 22) | (x << 10)) }

  function Sum1(x: word): word { ((x >> 6) | (x << 26)) ^ ((x >> 11) | (x << 21)) ^ ((x >> 25) | (x << 7)) }

  function Sigma0(x: word): word { ((x >> 7) | (x << 25)) ^ ((x >> 18) | (x << 14)) ^ (x >> 3) }

  function Sigma1(x: word): word { ((x >> 17) | (x << 15)) ^ ((x >> 19) | (x << 13)) ^ (x >> 10) }

  // ----- section 6.2.2: one block -----

  /** Four bytes as a number: each pushes the earlier ones up. */
  function Number(b: seq<byte>): word
    requires |b| == 4
  {
    (((((b[0] as bv32 << 8) | b[1] as bv32) << 8) | b[2] as bv32) << 8) | b[3] as bv32
  }

  /** The t-th word of the message schedule. */
  function W(block: seq<byte>, t: nat): word
    requires |block| == 64
  {
    if t < 16 then Number(block[4 * t..4 * t + 4])
    else Plus4(Sigma1(W(block, t - 2)), W(block, t - 7), Sigma0(W(block, t - 15)), W(block, t - 16))
  }

  /** What the variable `a` holds after `t` rounds; `b`, `c` and `d` hold what it held one, two and three rounds before. */
  function A(h: seq<word>, block: seq<byte>, t: int): word
    requires |h| == 8 && |block| == 64 && -3 <= t <= 64
    decreases t + 3, 1
  {
    if t <= 0 then h[-t]
    else
      Plus(Plus(Minus(E(h, block, t), A(h, block, t - 4)), Sum0(A(h, block, t - 1))),
           Maj(A(h, block, t - 1), A(h, block, t - 2), A(h, block, t - 3)))
  }

  /** And what `e` holds; `f`, `g` and `h` follow it. */
  function E(h: seq<word>, block: seq<byte>, t: int): word
    requires |h| == 8 && |block| == 64 && -3 <= t <= 64
    decreases t + 3, 0
  {
    if t <= 0 then h[4 - t]
    else
      Plus(Plus(Plus4(A(h, block, t - 4), E(h, block, t - 4), Sum1(E(h, block, t - 1)),
                      Ch(E(h, block, t - 1), E(h, block, t - 2), E(h, block, t - 3))), Sha256.K[t - 1]), W(block, t - 1))
  }

  /** The hash value after a block: each word with what its variable ended as. */
  function Next(h: seq<word>, block: seq<byte>): (r: seq<word>)
    requires |h| == 8 && |block| == 64
    ensures |r| == 8
  {
    seq(8, i requires 0 <= i < 8 => Plus(h[i], if i < 4 then A(h, block, 64 - i) else E(h, block, 68 - i)))
  }

  // ----- sections 5.1.1 and 6.2: the message -----

  /** Whether a marker, `zeros` zero bytes and eight bytes of length fill a block. */
  predicate Fills(len: nat, zeros: nat) { (len + 1 + zeros + 8) % 64 == 0 }

  /** The number of zero bytes that padding adds. */
  function Fill(len: nat): nat { (55 - len) % 64 }

  function Pad(message: seq<byte>): seq<byte>
  {
    message + [0x80] + Zeros(Fill(|message|)) + BeBytes(8 * |message|, 8)
  }

  /** The hash value after the first `n` blocks of a padded message. */
  function Value(padded: seq<byte>, n: nat): (h: seq<word>)
    requires 64 * n <= |padded|
    ensures |h| == 8
  {
    if n == 0 then Sha256.H0() else Next(Value(padded, n - 1), padded[64 * n - 64..64 * n])
  }

  /** The j-th byte of a word, most significant first. */
  function ByteOf(w: word, j: nat): byte
    requires j < 4
  {
    (match j case 0 => w / 0x100_0000 % 0x100 case 1 => w / 0x1_0000 % 0x100 case 2 => w / 0x100 % 0x100 case _ => w % 0x100) as bv8 as int
  }

  function Hash(message: seq<byte>): (digest: seq<byte>)
    ensures |digest| == 32
  {
    var h := Value(Pad(message), |Pad(message)| / 64);
    seq(32, k requires 0 <= k < 32 => ByteOf(h[k / 4], k % 4))
  }

  /** The padding is the least that fills a block. */
  lemma FillIsLeast(len: nat, zeros: nat)
    ensures Fills(len, Fill(len)) && (Fills(len, zeros) ==> Fill(len) <= zeros)
  {
  }

  // ----- the implementation meets it -----

  lemma ChoicePlain(x: word, y: word, z: word)
    ensures (x & y) ^ (!x & z) == (x & y) | (!x & z)
  {
  }

  lemma MajorityPlain(x: word, y: word, z: word)
    ensures (x & y) ^ (x & z) ^ (y & z) == (x & y) | (x & z) | (y & z)
  {
  }

  lemma SameCh(x: word, y: word, z: word)
    ensures Sha256.Ch(x, y, z) == Ch(x, y, z)
  {
    ChoicePlain(x, y, z);
  }

  lemma SameMaj(x: word, y: word, z: word)
    ensures Sha256.Maj(x, y, z) == Maj(x, y, z)
  {
    MajorityPlain(x, y, z);
  }

  lemma SameSigmas(x: word)
    ensures Sha256.BigSigma0(x) == Sum0(x) && Sha256.BigSigma1(x) == Sum1(x)
    ensures Sha256.SmallSigma0(x) == Sigma0(x) && Sha256.SmallSigma1(x) == Sigma1(x)
  {
    Sha256.SigmasByShifts(x);
    hide Sha256.BigSigma0, Sha256.BigSigma1, Sha256.SmallSigma0, Sha256.SmallSigma1;
  }

  lemma SameNumber(b: seq<byte>)
    requires |b| == 4
    ensures Sha256.BeWord(b) == Number(b)
  {
    Horner(b[0] as bv32, b[1] as bv32, b[2] as bv32, b[3] as bv32);
  }

  lemma Horner(p: word, q: word, r: word, s: word)
    ensures (p << 24) | (q << 16) | (r << 8) | s == (((((p << 8) | q) << 8) | r) << 8) | s
  {
  }

  lemma PlusIsAdd(a: word, b: word)
    ensures Sha256.Add(a, b) == Plus(a, b)
  {
  }

  lemma SumIsPlus(a: word, b: word)
    ensures Plus(a, b) == a + b
  {
  }

  /** Unfolding only the outer function leaves an identity the bit-vector rewriter closes. */
  lemma RegroupPlain(a: word, b: word, c: word)
    ensures Plus(a, b + c) == Plus(a + b, c) && Minus(a + b, a) == b
  {
  }

  lemma PlusGroups(a: word, b: word, c: word)
    ensures Plus(a, Plus(b, c)) == Plus(Plus(a, b), c) && Minus(Plus(a, b), a) == b
  {
    hide Plus, Minus;
    RegroupPlain(a, b, c);
    SumIsPlus(b, c);
    SumIsPlus(a, b);
  }

  /** The injected sum, regrouped around the word it is added to. */
  lemma SumOrder(d: word, h: word, s: word, c: word, k: word, w: word)
    ensures Plus(d, Plus(h, Plus(Plus(Plus(s, c), k), w))) == Plus(Plus(Plus4(d, h, s, c), k), w)
  {
    hide Plus;
    PlusGroups(d, h, Plus(Plus(Plus(s, c), k), w));
    PlusGroups(Plus(d, h), Plus(Plus(s, c), k), w);
    PlusGroups(Plus(d, h), Plus(s, c), k);
    PlusGroups(Plus(d, h), s, c);
  }

  /** Both new words of a round as sums in the standard's order. */
  lemma RoundSums(s: Sha256.Working, k: word, w: word)
    ensures var e := Plus(Plus(Plus4(s.d, s.h, Sum1(s.e), Ch(s.e, s.f, s.g)), k), w);
      Sha256.Round(s, k, w)
      == Sha256.Working(Plus(Plus(Minus(e, s.d), Sum0(s.a)), Maj(s.a, s.b, s.c)), s.a, s.b, s.c, e, s.e, s.f, s.g)
  {
    hide Plus, Minus, Sum0, Sum1, Ch, Maj, Sha256.Add, Sha256.BigSigma0, Sha256.BigSigma1, Sha256.Ch, Sha256.Maj;
    SameSigmas(s.e);
    SameSigmas(s.a);
    SameCh(s.e, s.f, s.g);
    SameMaj(s.a, s.b, s.c);
    var s1, ch, s0, maj := Sum1(s.e), Ch(s.e, s.f, s.g), Sum0(s.a), Maj(s.a, s.b, s.c);
    PlusIsAdd(s1, ch);
    PlusIsAdd(Plus(s1, ch), k);
    PlusIsAdd(Plus(Plus(s1, ch), k), w);
    var i := Plus(Plus(Plus(s1, ch), k), w);
    PlusIsAdd(s.h, i);
    var t1 := Plus(s.h, i);
    PlusIsAdd(s.d, t1);
    PlusIsAdd(s0, maj);
    PlusIsAdd(t1, Plus(s0, maj));
    SumOrder(s.d, s.h, s1, ch, k, w);
    PlusGroups(s.d, t1, k);
    PlusGroups(t1, s0, maj);
  }

  /** The working variables after `t` rounds, read off the two sequences. */
  function Variables(h: seq<word>, block: seq<byte>, t: nat): Sha256.Working
    requires |h| == 8 && |block| == 64 && t <= 64
  {
    Sha256.Working(A(h, block, t), A(h, block, t - 1), A(h, block, t - 2), A(h, block, t - 3),
                   E(h, block, t), E(h, block, t - 1), E(h, block, t - 2), E(h, block, t - 3))
  }

  lemma {:induction false} SameSchedule(block: seq<byte>, n: nat, t: nat)
    requires |block| == 64 && t < n <= 64
    ensures Sha256.Schedule(block, n)[t] == W(block, t)
  {
    hide Number, Plus4, Sigma0, Sigma1, Sha256.BeWord, Sha256.SmallSigma0, Sha256.SmallSigma1, Sha256.Add;
    if t < n - 1 {
      SameSchedule(block, n - 1, t);
    } else {
      var w := Sha256.Schedule(block, t);
      if t < 16 {
        SameNumber(block[4 * t..4 * t + 4]);
      } else {
        SameSchedule(block, t, t - 2);
        SameSchedule(block, t, t - 7);
        SameSchedule(block, t, t - 15);
        SameSchedule(block, t, t - 16);
        ScheduleSum(w[t - 2], w[t - 7], w[t - 15], w[t - 16]);
      }
    }
  }

  lemma ScheduleSum(p: word, q: word, r: word, s: word)
    ensures Sha256.Add(Sha256.Add(Sha256.Add(Sha256.SmallSigma1(p), q), Sha256.SmallSigma0(r)), s) == Plus4(Sigma1(p), q, Sigma0(r), s)
  {
    hide Plus, Sigma0, Sigma1, Sha256.SmallSigma0, Sha256.SmallSigma1, Sha256.Add;
    SameSigmas(p);
    SameSigmas(r);
    PlusIsAdd(Sigma1(p), q);
    PlusIsAdd(Plus(Sigma1(p), q), Sigma0(r));
    PlusIsAdd(Plus(Plus(Sigma1(p), q), Sigma0(r)), s);
  }

  /** After any number of rounds the eight working variables are what the recurrences say. */
  lemma {:induction false} SameRounds(h: seq<word>, block: seq<byte>, t: nat)
    requires |h| == 8 && |block| == 64 && t <= 64
    ensures Sha256.Rounds(Sha256.ToWorking(h), Sha256.Schedule(block, 64), t) == Variables(h, block, t)
  {
    hide Sha256.Round, Sha256.Schedule, Sum0, Sum1, Ch, Maj, W, Plus, Plus4, Minus;
    if t > 0 {
      SameRounds(h, block, t - 1);
      SameSchedule(block, 64, t - 1);
      RoundSums(Variables(h, block, t - 1), Sha256.K[t - 1], W(block, t - 1));
    }
  }

  /** And one block takes the hash value where the standard takes it. */
  lemma SameBlock(h: seq<word>, block: seq<byte>)
    requires |h| == 8 && |block| == 64
    ensures Sha256.Compressed(h, block) == Next(h, block)
  {
    hide A, E, Plus, Sha256.Rounds, Sha256.Schedule, Sha256.Add;
    SameRounds(h, block, 64);
    var v := Variables(h, block, 64);
    PlusIsAdd(h[0], v.a);
    PlusIsAdd(h[1], v.b);
    PlusIsAdd(h[2], v.c);
    PlusIsAdd(h[3], v.d);
    PlusIsAdd(h[4], v.e);
    PlusIsAdd(h[5], v.f);
    PlusIsAdd(h[6], v.g);
    PlusIsAdd(h[7], v.h);
    assert Sha256.FeedForward(h, v) == Next(h, block);
  }

  lemma {:induction false} SameValue(padded: seq<byte>, n: nat)
    requires 64 * n <= |padded|
    ensures Sha256.Absorb(Sha256.H0(), padded, n) == Value(padded, n)
  {
    hide Sha256.Compressed, Next, Sha256.H0;
    if n > 0 {
      SameValue(padded, n - 1);
      SameBlock(Value(padded, n - 1), padded[64 * (n - 1)..64 * n]);
    }
  }

  lemma SamePadding(message: seq<byte>)
    ensures Padding.Padded(message) == Pad(message)
  {
    assert Padding.ZeroFill(|message|) == Fill(|message|);
  }

  lemma SameBytes(w: word)
    ensures Sha256.WordBytes(w) == [ByteOf(w, 0), ByteOf(w, 1), ByteOf(w, 2), ByteOf(w, 3)]
  {
    ShiftsDivide(w);
  }

  lemma ShiftsDivide(w: word)
    ensures (w >> 24) & 0xFF == w / 0x100_0000 % 0x100 && (w >> 16) & 0xFF == w / 0x1_0000 % 0x100
    ensures (w >> 8) & 0xFF == w / 0x100 % 0x100 && w & 0xFF == w % 0x100
  {
  }

  lemma {:induction false} DigestAt(h: seq<word>, n: nat, k: nat)
    requires n <= |h| && k < 4 * n
    ensures Sha256.DigestBytes(h, n)[k] == ByteOf(h[k / 4], k % 4)
  {
    hide Sha256.WordBytes, ByteOf;
    if k < 4 * n - 4 {
      DigestAt(h, n - 1, k);
    } else {
      SameBytes(h[n - 1]);
    }
  }

  /** The implementation computes the standard's function on every message. */
  lemma SameHash(message: seq<byte>)
    ensures Sha256.Hash(message) == Hash(message)
  {
    hide Sha256.Absorb, Value, Pad, Padding.Padded, ByteOf, Sha256.DigestBytes;
    SamePadding(message);
    var n := |Pad(message)| / 64;
    SameValue(Pad(message), n);
    var h := Value(Pad(message), n);
    forall k: nat | k < 32
      ensures Sha256.DigestBytes(h, 8)[k] == ByteOf(h[k / 4], k % 4)
    {
      DigestAt(h, 8, k);
    }
  }

  lemma SameHashTwice(message: seq<byte>)
    ensures Sha256.HashTwice(message) == Hash(Hash(message))
  {
    hide Hash, Sha256.Hash;
    SameHash(message);
    SameHash(Hash(message));
  }
}

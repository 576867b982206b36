/** The portable SHA-256: logical functions, schedule, rounds and the block loop (FIPS 180-4). */
module Sha256 {
  import opened Bytes
  import opened Padding

  type word = bv32

  /** The initial hash value. */
  function H0(): (h: seq<word>)
    ensures |h| == 8
  {
    [0x6a09e667, 0xbb67ae85, 0x3c6ef372, 0xa54ff53a, 0x510e527f, 0x9b05688c, 0x1f83d9ab, 0x5be0cd19]
  }

  /** The round constants, eight to a row. */
  function KRow(r: nat): (row: seq<word>)
    requires r < 8
    ensures |row| == 8
  {
    match r
    case 0 => [0x428a2f98, 0x71374491, 0xb5c0fbcf, 0xe9b5dba5, 0x3956c25b, 0x59f111f1, 0x923f82a4, 0xab1c5ed5]
    case 1 => [0xd807aa98, 0x12835b01, 0x243185be, 0x550c7dc3, 0x72be5d74, 0x80deb1fe, 0x9bdc06a7, 0xc19bf174]
    case 2 => [0xe49b69c1, 0xefbe4786, 0x0fc19dc6, 0x240ca1cc, 0x2de92c6f, 0x4a7484aa, 0x5cb0a9dc, 0x76f988da]
    case 3 => [0x983e5152, 0xa831c66d, 0xb00327c8, 0xbf597fc7, 0xc6e00bf3, 0xd5a79147, 0x06ca6351, 0x14292967]
    case 4 => [0x27b70a85, 0x2e1b2138, 0x4d2c6dfc, 0x53380d13, 0x650a7354, 0x766a0abb, 0x81c2c92e, 0x92722c85]
    case 5 => [0xa2bfe8a1, 0xa81a664b, 0xc24b8b70, 0xc76c51a3, 0xd192e819, 0xd6990624, 0xf40e3585, 0x106aa070]
    case 6 => [0x19a4c116, 0x1e376c08, 0x2748774c, 0x34b0bcb5, 0x391c0cb3, 0x4ed8aa4a, 0x5b9cca4f, 0x682e6ff3]
    case _ => [0x748f82ee, 0x78a5636f, 0x84c87814, 0x8cc70208, 0x90befffa, 0xa4506ceb, 0xbef9a3f7, 0xc67178f2]
  }

  const K: seq<word> := KRow(0) + KRow(1) + KRow(2) + KRow(3) + KRow(4) + KRow(5) + KRow(6) + KRow(7)

  function RoundConstant(t: nat): word
    requires t < 64
  {
    K[t]
  }

  // ----- words -----

  function Add(a: word, b: word): word { a + b }

  function Sub(a: word, b: word): word { a - b }

  lemma SumIsAdd(a: word, b: word)
    ensures Add(a, b) == a + b
  {
  }

  lemma DifferenceIsSub(a: word, b: word)
    ensures Sub(a, b) == a - b
  {
  }

  /** Unfolding only the outer function leaves an identity the bit-vector rewriter closes. */
  lemma UndoPlain(a: word, b: word)
    ensures Sub(a + b, b) == a && Add(a - b, b) == a
  {
  }

  lemma AddSub(a: word, b: word)
    ensures Sub(Add(a, b), b) == a && Add(Sub(a, b), b) == a
  {
    hide Add, Sub;
    SumIsAdd(a, b);
    DifferenceIsSub(a, b);
    UndoPlain(a, b);
  }

  /** `from_be_bytes`. */
  function BeWord(b: seq<byte>): word
    requires |b| == 4
  {
    (b[0] as bv32 << 24) | (b[1] as bv32 << 16) | (b[2] as bv32 << 8) | b[3] as bv32
  }

  /** `to_be_bytes`. */
  function WordBytes(w: word): (s: seq<byte>)
    ensures |s| == 4
  {
    [((w >> 24) & 0xFF) as bv8 as int, ((w >> 16) & 0xFF) as bv8 as int, ((w >> 8) & 0xFF) as bv8 as int, (w & 0xFF) as bv8 as int]
  }

  // ----- the six logical functions -----

  function Ch(x: word, y: word, z: word): word { (x & y) ^ (!x & z) }

  function Maj(x: word, y: word, z: word): word { (x & y) ^ (x & z) ^ (y & z) }

  function BigSigma0(x: word): word { x.RotateRight(2) ^ x.RotateRight(13) ^ x.RotateRight(22) }

  function BigSigma1(x: word): word { x.RotateRight(6) ^ x.RotateRight(11) ^ x.RotateRight(25) }

  function SmallSigma0(x: word): word { x.RotateRight(7) ^ x.RotateRight(18) ^ (x >> 3) }

  function SmallSigma1(x: word): word { x.RotateRight(17) ^ x.RotateRight(19) ^ (x >> 10) }

  /** `Ch` chooses: where `x` has a one the bit is `y`'s, elsewhere `z`'s. */
  lemma ChChooses(x: word, y: word, z: word)
    ensures Ch(x, y, z) & x == y & x && Ch(x, y, z) & !x == z & !x
  {
  }

  /** `Maj` is the majority: wherever two of its inputs agree, it agrees with them. */
  lemma MajAgrees(x: word, y: word, z: word)
    ensures Maj(x, y, z) & !(x ^ y) == x & !(x ^ y)
    ensures Maj(x, y, z) & !(x ^ z) == x & !(x ^ z)
    ensures Maj(x, y, z) & !(y ^ z) == y & !(y ^ z)
  {
    MajFirstTwo(x, y, z);
    MajFirstTwo(x, z, y);
    MajFirstTwo(y, z, x);
    MajOrder(x, y, z);
    hide Maj;
  }

  lemma MajFirstTwo(x: word, y: word, z: word)
    ensures Maj(x, y, z) & !(x ^ y) == x & !(x ^ y)
  {
  }

  lemma MajOrder(x: word, y: word, z: word)
    ensures Maj(x, z, y) == Maj(x, y, z) == Maj(y, z, x)
  {
  }

  /** The four sigmas written with shifts, as section 4.1.2 of FIPS 180-4 does: three rotations, or two and a shift. */
  lemma SigmasByShifts(x: word)
    ensures BigSigma0(x) == ((x >> 2) | (x << 30)) ^ ((x >> 13) | (x << 19)) ^ ((x >> 22) | (x << 10))
    ensures BigSigma1(x) == ((x >> 6) | (x << 26)) ^ ((x >> 11) | (x << 21)) ^ ((x >> 25) | (x << 7))
    ensures SmallSigma0(x) == ((x >> 7) | (x << 25)) ^ ((x >> 18) | (x << 14)) ^ (x >> 3)
    ensures SmallSigma1(x) == ((x >> 17) | (x << 15)) ^ ((x >> 19) | (x << 13)) ^ (x >> 10)
  {
  }

  // ----- one round and its inverse -----

  datatype Working = Working(a: word, b: word, c: word, d: word, e: word, f: word, g: word, h: word)

  /** The sum injected in a round besides the outgoing word `h`. */
  function Inject(e: word, f: word, g: word, k: word, w: word): word
  {
    Add(Add(Add(BigSigma1(e), Ch(e, f, g)), k), w)
  }

  function Temp2(a: word, b: word, c: word): word { Add(BigSigma0(a), Maj(a, b, c)) }

  function Round(s: Working, k: word, w: word): Working
  {
    var t1 := Add(s.h, Inject(s.e, s.f, s.g, k, w));
    Working(Add(t1, Temp2(s.a, s.b, s.c)), s.a, s.b, s.c, Add(s.d, t1), s.e, s.f, s.g)
  }

  function Unround(s: Working, k: word, w: word): Working
  {
    var t1 := Sub(s.a, Temp2(s.b, s.c, s.d));
    Working(s.b, s.c, s.d, Sub(s.e, t1), s.f, s.g, s.h, Sub(t1, Inject(s.f, s.g, s.h, k, w)))
  }

  lemma RoundInverse(s: Working, k: word, w: word)
    ensures Unround(Round(s, k, w), k, w) == s
    ensures Round(Unround(s, k, w), k, w) == s
  {
    var i := Inject(s.e, s.f, s.g, k, w);
    var t1 := Add(s.h, i);
    AddSub(s.h, i);
    AddSub(t1, Temp2(s.a, s.b, s.c));
    AddSub(s.d, t1);
    var j := Inject(s.f, s.g, s.h, k, w);
    var u1 := Sub(s.a, Temp2(s.b, s.c, s.d));
    AddSub(s.a, Temp2(s.b, s.c, s.d));
    AddSub(u1, j);
    AddSub(s.e, u1);
  }

  /** The first `n` rounds under the schedule `w`. */
  function Rounds(s: Working, w: seq<word>, n: nat): Working
    requires n <= |w| == 64
  {
    if n == 0 then s else Round(Rounds(s, w, n - 1), RoundConstant(n - 1), w[n - 1])
  }

  function Unrounds(s: Working, w: seq<word>, n: nat): Working
    requires n <= |w| == 64
    decreases n
  {
    if n == 0 then s else Unrounds(Unround(s, RoundConstant(n - 1), w[n - 1]), w, n - 1)
  }

  /** Before the feed-forward the rounds are a bijection of the working words, for any schedule. */
  lemma {:induction false} RoundsReversible(s: Working, w: seq<word>, n: nat)
    requires n <= |w| == 64
    ensures Unrounds(Rounds(s, w, n), w, n) == s
    ensures Rounds(Unrounds(s, w, n), w, n) == s
    decreases n
  {
    if n > 0 {
      RoundInverse(Rounds(s, w, n - 1), RoundConstant(n - 1), w[n - 1]);
      RoundsReversible(s, w, n - 1);
      RoundInverse(s, RoundConstant(n - 1), w[n - 1]);
      RoundsReversible(Unround(s, RoundConstant(n - 1), w[n - 1]), w, n - 1);
    }
  }

  // ----- the compression function -----

  function ScheduleWord(block: seq<byte>, w: seq<word>): word
    requires |block| == 64 && |w| < 64
  {
    var t := |w|;
    if t < 16 then BeWord(block[4 * t..4 * t + 4])
    else Add(Add(Add(SmallSigma1(w[t - 2]), w[t - 7]), SmallSigma0(w[t - 15])), w[t - 16])
  }

  /** The first `n` words of the message schedule. */
  function Schedule(block: seq<byte>, n: nat): (w: seq<word>)
    requires |block| == 64 && n <= 64
    ensures |w| == n
  {
    if n == 0 then [] else var w := Schedule(block, n - 1); w + [ScheduleWord(block, w)]
  }

  function ToWorking(s: seq<word>): Working
    requires |s| == 8
  {
    Working(s[0], s[1], s[2], s[3], s[4], s[5], s[6], s[7])
  }

  function AddAt(s: seq<word>, i: nat, x: word): (r: seq<word>)
    requires i < |s|
    ensures |r| == |s|
  {
    s[i := Add(s[i], x)]
  }

  /** The previous state added back in, word by word. */
  function FeedForward(s: seq<word>, v: Working): (r: seq<word>)
    requires |s| == 8
    ensures |r| == 8
  {
    var low := AddAt(AddAt(AddAt(AddAt(s, 0, v.a), 1, v.b), 2, v.c), 3, v.d);
    AddAt(AddAt(AddAt(AddAt(low, 4, v.e), 5, v.f), 6, v.g), 7, v.h)
  }

  function Compressed(state: seq<word>, block: seq<byte>): (r: seq<word>)
    requires |state| == 8 && |block| == 64
    ensures |r| == 8
  {
    FeedForward(state, Rounds(ToWorking(state), Schedule(block, 64), 64))
  }

  /** The message schedule: sixteen words read from the block, forty-eight derived. */
  method PrepareSchedule(block: seq<byte>) returns (w: array<word>)
    requires |block| == 64
    ensures fresh(w) && w[..] == Schedule(block, 64)
  {
    hide BeWord, Add, SmallSigma0, SmallSigma1;
    w := new word[64](i => 0);
    for t := 0 to 16
      invariant w[..t] == Schedule(block, t)
    {
      ghost var before := w[..t];
      w[t] := BeWord(block[4 * t..4 * t + 4]);
      ScheduleStep(block, before, w[..], t);
    }
    for t := 16 to 64
      invariant w[..t] == Schedule(block, t)
    {
      ghost var before := w[..t];
      w[t] := Add(Add(Add(SmallSigma1(w[t - 2]), w[t - 7]), SmallSigma0(w[t - 15])), w[t - 16]);
      ScheduleStep(block, before, w[..], t);
    }
    assert w[..] == w[..64];
  }

  lemma ScheduleStep(block: seq<byte>, before: seq<word>, w: seq<word>, t: nat)
    requires |block| == 64 && t < 64 == |w|
    requires before == Schedule(block, t) == w[..t] && w[t] == ScheduleWord(block, before)
    ensures w[..t + 1] == Schedule(block, t + 1)
  {
    TakeStep(w, t);
  }

  /** The sixty-four rounds, each shifting the working words down by one. */
  method RunRounds(state: seq<word>, w: array<word>) returns (v: Working)
    requires |state| == 8 && w.Length == 64
    ensures v == Rounds(ToWorking(state), w[..], 64)
  {
    hide Add, Inject, Temp2;
    var a, b, c, d, e, f, g, h := state[0], state[1], state[2], state[3], state[4], state[5], state[6], state[7];
    for t := 0 to 64
      invariant Working(a, b, c, d, e, f, g, h) == Rounds(ToWorking(state), w[..], t)
    {
      var t1 := Add(h, Inject(e, f, g, RoundConstant(t), w[t]));
      var t2 := Temp2(a, b, c);
      h := g;
      g := f;
      f := e;
      e := Add(d, t1);
      d := c;
      c := b;
      b := a;
      a := Add(t1, t2);
    }
    v := Working(a, b, c, d, e, f, g, h);
  }

  /** `state[i] = state[i].wrapping_add(x)`. */
  method AddInto(state: array<word>, i: nat, x: word)
    requires i < state.Length
    modifies state
    ensures state[..] == AddAt(old(state[..]), i, x)
  {
    hide Add;
    state[i] := Add(state[i], x);
  }

  /** Absorbs one block into `state`, in place. */
  method CompressBlock(state: array<word>, block: seq<byte>)
    requires state.Length == 8 && |block| == 64
    modifies state
    ensures state[..] == Compressed(old(state[..]), block)
  {
    hide AddAt, Rounds, Schedule, ToWorking;
    var w := PrepareSchedule(block);
    var v := RunRounds(state[..], w);
    AddInto(state, 0, v.a);
    AddInto(state, 1, v.b);
    AddInto(state, 2, v.c);
    AddInto(state, 3, v.d);
    AddInto(state, 4, v.e);
    AddInto(state, 5, v.f);
    AddInto(state, 6, v.g);
    AddInto(state, 7, v.h);
  }

  // ----- the hash -----

  /** The state after the first `n` 64-byte blocks. */
  function Absorb(state: seq<word>, data: seq<byte>, n: nat): (r: seq<word>)
    requires |state| == 8 && 64 * n <= |data|
    ensures |r| == 8
  {
    if n == 0 then state else Compressed(Absorb(state, data, n - 1), data[64 * (n - 1)..64 * n])
  }

  function DigestBytes(state: seq<word>, n: nat): (d: seq<byte>)
    requires n <= |state|
    ensures |d| == 4 * n
  {
    if n == 0 then [] else DigestBytes(state, n - 1) + WordBytes(state[n - 1])
  }

  function Hash(message: seq<byte>): (digest: seq<byte>)
    ensures |digest| == 32
  {
    DigestBytes(Absorb(H0(), Padded(message), PaddedLen(|message|) / 64), 8)
  }

  function HashTwice(message: seq<byte>): (digest: seq<byte>)
    ensures |digest| == 32
  {
    Hash(Hash(message))
  }

  method ComputeHash(message: seq<byte>) returns (digest: seq<byte>)
    requires |message| < MAX_MESSAGE
    ensures digest == Hash(message)
  {
    hide Compressed, Padded, WordBytes, H0;
    var padded := Pad(message);
    var start := H0();
    var state := new word[8](i requires 0 <= i < 8 => start[i]);
    assert state[..] == start;
    for i := 0 to |padded| / 64
      invariant fresh(state) && state[..] == Absorb(H0(), padded, i)
    {
      CompressBlock(state, padded[64 * i..64 * i + 64]);
    }
    digest := [];
    for i := 0 to 8
      invariant digest == DigestBytes(state[..], i)
    {
      digest := digest + WordBytes(state[i]);
    }
  }
}

/** The nonce search: a counter of up to four 32-bit words, and a bounded scan of it. */
module Search {
  import opened Wrappers
  import opened Bytes
  import opened Hash256
  import opened Pow
  import opened Target

  // ----- the counter -----

  /** How many words take part: a count below one acts as one, above four as four. */
  function Words(words: u32): (e: nat)
    ensures 1 <= e <= 4
  {
    if words < 2 then 1 else if words > 4 then 4 else words
  }

  const TWO_96: int := TWO_64 * TWO_32
  const TWO_128: int := TWO_64 * TWO_64

  function Size(words: u32): (n: nat)
    ensures n > 0
  {
    match Words(words) case 1 => TWO_32 case 2 => TWO_64 case 3 => TWO_96 case _ => TWO_128
  }

  /** The number the participating words spell, `nonce` least significant. */
  function Low(at: NonceSpace, words: u32): (v: nat)
    ensures v < Size(words)
  {
    match Words(words)
    case 1 => at.nonce
    case 2 => at.nonce + TWO_32 * at.nonce2
    case 3 => at.nonce + TWO_32 * at.nonce2 + TWO_64 * at.nonce3
    case _ => at.nonce + TWO_32 * at.nonce2 + TWO_64 * at.nonce3 + TWO_96 * at.timeOffset
  }

  function Digit(v: nat, scale: nat): u32
    requires scale > 0
  {
    v / scale % TWO_32
  }

  /** The point whose participating words spell `v`; the others stay. */
  function WithLow(at: NonceSpace, words: u32, v: nat): (p: NonceSpace)
  {
    match Words(words)
    case 1 => at.(nonce := Digit(v, 1))
    case 2 => at.(nonce := Digit(v, 1), nonce2 := Digit(v, TWO_32))
    case 3 => at.(nonce := Digit(v, 1), nonce2 := Digit(v, TWO_32), nonce3 := Digit(v, TWO_64))
    case _ => NonceSpace(Digit(v, 1), Digit(v, TWO_32), Digit(v, TWO_64), Digit(v, TWO_96))
  }

  function Mod(x: nat, d: nat): (r: nat)
    requires d > 0
    ensures r < d
  {
    x % d
  }

  /** What the participating words spell `n` steps on. */
  function Wrapped(at: NonceSpace, words: u32, n: nat): (v: nat)
    ensures v < Size(words)
  {
    Mod(Low(at, words) + n, Size(words))
  }

  /** The point `n` steps on, wrapping at the top of the space the words span. */
  function After(at: NonceSpace, words: u32, n: nat): NonceSpace { WithLow(at, words, Wrapped(at, words, n)) }

  function Truncated(at: NonceSpace, words: u32): NonceSpace
  {
    match Words(words)
    case 1 => NonceSpace(at.nonce, 0, 0, 0)
    case 2 => NonceSpace(at.nonce, at.nonce2, 0, 0)
    case 3 => NonceSpace(at.nonce, at.nonce2, at.nonce3, 0)
    case _ => at
  }

  lemma SplitDigit(v: nat, scale: nat)
    requires scale == TWO_32 || scale == TWO_64 || scale == TWO_96
    ensures v % scale + scale * Digit(v, scale) == v % (scale * TWO_32)
  {
    DivDivBy(v, scale, TWO_32);
  }

  lemma DivDivBy(v: nat, a: nat, b: nat)
    requires a > 0 && b > 0
    ensures v % (a * b) == v % a + a * (v / a % b)
  {
    var q, r := v / a, v % a;
    var s, t := q / b, q % b;
    assert v == a * q + r && q == b * s + t;
    assert a * q == (a * b) * s + a * t by {
      assert a * (b * s) == (a * b) * s;
    }
    assert 0 <= a * t && a * t + r < a * b by { MulMonotone(a, t + 1, b); }
    DivUnique(v, a * b, s, a * t + r);
  }

  lemma DigitsSpell(v: nat)
    ensures Digit(v, 1) + TWO_32 * Digit(v, TWO_32) == v % TWO_64
    ensures Digit(v, 1) + TWO_32 * Digit(v, TWO_32) + TWO_64 * Digit(v, TWO_64) == v % TWO_96
    ensures Digit(v, 1) + TWO_32 * Digit(v, TWO_32) + TWO_64 * Digit(v, TWO_64) + TWO_96 * Digit(v, TWO_96) == v % TWO_128
  {
    SplitDigit(v, TWO_32);
    SplitDigit(v, TWO_64);
    SplitDigit(v, TWO_96);
  }

  lemma LowOfWithLow(at: NonceSpace, words: u32, v: nat)
    requires v < Size(words)
    ensures Low(WithLow(at, words, v), words) == v
  {
    hide Digit;
    DigitsSpell(v);
    FirstDigit(v);
    DivUnique(v, Size(words), 0, v);
  }

  lemma FirstDigit(v: nat)
    ensures Digit(v, 1) == v % TWO_32
  {
  }

  /** The words are the digits of the number they spell. */
  lemma WordsAreDigits(a: u32, b: u32, c: u32, d: u32)
    ensures var v := a + TWO_32 * b + TWO_64 * c + TWO_96 * d;
      Digit(v, 1) == a && Digit(v, TWO_32) == b && Digit(v, TWO_64) == c && Digit(v, TWO_96) == d
  {
    var n: int, n2: int, n3: int, t: int := a, b, c, d;
    var v := n + TWO_32 * n2 + TWO_64 * n3 + TWO_96 * t;
    var high := n2 + TWO_32 * n3 + TWO_64 * t;
    DivUnique(v, TWO_32, high, n);
    DivUnique(high, TWO_32, n3 + TWO_32 * t, n2);
    DivUnique(v, TWO_64, n3 + TWO_32 * t, n + TWO_32 * n2);
    DivUnique(n3 + TWO_32 * t, TWO_32, t, n3);
    DivUnique(v, TWO_96, t, n + TWO_32 * n2 + TWO_64 * n3);
    DivUnique(t, TWO_32, 0, t);
  }

  lemma WithOwnLow(at: NonceSpace, words: u32)
    ensures WithLow(at, words, Low(at, words)) == at
  {
    hide Digit;
    var e := Words(words);
    WordsAreDigits(at.nonce, if e < 2 then 0 else at.nonce2, if e < 3 then 0 else at.nonce3, if e < 4 then 0 else at.timeOffset);
  }

  lemma WithLowTwice(at: NonceSpace, words: u32, u: nat, v: nat)
    ensures WithLow(WithLow(at, words, u), words, v) == WithLow(at, words, v)
  {
    hide Digit;
  }

  /** A step of the counter is +1 modulo 2^(32w) on the low w words, and nothing else moves. */
  lemma StepIsIncrement(at: NonceSpace, words: u32)
    ensures Low(After(at, words, 1), words) == (Low(at, words) + 1) % Size(words)
    ensures WithLow(After(at, words, 1), words, 0) == WithLow(at, words, 0)
  {
    hide Low, WithLow, Size;
    WithLowTwice(at, words, (Low(at, words) + 1) % Size(words), 0);
    LowOfWithLow(at, words, (Low(at, words) + 1) % Size(words));
  }

  lemma WrappedOnward(at: NonceSpace, words: u32, m: nat, n: nat)
    ensures Wrapped(After(at, words, m), words, n) == Wrapped(at, words, m + n)
  {
    hide Low, WithLow, Size, Mod;
    LowOfWithLow(at, words, Wrapped(at, words, m));
    AddModulo(Low(at, words), m, n, Size(words));
  }

  lemma AfterAfter(at: NonceSpace, words: u32, m: nat, n: nat)
    ensures After(After(at, words, m), words, n) == After(at, words, m + n)
  {
    hide Low, WithLow, Size, Wrapped;
    WrappedOnward(at, words, m, n);
    WithLowTwice(at, words, Wrapped(at, words, m), Wrapped(at, words, m + n));
  }

  lemma AddModulo(x: nat, m: nat, n: nat, d: nat)
    requires d > 0
    ensures Mod(Mod(x + m, d) + n, d) == Mod(x + (m + n), d)
  {
    var y := x + m;
    var q, p := (y + n) / d, y / d;
    assert d * q - d * p == d * (q - p);
    DivUnique(y % d + n, d, q - p, (y + n) % d);
  }

  /** Within the size of the space no point is met twice. */
  lemma PointsDistinct(at: NonceSpace, words: u32, i: nat, j: nat)
    requires i < j < i + Size(words)
    ensures After(at, words, i) != After(at, words, j)
  {
    hide Low, WithLow, Size;
    var low, size := Low(at, words), Size(words);
    LowOfWithLow(at, words, (low + i) % size);
    LowOfWithLow(at, words, (low + j) % size);
    if (low + i) % size == (low + j) % size {
      var p, q := (low + i) / size, (low + j) / size;
      assert low + i == size * p + (low + i) % size && low + j == size * q + (low + j) % size;
      assert j - i == size * (q - p);
      if q - p >= 1 { MulMonotone(size, 1, q - p); } else { MulMonotone(size, 0, p - q); }
      assert false;
    }
  }

  /** A whole sweep comes back to where it began. */
  lemma SweepReturns(at: NonceSpace, words: u32)
    ensures After(at, words, Size(words)) == at
  {
    hide Low, WithLow, Size;
    var low, size := Low(at, words), Size(words);
    AddModulo(0, size, low, size);
    DivUnique(size, size, 1, 0);
    DivUnique(low, size, 0, low);
    WithOwnLow(at, words);
  }

  lemma TruncationHolds(at: NonceSpace, words: u32, n: nat)
    ensures Truncated(After(Truncated(at, words), words, n), words) == After(Truncated(at, words), words, n)
  {
    hide Digit, Low, Size;
  }

  /** The four words of `NonceSpace`, changed in place. */
  class Counter {
    var nonce: u32
    var nonce2: u32
    var nonce3: u32
    var timeOffset: u32

    constructor (at: NonceSpace)
      ensures Point() == at
    {
      nonce, nonce2, nonce3, timeOffset := at.nonce, at.nonce2, at.nonce3, at.timeOffset;
    }

    function Point(): NonceSpace
      reads this
    {
      NonceSpace(nonce, nonce2, nonce3, timeOffset)
    }

    method Truncate(words: u32)
      modifies this
      ensures Point() == Truncated(old(Point()), words)
    {
      if words < 4 { timeOffset := 0; }
      if words < 3 { nonce3 := 0; }
      if words < 2 { nonce2 := 0; }
    }

    /** Carries from word to word and stops at the last that takes part. */
    method Advance(words: u32)
      modifies this
      ensures Point() == After(old(Point()), words, 1)
    {
      hide After;
      CarryMeaning(Point(), words);
      var carry := nonce == 0xFFFF_FFFF;
      nonce := (nonce + 1) % TWO_32;
      if !carry || words < 2 { return; }
      carry := nonce2 == 0xFFFF_FFFF;
      nonce2 := (nonce2 + 1) % TWO_32;
      if !carry || words < 3 { return; }
      carry := nonce3 == 0xFFFF_FFFF;
      nonce3 := (nonce3 + 1) % TWO_32;
      if carry && words >= 4 {
        timeOffset := (timeOffset + 1) % TWO_32;
      }
    }
  }

  /** What a ripple of carries leaves in each word. */
  function Rippled(at: NonceSpace, words: u32): NonceSpace
  {
    var e, top := Words(words), 0xFFFF_FFFF;
    if at.nonce != top then at.(nonce := at.nonce + 1)
    else if e < 2 then at.(nonce := 0)
    else if at.nonce2 != top then at.(nonce := 0, nonce2 := at.nonce2 + 1)
    else if e < 3 then at.(nonce := 0, nonce2 := 0)
    else if at.nonce3 != top then at.(nonce := 0, nonce2 := 0, nonce3 := at.nonce3 + 1)
    else if e < 4 then at.(nonce := 0, nonce2 := 0, nonce3 := 0)
    else NonceSpace(0, 0, 0, if at.timeOffset == top then 0 else at.timeOffset + 1)
  }

  lemma CarryMeaning(at: NonceSpace, words: u32)
    ensures After(at, words, 1) == Rippled(at, words)
  {
    hide Digit;
    var low, size, r := Low(at, words), Size(words), Rippled(at, words);
    if low + 1 == size { DivUnique(low + 1, size, 1, 0); } else { DivUnique(low + 1, size, 0, low + 1); }
    assert Low(r, words) == (low + 1) % size;
    WithOwnLow(r, words);
  }

  lemma AfterZero(at: NonceSpace, words: u32)
    ensures After(at, words, 0) == at
  {
    hide Low, WithLow, Size;
    DivUnique(Low(at, words), Size(words), 0, Low(at, words));
    WithOwnLow(at, words);
  }

  // ----- the scan -----

  datatype Solution = Solution(at: NonceSpace, hash: Hash256)

  datatype SearchResult = SearchResult(solution: Option<Solution>, hashes: u64, next: NonceSpace, best: Hash256, bestAt: NonceSpace)

  /** A pre-fork header has 2^32 points and no more. */
  function Budget(m: PowMidstate, attempts: u64): u64
  {
    if NonceWords(m) == 1 && attempts > TWO_32 then TWO_32 else attempts
  }

  /** The i-th hash of a scan. */
  function Tried(m: PowMidstate, from: NonceSpace, i: nat): Hash256
    requires m.Valid()
  {
    HashAt(m, After(from, NonceWords(m), i))
  }

  /** Of the first `n` hashes, `best` is the numerically least, and the k-th is the earliest that reaches it. */
  predicate Lowest(m: PowMidstate, from: NonceSpace, n: nat, best: Hash256, bestAt: NonceSpace, k: nat)
    requires m.Valid()
  {
    && bestAt == After(from, NonceWords(m), k)
    && (if n == 0 then k == 0 && best == MAXIMUM else k < n && best == Tried(m, from, k))
    && (forall j: nat :: j < k ==> IsBelow(best, Tried(m, from, j)))
    && (forall j: nat :: j < n ==> !IsBelow(Tried(m, from, j), best))
  }

  /** No hash from the a-th up to the b-th meets the target. */
  predicate NoneMeets(m: PowMidstate, t: Target, from: NonceSpace, a: nat, b: nat)
    requires m.Valid()
  {
    forall i: nat :: a <= i < b ==> !IsMetBy(t, Tried(m, from, i))
  }

  /** What a search must report. */
  ghost predicate Describes(m: PowMidstate, t: Target, start: NonceSpace, attempts: u64, r: SearchResult)
    requires m.Valid()
  {
    DescribesFrom(m, t, Truncated(start, NonceWords(m)), Budget(m, attempts), r)
  }

  ghost predicate DescribesFrom(m: PowMidstate, t: Target, from: NonceSpace, budget: u64, r: SearchResult)
    requires m.Valid()
  {
    && r.next == After(from, NonceWords(m), r.hashes)
    && (exists k: nat :: Lowest(m, from, r.hashes, r.best, r.bestAt, k))
    && (r.solution.None? ==> r.hashes == budget && NoneMeets(m, t, from, 0, r.hashes))
    && (r.solution.Some? ==>
          && 0 < r.hashes <= budget && NoneMeets(m, t, from, 0, r.hashes - 1)
          && r.solution.value == Solution(After(from, NonceWords(m), r.hashes - 1), Tried(m, from, r.hashes - 1))
          && IsMetBy(t, r.solution.value.hash) && r.best == r.solution.value.hash && r.bestAt == r.solution.value.at)
  }

  /** A search without a solution has spent every attempt it was given, but for a pre-fork header's 2^32 points. */
  lemma AttemptsSpent(m: PowMidstate, t: Target, start: NonceSpace, attempts: u64, r: SearchResult)
    requires m.Valid() && Describes(m, t, start, attempts, r)
    ensures r.hashes <= attempts
    ensures r.solution.None? ==> r.hashes == if m.Sha256d? && attempts > 0x1_0000_0000 then 0x1_0000_0000 else attempts
  {
    hide After, HashAt, Lowest;
  }

  lemma NothingTried(m: PowMidstate, from: NonceSpace)
    requires m.Valid()
    ensures Lowest(m, from, 0, MAXIMUM, from, 0)
  {
    hide After, HashAt;
    AfterZero(from, NonceWords(m));
  }

  /** One more hash, compared with the best so far. */
  lemma LowestStep(m: PowMidstate, from: NonceSpace, n: nat, best: Hash256, bestAt: NonceSpace, k: nat)
    requires m.Valid() && Lowest(m, from, n, best, bestAt, k)
    ensures var h := Tried(m, from, n);
      if IsBelow(h, best) then Lowest(m, from, n + 1, h, After(from, NonceWords(m), n), n)
      else Lowest(m, from, n + 1, best, bestAt, k)
  {
    hide After, HashAt, Value;
    var h := Tried(m, from, n);
    MaximumIsMaximal(h);
    if n == 0 && !IsBelow(h, best) { ValueInjective(h, MAXIMUM); }
  }

  method Search(m: PowMidstate, t: Target, start: NonceSpace, attempts: u64) returns (r: SearchResult)
    requires m.Valid()
    ensures Describes(m, t, start, attempts, r)
  {
    hide After, HashAt, Truncated, Lowest, IsMetBy;
    var words := NonceWords(m);
    var capped := if words == 1 && attempts > TWO_32 then TWO_32 else attempts;
    var at := new Counter(start);
    at.Truncate(words);
    ghost var from := at.Point();
    var hashes: u64 := 0;
    var best, bestAt := MAXIMUM, at.Point();
    ghost var k: nat := 0;
    AfterZero(from, words);
    NothingTried(m, from);
    while hashes < capped
      invariant hashes <= capped && fresh(at)
      invariant at.Point() == After(from, words, hashes)
      invariant Lowest(m, from, hashes, best, bestAt, k)
      invariant NoneMeets(m, t, from, 0, hashes)
    {
      var hash := HashAt(m, at.Point());
      LowestStep(m, from, hashes, best, bestAt, k);
      AfterAfter(from, words, hashes, 1);
      ghost var before := (best, bestAt, k);
      if IsBelow(hash, best) {
        best := hash;
        bestAt := at.Point();
        k := hashes;
      }
      hashes := hashes + 1;
      var met := CheckMet(t, hash);
      if met {
        FirstHitIsLowest(m, t, from, hashes - 1, best, bestAt, k);
        var found := Solution(at.Point(), hash);
        at.Advance(words);
        return SearchResult(Some(found), hashes, at.Point(), hash, found.at);
      }
      at.Advance(words);
    }
    return SearchResult(None, hashes, at.Point(), best, bestAt);
  }

  /** The first hash to meet the target is below everything before it. */
  lemma FirstHitIsLowest(m: PowMidstate, t: Target, from: NonceSpace, n: nat, best: Hash256, bestAt: NonceSpace, k: nat)
    requires m.Valid() && Lowest(m, from, n + 1, best, bestAt, k)
    requires NoneMeets(m, t, from, 0, n) && IsMetBy(t, Tried(m, from, n))
    ensures k == n && best == Tried(m, from, n) && bestAt == After(from, NonceWords(m), n)
  {
    hide After, HashAt, Value;
    assert !IsBelow(Tried(m, from, n), best);
  }

  // ----- what the report determines -----

  /** The report is fully determined. */
  lemma ReportUnique(m: PowMidstate, t: Target, start: NonceSpace, attempts: u64, r: SearchResult, s: SearchResult)
    requires m.Valid() && Describes(m, t, start, attempts, r) && Describes(m, t, start, attempts, s)
    ensures r == s
  {
    hide After, HashAt, Value, IsMetBy;
    var from := Truncated(start, NonceWords(m));
    assert r.hashes == s.hashes;
    var j: nat :| Lowest(m, from, r.hashes, r.best, r.bestAt, j);
    var k: nat :| Lowest(m, from, s.hashes, s.best, s.bestAt, k);
    if r.hashes > 0 {
      LowestUnique(m, from, r.hashes, r.best, r.bestAt, j, s.best, s.bestAt, k);
    }
  }

  lemma LowestUnique(m: PowMidstate, from: NonceSpace, n: nat, b: Hash256, at: NonceSpace, j: nat, c: Hash256, bt: NonceSpace, k: nat)
    requires m.Valid() && n > 0 && Lowest(m, from, n, b, at, j) && Lowest(m, from, n, c, bt, k)
    ensures b == c && at == bt
  {
    hide After, HashAt, Value;
    assert !IsBelow(Tried(m, from, j), c) && !IsBelow(Tried(m, from, k), b);
  }

  /** Two reports read as one: the second search's, with the counts added and the lower best kept. */
  function Joined(r: SearchResult, s: SearchResult): SearchResult
    requires r.hashes + s.hashes < TWO_64
  {
    var (best, bestAt) := if IsBelow(s.best, r.best) then (s.best, s.bestAt) else (r.best, r.bestAt);
    SearchResult(s.solution, r.hashes + s.hashes, s.next, best, bestAt)
  }

  lemma TriedOnward(m: PowMidstate, from: NonceSpace, a: nat, i: nat)
    requires m.Valid()
    ensures Tried(m, After(from, NonceWords(m), a), i) == Tried(m, from, a + i)
  {
    hide After, HashAt;
    AfterAfter(from, NonceWords(m), a, i);
  }

  lemma LowestJoins(m: PowMidstate, from: NonceSpace, a: nat, b: nat, x: Hash256, xAt: NonceSpace, j: nat, y: Hash256, yAt: NonceSpace, k: nat)
    requires m.Valid() && Lowest(m, from, a, x, xAt, j)
    requires Lowest(m, After(from, NonceWords(m), a), b, y, yAt, k)
    ensures if IsBelow(y, x) then Lowest(m, from, a + b, y, yAt, a + k)
            else Lowest(m, from, a + b, x, xAt, j) || (a == 0 && b > 0 && Lowest(m, from, b, x, xAt, 0))
  {
    hide After, HashAt, Value;
    var w, mid := NonceWords(m), After(from, NonceWords(m), a);
    AfterAfter(from, w, a, k);
    forall i: nat
      ensures Tried(m, mid, i) == Tried(m, from, a + i)
    {
      TriedOnward(m, from, a, i);
    }
    forall i: nat | a <= i < a + b
      ensures Tried(m, from, i) == Tried(m, mid, i - a)
    {
      TriedOnward(m, from, a, i - a);
    }
    if IsBelow(y, x) {
      assert b > 0 by { if b == 0 { MaximumIsMaximal(x); } }
    } else if a == 0 && b > 0 {
      MaximumIsMaximal(y);
      ValueInjective(x, y);
      if k > 0 { MaximumIsMaximal(Tried(m, mid, 0)); }
    }
  }

  /** A search that found nothing, resumed where it stopped, is one longer search. */
  lemma SearchesJoin(m: PowMidstate, t: Target, start: NonceSpace, a: u64, b: u64, r: SearchResult, s: SearchResult)
    requires m.Valid() && a + b < TWO_64 && Budget(m, a + b) == a + b
    requires Describes(m, t, start, a, r) && r.solution.None? && Describes(m, t, r.next, b, s)
    ensures Describes(m, t, start, a + b, Joined(r, s))
  {
    hide After, HashAt, Value, IsMetBy, Lowest, Truncated;
    var w := NonceWords(m);
    var from := Truncated(start, w);
    TruncationHolds(start, w, a);
    AfterAfter(from, w, a, s.hashes);
    var j: nat :| Lowest(m, from, r.hashes, r.best, r.bestAt, j);
    var k: nat :| Lowest(m, r.next, s.hashes, s.best, s.bestAt, k);
    LowestJoins(m, from, a, s.hashes, r.best, r.bestAt, j, s.best, s.bestAt, k);
    forall i: nat | a <= i < a + s.hashes
      ensures Tried(m, from, i) == Tried(m, r.next, i - a)
    {
      TriedOnward(m, from, a, i - a);
    }
    if s.solution.Some? {
      var n: nat := s.hashes - 1;
      AfterAfter(from, w, a, n);
      var q := Joined(r, s);
      assert NoneMeets(m, t, from, 0, a + n);
      var index := if IsBelow(s.best, r.best) then a + k else if Lowest(m, from, a + s.hashes, r.best, r.bestAt, j) then j else 0;
      FirstHitIsLowest(m, t, from, a + n, q.best, q.bestAt, index);
    }
  }

  lemma DistinctInputs(m: Blake2bMidstate, a: NonceSpace, b: NonceSpace)
    requires a != b
    ensures Stage4Input(m, a) != Stage4Input(m, b)
  {
    hide Stage4Input;
    if Stage4Input(m, a) == Stage4Input(m, b) { Stage4Injective(m, a, b); }
  }

  /** One search never feeds its hash the same bytes twice. */
  lemma InputsDistinct(m: Blake2bMidstate, t: Target, start: NonceSpace, attempts: u64, r: SearchResult, i: nat, j: nat)
    requires Describes(Blake2b(m), t, start, attempts, r) && i < j < r.hashes
    ensures Stage4Input(m, After(Truncated(start, 4), 4, i)) != Stage4Input(m, After(Truncated(start, 4), 4, j))
  {
    hide After, Stage4Input, Truncated, DescribesFrom;
    var from := Truncated(start, 4);
    PointsDistinct(from, 4, i, j);
    DistinctInputs(m, After(from, 4, i), After(from, 4, j));
  }

  /** Before the fork only the nonce reaches the bytes, and a search hashes each of them at most once, whatever its budget. */
  lemma LegacyInputsDistinct(header: seq<byte>, t: Target, start: NonceSpace, attempts: u64, r: SearchResult, i: nat, j: nat)
    requires |header| == 80 && Describes(Sha256d(header), t, start, attempts, r) && i < j < r.hashes
    ensures var from := Truncated(start, NonceWords(Sha256d(header)));
      header[..76] + LeBytes(After(from, NonceWords(Sha256d(header)), i).nonce, 4)
      != header[..76] + LeBytes(After(from, NonceWords(Sha256d(header)), j).nonce, 4)
  {
    hide DescribesFrom, LeBytes;
    WithinBudget(Sha256d(header), t, start, attempts, r);
    var from := Truncated(start, 1);
    var a, b := After(from, 1, i), After(from, 1, j);
    PointsDistinct(from, 1, i, j);
    OnlyNonceMoves(from, i);
    OnlyNonceMoves(from, j);
    assert (header[..76] + LeBytes(a.nonce, 4))[76..] == LeBytes(a.nonce, 4);
    assert (header[..76] + LeBytes(b.nonce, 4))[76..] == LeBytes(b.nonce, 4);
    Pow256Widths();
    if LeBytes(a.nonce, 4) == LeBytes(b.nonce, 4) { LeBytesInjective(a.nonce, b.nonce, 4); }
  }

  lemma WithinBudget(m: PowMidstate, t: Target, start: NonceSpace, attempts: u64, r: SearchResult)
    requires m.Valid() && Describes(m, t, start, attempts, r)
    ensures r.hashes <= Budget(m, attempts)
  {
    hide After, HashAt, Lowest, NoneMeets;
  }

  lemma OnlyNonceMoves(at: NonceSpace, n: nat)
    ensures After(at, 1, n) == at.(nonce := After(at, 1, n).nonce)
  {
    hide Wrapped;
  }
}

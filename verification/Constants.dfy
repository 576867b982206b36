/**
  Where the tables of the two hash functions come from: the leading fractional bits of the roots of
  the first primes, so that nobody could have chosen them.
 */
module Constants {
  import opened Bytes
  import opened Hash256
  import Blake2b
  import Sha256

  /** The first sixty-four primes, eight to a row (`RowsArePrimes`). */
  function PrimeRow(r: nat): (row: seq<nat>)
    requires r < 8
    ensures |row| == 8
  {
    match r
    case 0 => [2, 3, 5, 7, 11, 13, 17, 19]
    case 1 => [23, 29, 31, 37, 41, 43, 47, 53]
    case 2 => [59, 61, 67, 71, 73, 79, 83, 89]
    case 3 => [97, 101, 103, 107, 109, 113, 127, 131]
    case 4 => [137, 139, 149, 151, 157, 163, 167, 173]
    case 5 => [179, 181, 191, 193, 197, 199, 211, 223]
    case 6 => [227, 229, 233, 239, 241, 251, 257, 263]
    case _ => [269, 271, 277, 281, 283, 293, 307, 311]
  }

  // ----- the rows are the primes -----

  predicate IsPrime(n: nat) { n >= 2 && forall d :: 2 <= d < n ==> n % d != 0 }

  function PrimesBelow(n: nat): nat { if n == 0 then 0 else PrimesBelow(n - 1) + if IsPrime(n - 1) then 1 else 0 }

  /** `p` is a prime with `t` primes below it. */
  predicate IsNthPrime(p: nat, t: nat) { IsPrime(p) && PrimesBelow(p) == t }

  /** No factor among the primes up to 17, other than the number itself. */
  predicate Passes(n: nat)
  {
    && n >= 2 && (n % 2 != 0 || n == 2) && (n % 3 != 0 || n == 3) && (n % 5 != 0 || n == 5) && (n % 7 != 0 || n == 7)
    && (n % 11 != 0 || n == 11) && (n % 13 != 0 || n == 13) && (n % 17 != 0 || n == 17)
  }

  /** A number of at most 18 has one of those primes as a factor. */
  function SmallFactor(d: nat): (q: nat)
    requires 2 <= d <= 18
    ensures 2 <= q <= d && d % q == 0 && (q == 2 || q == 3 || q == 5 || q == 7 || q == 11 || q == 13 || q == 17)
  {
    if d % 2 == 0 then 2 else if d % 3 == 0 then 3 else d
  }

  lemma FactorOfFactor(n: nat, d: nat, q: nat)
    requires d > 0 && q > 0 && n % d == 0 && d % q == 0
    ensures n % q == 0
  {
    var a, b := n / d, d / q;
    assert n == a * d && d == b * q;
    assert n == (a * b) * q by { assert a * (b * q) == (a * b) * q; }
    DivUnique(n, q, a * b, 0);
  }

  /** A factor or its cofactor is at most 18. */
  lemma CompositeFails(n: nat, d: nat)
    requires n < 361 && 2 <= d < n && n % d == 0
    ensures !Passes(n)
  {
    var e := n / d;
    assert n == d * e;
    if d >= 19 && e >= 19 { MulMonotone(d, 19, e); assert false; }
    assert 2 <= e < n by {
      MulMonotone(e, 2, d);
    }
    DivUnique(n, e, d, 0);
    var small := if d <= 18 then d else e;
    FactorOfFactor(n, small, SmallFactor(small));
  }

  /** Up to 360, those seven divisions decide. */
  lemma PassesIsPrime(n: nat)
    requires n < 361
    ensures Passes(n) <==> IsPrime(n)
  {
    if Passes(n) {
      forall d | 2 <= d < n
        ensures n % d != 0
      {
        if n % d == 0 { CompositeFails(n, d); }
      }
    }
  }

  /** `ps` is every number from `lo` to `hi` that passes, in order. */
  predicate Lists(ps: seq<nat>, lo: nat, hi: nat)
  {
    && (forall i, j :: 0 <= i < j < |ps| ==> ps[i] < ps[j])
    && (forall i :: 0 <= i < |ps| ==> lo <= ps[i] < hi && Passes(ps[i]))
    && (forall n :: lo <= n < hi && Passes(n) ==> n in ps)
  }

  /** With `k` of the list below `x`, there are `k` primes from `lo` to `x`. */
  lemma {:induction false} CountTo(ps: seq<nat>, lo: nat, hi: nat, x: nat, k: nat)
    requires Lists(ps, lo, hi) && lo <= x <= hi <= 361 && k <= |ps|
    requires (k == 0 || ps[k - 1] < x) && (k == |ps| || x <= ps[k])
    ensures PrimesBelow(x) == PrimesBelow(lo) + k
    decreases x
  {
    hide Passes, IsPrime;
    if k > 0 { ListsAt(ps, lo, hi, k - 1); }
    if x > lo {
      PassesIsPrime(x - 1);
      PlaceOfPassing(ps, lo, hi, x - 1, k);
      hide Lists;
      CountTo(ps, lo, hi, x - 1, if Passes(x - 1) then k - 1 else k);
    }
  }

  lemma ListsAt(ps: seq<nat>, lo: nat, hi: nat, k: nat)
    requires Lists(ps, lo, hi) && k < |ps|
    ensures lo <= ps[k] < hi && Passes(ps[k]) && (k > 0 ==> ps[k - 1] < ps[k])
  {
    hide Passes;
  }

  /** A number that passes is the last listed one before its successor's place. */
  lemma PlaceOfPassing(ps: seq<nat>, lo: nat, hi: nat, n: nat, k: nat)
    requires Lists(ps, lo, hi) && lo <= n < hi && k <= |ps|
    requires (k == 0 || ps[k - 1] <= n) && (k == |ps| || n < ps[k])
    ensures Passes(n) <==> k > 0 && ps[k - 1] == n
    ensures k > 1 ==> ps[k - 2] < ps[k - 1]
  {
    hide Passes;
    if Passes(n) {
      var i :| 0 <= i < |ps| && ps[i] == n;
      assert i < k;
      if i < k - 1 { assert ps[i] < ps[k - 1]; }
    }
  }

  lemma ListsWithin(ps: seq<nat>, lo: nat, hi: nat)
    requires Lists(ps, lo, hi)
    ensures forall i :: 0 <= i < |ps| ==> lo <= ps[i] < hi && Passes(ps[i])
    ensures forall i, j :: 0 <= i < j < |ps| ==> ps[i] < ps[j]
  {
  }

  lemma ListedAreNext(ps: seq<nat>, lo: nat, hi: nat)
    requires Lists(ps, lo, hi) && lo <= hi <= 361
    ensures PrimesBelow(hi) == PrimesBelow(lo) + |ps|
    ensures forall i :: 0 <= i < |ps| ==> IsNthPrime(ps[i], PrimesBelow(lo) + i)
  {
    hide IsPrime, Passes, PrimesBelow, Lists;
    ListsWithin(ps, lo, hi);
    CountTo(ps, lo, hi, hi, |ps|);
    forall i | 0 <= i < |ps|
      ensures IsNthPrime(ps[i], PrimesBelow(lo) + i)
    {
      PassesIsPrime(ps[i]);
      CountTo(ps, lo, hi, ps[i], i);
    }
  }

  /** Where a row's primes start to be looked for. */
  function RowStart(r: nat): nat
    requires r <= 8
  {
    match r case 0 => 0 case 1 => 20 case 2 => 54 case 3 => 90 case 4 => 132 case 5 => 174 case 6 => 224 case 7 => 264 case _ => 312
  }

  /** Beyond 5, what passes is coprime to 30. */
  lemma Residues(n: nat)
    requires n > 5 && Passes(n)
    ensures var r := n % 30; r == 1 || r == 7 || r == 11 || r == 13 || r == 17 || r == 19 || r == 23 || r == 29
  {
    assert n % 2 != 0 && n % 3 != 0 && n % 5 != 0;
    hide Passes;
    var q, r := n / 30, n % 30;
    assert n == 30 * q + r;
    assert r % 2 != 0 by { DivUnique(n, 2, 15 * q + r / 2, r % 2); }
    assert r % 3 != 0 by { DivUnique(n, 3, 10 * q + r / 3, r % 3); }
    assert r % 5 != 0 by { DivUnique(n, 5, 6 * q + r / 5, r % 5); }
    SmallResidues(r);
  }

  lemma SmallResidues(r: nat)
    requires r < 30 && r % 2 != 0 && r % 3 != 0 && r % 5 != 0
    ensures r == 1 || r == 7 || r == 11 || r == 13 || r == 17 || r == 19 || r == 23 || r == 29
  {
  }

  lemma Row0Complete(n: nat)
    requires 0 <= n < 20 && Passes(n)
    ensures n in PrimeRow(0)
  {
  }

  lemma Row1Complete(n: nat)
    requires 20 <= n < 54 && Passes(n)
    ensures n in PrimeRow(1)
  {
    Residues(n);
    assert n / 30 == 0 || n / 30 == 1;
  }

  lemma Row2Complete(n: nat)
    requires 54 <= n < 90 && Passes(n)
    ensures n in PrimeRow(2)
  {
    Residues(n);
    assert n / 30 == 1 || n / 30 == 2;
  }

  lemma Row3Complete(n: nat)
    requires 90 <= n < 132 && Passes(n)
    ensures n in PrimeRow(3)
  {
    Residues(n);
    assert n / 30 == 3 || n / 30 == 4;
  }

  lemma Row4Complete(n: nat)
    requires 132 <= n < 174 && Passes(n)
    ensures n in PrimeRow(4)
  {
    Residues(n);
    assert n / 30 == 4 || n / 30 == 5;
  }

  lemma Row5Complete(n: nat)
    requires 174 <= n < 224 && Passes(n)
    ensures n in PrimeRow(5)
  {
    Residues(n);
    assert n / 30 == 5 || n / 30 == 6 || n / 30 == 7;
  }

  lemma Row6Complete(n: nat)
    requires 224 <= n < 264 && Passes(n)
    ensures n in PrimeRow(6)
  {
    Residues(n);
    assert n / 30 == 7 || n / 30 == 8;
  }

  lemma Row7Complete(n: nat)
    requires 264 <= n < 312 && Passes(n)
    ensures n in PrimeRow(7)
  {
    Residues(n);
    assert n / 30 == 8 || n / 30 == 9 || n / 30 == 10;
  }

  lemma RowComplete(r: nat, n: nat)
    requires r < 8 && RowStart(r) <= n < RowStart(r + 1) && Passes(n)
    ensures n in PrimeRow(r)
  {
    hide PrimeRow, Passes;
    match r
    case 0 => Row0Complete(n);
    case 1 => Row1Complete(n);
    case 2 => Row2Complete(n);
    case 3 => Row3Complete(n);
    case 4 => Row4Complete(n);
    case 5 => Row5Complete(n);
    case 6 => Row6Complete(n);
    case _ => Row7Complete(n);
  }

  lemma EarlyRowPasses(r: nat, i: nat)
    requires r < 4 && i < 8
    ensures RowStart(r) <= PrimeRow(r)[i] < RowStart(r + 1) && Passes(PrimeRow(r)[i])
  {
  }

  lemma LateRowPasses(r: nat, i: nat)
    requires 4 <= r < 8 && i < 8
    ensures RowStart(r) <= PrimeRow(r)[i] < RowStart(r + 1) && Passes(PrimeRow(r)[i])
  {
  }

  lemma RowIncreases(r: nat, i: nat)
    requires r < 8 && i < 7
    ensures PrimeRow(r)[i] < PrimeRow(r)[i + 1]
  {
  }

  lemma {:induction false} StepsIncrease(ps: seq<nat>, i: nat, j: nat)
    requires i < j < |ps| && forall k: nat :: k + 1 < |ps| ==> ps[k] < ps[k + 1]
    ensures ps[i] < ps[j]
  {
    if i + 1 < j { StepsIncrease(ps, i, j - 1); }
    assert ps[j - 1] < ps[j - 1 + 1];
  }

  lemma RowListed(r: nat)
    requires r < 8
    ensures Lists(PrimeRow(r), RowStart(r), RowStart(r + 1))
  {
    hide PrimeRow, Passes;
    forall k: nat | k < 7
      ensures PrimeRow(r)[k] < PrimeRow(r)[k + 1]
    {
      RowIncreases(r, k);
    }
    forall i, j | 0 <= i < j < 8
      ensures PrimeRow(r)[i] < PrimeRow(r)[j]
    {
      StepsIncrease(PrimeRow(r), i, j);
    }
    forall i | 0 <= i < 8
      ensures RowStart(r) <= PrimeRow(r)[i] < RowStart(r + 1) && Passes(PrimeRow(r)[i])
    {
      if r < 4 { EarlyRowPasses(r, i); } else { LateRowPasses(r, i); }
    }
    forall n | RowStart(r) <= n < RowStart(r + 1) && Passes(n)
      ensures n in PrimeRow(r)
    {
      RowComplete(r, n);
    }
  }

  lemma {:induction false} RowsAreNext(r: nat)
    requires r <= 8
    ensures PrimesBelow(RowStart(r)) == 8 * r
  {
    hide PrimeRow, Lists, IsNthPrime;
    if r > 0 {
      RowsAreNext(r - 1);
      RowListed(r - 1);
      hide PrimesBelow;
      ListedAreNext(PrimeRow(r - 1), RowStart(r - 1), RowStart(r));
    }
  }

  /** The rows hold exactly the first sixty-four primes, in order. */
  lemma RowsArePrimes(t: nat)
    requires t < 64
    ensures IsNthPrime(PrimeRow(t / 8)[t % 8], t)
  {
    hide PrimeRow, Lists, IsNthPrime, PrimesBelow;
    var r := t / 8;
    RowsAreNext(r);
    RowListed(r);
    ListedAreNext(PrimeRow(r), RowStart(r), RowStart(r + 1));
  }

  // ----- their roots -----

  /** The whole part of a square root, up to 24. */
  function SquareFloor(p: nat): nat { if p < 4 then 1 else if p < 9 then 2 else if p < 16 then 3 else 4 }

  /** The whole part of a cube root, up to 342. */
  function CubeFloor(p: nat): nat
  {
    if p < 8 then 1 else if p < 27 then 2 else if p < 64 then 3 else if p < 125 then 4 else if p < 216 then 5 else 6
  }

  /** `c` is the fractional part of the square root of `p`, cut after as many bits as `scale` has. */
  predicate IsSquareRootFraction(p: nat, c: nat, scale: nat)
  {
    var n := SquareFloor(p) * scale + c;
    c < scale && n * n <= p * (scale * scale) < (n + 1) * (n + 1)
  }

  predicate IsCubeRootFraction(p: nat, c: nat, scale: nat)
  {
    var n := CubeFloor(p) * scale + c;
    c < scale && n * n * n <= p * (scale * scale * scale) < (n + 1) * (n + 1) * (n + 1)
  }

  predicate AreSquareRoots32(ps: seq<nat>, cs: seq<bv32>)
  {
    |ps| == |cs| && (ps == [] || (IsSquareRootFraction(ps[0], cs[0] as nat, 0x1_0000_0000) && AreSquareRoots32(ps[1..], cs[1..])))
  }

  predicate AreSquareRoots64(ps: seq<nat>, cs: seq<bv64>)
  {
    |ps| == |cs| && (ps == [] || (IsSquareRootFraction(ps[0], cs[0] as nat, 0x1_0000_0000_0000_0000) && AreSquareRoots64(ps[1..], cs[1..])))
  }

  predicate AreCubeRoots(ps: seq<nat>, cs: seq<bv32>)
  {
    |ps| == |cs| && (ps == [] || (IsCubeRootFraction(ps[0], cs[0] as nat, 0x1_0000_0000) && AreCubeRoots(ps[1..], cs[1..])))
  }

  lemma {:induction false} SquareRootAt32(ps: seq<nat>, cs: seq<bv32>, i: nat)
    requires AreSquareRoots32(ps, cs) && i < |ps|
    ensures IsSquareRootFraction(ps[i], cs[i] as nat, TWO_32)
  {
    hide IsSquareRootFraction;
    if i > 0 { SquareRootAt32(ps[1..], cs[1..], i - 1); }
  }

  lemma {:induction false} SquareRootAt64(ps: seq<nat>, cs: seq<bv64>, i: nat)
    requires AreSquareRoots64(ps, cs) && i < |ps|
    ensures IsSquareRootFraction(ps[i], cs[i] as nat, TWO_64)
  {
    hide IsSquareRootFraction;
    if i > 0 { SquareRootAt64(ps[1..], cs[1..], i - 1); }
  }

  lemma {:induction false} CubeRootAt(ps: seq<nat>, cs: seq<bv32>, i: nat)
    requires AreCubeRoots(ps, cs) && i < |ps|
    ensures IsCubeRootFraction(ps[i], cs[i] as nat, TWO_32)
  {
    hide IsCubeRootFraction;
    if i > 0 { CubeRootAt(ps[1..], cs[1..], i - 1); }
  }

  lemma Initial32()
    ensures AreSquareRoots32(PrimeRow(0), Sha256.H0())
  {
  }

  lemma Initial64()
    ensures AreSquareRoots64(PrimeRow(0), Blake2b.IV())
  {
  }

  lemma Row0()
    ensures AreCubeRoots(PrimeRow(0), Sha256.KRow(0))
  {
  }

  lemma Row1()
    ensures AreCubeRoots(PrimeRow(1), Sha256.KRow(1))
  {
  }

  lemma Row2()
    ensures AreCubeRoots(PrimeRow(2), Sha256.KRow(2))
  {
  }

  lemma Row3()
    ensures AreCubeRoots(PrimeRow(3), Sha256.KRow(3))
  {
  }

  lemma Row4()
    ensures AreCubeRoots(PrimeRow(4), Sha256.KRow(4))
  {
  }

  lemma Row5()
    ensures AreCubeRoots(PrimeRow(5), Sha256.KRow(5))
  {
  }

  lemma Row6()
    ensures AreCubeRoots(PrimeRow(6), Sha256.KRow(6))
  {
  }

  lemma Row7()
    ensures AreCubeRoots(PrimeRow(7), Sha256.KRow(7))
  {
  }

  /** Both initial states are the square roots of the first eight primes, to 32 and to 64 bits. */
  lemma InitialStatesAreSquareRoots(i: nat)
    requires i < 8
    ensures IsNthPrime(PrimeRow(0)[i], i)
    ensures IsSquareRootFraction(PrimeRow(0)[i], Sha256.H0()[i] as nat, TWO_32)
    ensures IsSquareRootFraction(PrimeRow(0)[i], Blake2b.IV()[i] as nat, TWO_64)
  {
    hide AreSquareRoots32, AreSquareRoots64, IsSquareRootFraction, PrimeRow, IsNthPrime, Sha256.H0, Blake2b.IV;
    RowsArePrimes(i);
    Initial32();
    Initial64();
    SquareRootAt32(PrimeRow(0), Sha256.H0(), i);
    SquareRootAt64(PrimeRow(0), Blake2b.IV(), i);
  }

  lemma TableRows(t: nat)
    requires t < 64
    ensures Sha256.K[t] == Sha256.KRow(t / 8)[t % 8]
  {
    hide Sha256.KRow;
  }

  /** The sixty-four round constants of SHA-256 are the cube roots of the first sixty-four primes, to 32 bits. */
  lemma RoundConstantsAreCubeRoots(t: nat)
    requires t < 64
    ensures IsNthPrime(PrimeRow(t / 8)[t % 8], t)
    ensures IsCubeRootFraction(PrimeRow(t / 8)[t % 8], Sha256.K[t] as nat, TWO_32)
  {
    hide AreCubeRoots, IsCubeRootFraction, PrimeRow, Sha256.KRow, IsNthPrime;
    RowsArePrimes(t);
    TableRows(t);
    Row0();
    Row1();
    Row2();
    Row3();
    Row4();
    Row5();
    Row6();
    Row7();
    CubeRootAt(PrimeRow(t / 8), Sha256.KRow(t / 8), t % 8);
  }
}

/** Merkle roots, the coinbase branch, and the odd-node duplication (CVE-2012-2459). */
module Merkle {
  import opened Wrappers
  import opened Bytes
  import opened Hash256
  import Fips180
  import Sha256

  function Combine(left: Hash256, right: Hash256): Hash256 { Sha256.HashTwice(left + right) }

  /** A level with its last node repeated when it has an odd number of them. */
  function Evened(level: seq<Hash256>): (e: seq<Hash256>)
    requires level != []
    ensures level <= e && |e| == 2 * ((|level| + 1) / 2)
  {
    if |level| % 2 == 1 then level + [level[|level| - 1]] else level
  }

  lemma PairsAt(level: seq<Hash256>, n: nat)
    requires 2 * n <= |level|
    ensures var p := seq(n, i requires 0 <= i < n => Combine(level[2 * i], level[2 * i + 1]));
      forall i :: 0 <= i < n ==> p[i] == Combine(level[2 * i], level[2 * i + 1])
  {
    hide Combine;
  }

  /** The combined neighbours of the first `2 * n` nodes. */
  function Pairs(level: seq<Hash256>, n: nat): (p: seq<Hash256>)
    requires 2 * n <= |level|
    ensures |p| == n && forall i :: 0 <= i < n ==> p[i] == Combine(level[2 * i], level[2 * i + 1])
  {
    PairsAt(level, n);
    seq(n, i requires 0 <= i < n => Combine(level[2 * i], level[2 * i + 1]))
  }

  function NextLevel(level: seq<Hash256>): (next: seq<Hash256>)
    requires level != []
    ensures |next| == (|level| + 1) / 2
    ensures forall i :: 0 <= i < |next| ==> next[i] == Combine(Evened(level)[2 * i], Evened(level)[2 * i + 1])
  {
    Pairs(Evened(level), (|level| + 1) / 2)
  }

  lemma EvenedSameNext(level: seq<Hash256>)
    requires level != []
    ensures NextLevel(Evened(level)) == NextLevel(level)
  {
    hide Combine;
    assert Evened(Evened(level)) == Evened(level);
  }

  function Root(level: seq<Hash256>): Hash256
    requires level != []
    decreases |level|
  {
    if |level| == 1 then level[0] else Root(NextLevel(level))
  }

  function MerkleRoot(leaves: seq<Hash256>): Option<Hash256>
  {
    if leaves == [] then None else Some(Root(leaves))
  }

  /** The sibling of the leftmost node at every level. */
  function Branch(level: seq<Hash256>): seq<Hash256>
    requires level != []
    decreases |level|
  {
    if |level| == 1 then [] else [Evened(level)[1]] + Branch(NextLevel(level))
  }

  function FoldBranch(coinbase: Hash256, branch: seq<Hash256>): Hash256
    decreases |branch|
  {
    if branch == [] then coinbase else FoldBranch(Combine(coinbase, branch[0]), branch[1..])
  }

  lemma NextLevelOfChangedFirst(level: seq<Hash256>, first: Hash256)
    requires |level| > 1
    ensures Evened(level[0 := first])[1] == Evened(level)[1]
    ensures NextLevel(level[0 := first]) == NextLevel(level)[0 := Combine(first, Evened(level)[1])]
  {
    hide Combine;
    assert Evened(level[0 := first]) == Evened(level)[0 := first];
  }

  /** At every tree size the branch is blind to the coinbase and folds any coinbase up to the right root. */
  lemma {:induction false} BranchFoldsToRoot(leaves: seq<Hash256>, coinbase: Hash256)
    requires leaves != []
    ensures Branch(leaves[0 := coinbase]) == Branch(leaves)
    ensures FoldBranch(coinbase, Branch(leaves)) == Root(leaves[0 := coinbase])
    decreases |leaves|
  {
    hide Combine;
    if |leaves| > 1 {
      NextLevelOfChangedFirst(leaves, coinbase);
      BranchFoldsToRoot(NextLevel(leaves), Combine(coinbase, Evened(leaves)[1]));
    }
  }

  lemma FirstLeafUnchanged(leaves: seq<Hash256>)
    requires leaves != []
    ensures FoldBranch(leaves[0], Branch(leaves)) == Root(leaves)
  {
    BranchFoldsToRoot(leaves, leaves[0]);
    assert leaves[0 := leaves[0]] == leaves;
  }

  /** One step of the duplication: an even level hands a doubled tail of half the width to the next. */
  lemma DoubledTailStep(level: seq<Hash256>, width: nat)
    requires 0 < width && width % 2 == 0 && |level| % 2 == 0 && width <= |level|
    ensures var next := NextLevel(level);
      NextLevel(level + level[|level| - width..]) == next + next[|next| - width / 2..]
  {
    hide Combine;
    var longer := level + level[|level| - width..];
    var next := NextLevel(level);
    var expected := next + next[|next| - width / 2..];
    assert |NextLevel(longer)| == |expected|;
    forall i | 0 <= i < |expected|
      ensures NextLevel(longer)[i] == expected[i]
    {
      if i >= |next| {
        var j := i - width / 2;
        assert longer[2 * i] == level[2 * j] && longer[2 * i + 1] == level[2 * j + 1];
      }
    }
  }

  lemma OddTailDuplicated(level: seq<Hash256>)
    requires |level| % 2 == 1
    ensures NextLevel(level + level[|level| - 1..]) == NextLevel(level)
  {
    assert level + level[|level| - 1..] == Evened(level);
  }

  /** CVE-2012-2459 in full: a tree of m * 2^k leaves, m odd and above one, keeps its root when its last 2^k leaves are appended again. */
  lemma {:induction false} DuplicatedTailKeepsRoot(leaves: seq<Hash256>, m: nat, k: nat)
    requires m >= 3 && m % 2 == 1 && |leaves| == m * Pow2(k)
    ensures Pow2(k) <= |leaves|
    ensures Root(leaves + leaves[|leaves| - Pow2(k)..]) == Root(leaves)
    decreases k
  {
    hide Combine, NextLevel, Evened, Root, Pow2;
    HalfCount(m, k);
    if k == 0 {
      OddTailDuplicated(leaves);
      RootAbove(leaves);
      RootAbove(leaves + leaves[|leaves| - 1..]);
    } else {
      TailRoots(leaves, Pow2(k - 1));
      DuplicatedTailKeepsRoot(NextLevel(leaves), m, k - 1);
    }
  }

  /** Over an even level the two roots are those of the level above, with a tail of half the width. */
  lemma TailRoots(level: seq<Hash256>, half: nat)
    requires half > 0 && |level| % 2 == 0 && 2 * half <= |level|
    ensures var next := NextLevel(level);
      && |next| == |level| / 2 && Root(level) == Root(next)
      && Root(level + level[|level| - 2 * half..]) == Root(next + next[|next| - half..])
  {
    hide Combine, NextLevel, Evened, Root;
    DoubledTailStep(level, 2 * half);
    RootAbove(level);
    RootAbove(level + level[|level| - 2 * half..]);
  }

  lemma SingleRoot(level: seq<Hash256>)
    requires |level| == 1
    ensures Root(level) == level[0]
  {
  }

  lemma RootAbove(level: seq<Hash256>)
    requires |level| > 1
    ensures Root(level) == Root(NextLevel(level))
  {
    hide NextLevel;
  }

  lemma HalfCount(m: nat, k: nat)
    requires m >= 3
    ensures 3 * Pow2(k) <= m * Pow2(k)
    ensures if k == 0 then Pow2(k) == 1 && m * Pow2(k) == m
            else Pow2(k) == 2 * Pow2(k - 1) && m * Pow2(k) == 2 * (m * Pow2(k - 1))
  {
    MulMonotone(Pow2(k), 3, m);
    if k > 0 { assert m * (2 * Pow2(k - 1)) == 2 * (m * Pow2(k - 1)); }
  }

  predicate IsCollision(a: (Hash256, Hash256), b: (Hash256, Hash256))
  {
    a != b && Combine(a.0, a.1) == Combine(b.0, b.1)
  }

  lemma CollidingPair(a: seq<Hash256>, b: seq<Hash256>)
    returns (left: (Hash256, Hash256), right: (Hash256, Hash256))
    requires |a| == |b| > 0 && a != b && NextLevel(a) == NextLevel(b)
    ensures IsCollision(left, right)
  {
    hide Combine;
    var i :| 0 <= i < |a| && a[i] != b[i];
    var j := i / 2;
    var ea, eb := Evened(a), Evened(b);
    assert ea[i] == a[i] && eb[i] == b[i] && (i == 2 * j || i == 2 * j + 1);
    assert NextLevel(a)[j] == NextLevel(b)[j];
    left, right := (ea[2 * j], ea[2 * j + 1]), (eb[2 * j], eb[2 * j + 1]);
  }

  /** Two different lists of one length with one root exhibit a collision of the node hash. */
  lemma {:induction false} EqualRootsCollide(a: seq<Hash256>, b: seq<Hash256>)
    returns (left: (Hash256, Hash256), right: (Hash256, Hash256))
    requires |a| == |b| > 0 && Root(a) == Root(b)
    ensures a == b || IsCollision(left, right)
    decreases |a|
  {
    hide Combine, NextLevel, Evened;
    left, right := (ZERO, ZERO), (ZERO, ZERO);
    if a == b || |a| == 1 { return; }
    left, right := EqualRootsCollide(NextLevel(a), NextLevel(b));
    if NextLevel(a) == NextLevel(b) {
      left, right := CollidingPair(a, b);
    }
  }

  // ----- an independent definition, node by node -----

  /** How many nodes stand at a height over `n` leaves: half as many as below, rounded up. */
  function Width(n: nat, height: nat): nat { if height == 0 then n else (Width(n, height - 1) + 1) / 2 }

  /** The standard's hash, twice, of the left child and then the right. */
  function Parent(left: Hash256, right: Hash256): Hash256 { Fips180.Hash(Fips180.Hash(left + right)) }

  lemma CombineIsStandard(left: Hash256, right: Hash256)
    ensures Combine(left, right) == Parent(left, right)
  {
    hide Sha256.HashTwice, Fips180.Hash;
    Fips180.SameHashTwice(left + right);
  }

  /** The right child of a node, or the left again when the level below ends there. */
  function Right(i: nat, below: nat): (r: nat)
    requires 2 * i < below
    ensures r < below
  {
    if 2 * i + 1 < below then 2 * i + 1 else 2 * i
  }

  /** The i-th node at a height, straight from the leaves below it; a missing right half repeats the left. */
  function Node(parent: (Hash256, Hash256) -> Hash256, leaves: seq<Hash256>, height: nat, i: nat): Hash256
    requires i < Width(|leaves|, height)
    decreases height
  {
    if height == 0 then leaves[i]
    else parent(Node(parent, leaves, height - 1, 2 * i), Node(parent, leaves, height - 1, Right(i, Width(|leaves|, height - 1))))
  }

  /** Which is n / 2^height, rounded up. */
  lemma {:induction false} WidthIsRounded(n: nat, height: nat)
    ensures Width(n, height) == (n + Pow2(height) - 1) / Pow2(height)
  {
    if height > 0 {
      WidthIsRounded(n, height - 1);
      RoundedHalves(n, Pow2(height - 1));
    }
  }

  lemma RoundedHalves(n: nat, p: nat)
    requires p > 0
    ensures (n + 2 * p - 1) / (2 * p) == ((n + p - 1) / p + 1) / 2
  {
    var q, r := (n + p - 1) / p, (n + p - 1) % p;
    var h, odd := (q + 1) / 2, (q + 1) % 2;
    assert n + p - 1 == p * q + r;
    assert p * (q + 1) == p * q + p && q + 1 == 2 * h + odd;
    assert p * (2 * h + odd) == (2 * p) * h + p * odd;
    assert odd == 0 ==> p * odd == 0;
    assert odd == 1 ==> p * odd == p;
    DivUnique(n + 2 * p - 1, 2 * p, h, p * odd + r);
  }

  /** One level up, every node is the node above it. */
  lemma {:induction false} NodeOverNext(leaves: seq<Hash256>, height: nat, i: nat)
    requires leaves != [] && i < Width(|leaves|, height + 1)
    ensures i < Width(|NextLevel(leaves)|, height) && Node(Parent, leaves, height + 1, i) == Node(Parent, NextLevel(leaves), height, i)
    decreases height
  {
    hide Combine, Parent, NextLevel, Evened, Right;
    SameWidth(|leaves|, height);
    if height == 0 {
      BottomNode(leaves, i);
    } else {
      NodeOverNext(leaves, height - 1, 2 * i);
      SameWidth(|leaves|, height - 1);
      NodeOverNext(leaves, height - 1, Right(i, Width(|leaves|, height)));
    }
  }

  lemma BottomNode(leaves: seq<Hash256>, i: nat)
    requires leaves != [] && i < Width(|leaves|, 1)
    ensures i < Width(|NextLevel(leaves)|, 0) && Node(Parent, leaves, 1, i) == Node(Parent, NextLevel(leaves), 0, i)
  {
    hide Combine, Parent;
    var level := Evened(leaves);
    CombineIsStandard(level[2 * i], level[2 * i + 1]);
  }

  lemma {:induction false} SameWidth(n: nat, height: nat)
    ensures Width(n, height + 1) == Width((n + 1) / 2, height)
  {
    if height > 0 { SameWidth(n, height - 1); }
  }

  /** The height at which one node is left. */
  function Height(n: nat): (h: nat)
    requires n > 0
  {
    if n == 1 then 0 else 1 + Height((n + 1) / 2)
  }

  /** Collapsing level by level reaches the one node of the top height, whatever the number of leaves. */
  lemma {:induction false} RootIsTopNode(leaves: seq<Hash256>)
    requires leaves != []
    ensures Width(|leaves|, Height(|leaves|)) == 1 && Root(leaves) == Node(Parent, leaves, Height(|leaves|), 0)
    decreases |leaves|
  {
    hide Combine, Node, NextLevel;
    if |leaves| == 1 {
      OneLeaf(leaves);
    } else {
      var next := NextLevel(leaves);
      RootIsTopNode(next);
      SameWidth(|leaves|, Height(|next|));
      NodeOverNext(leaves, Height(|next|), 0);
    }
  }

  lemma OneLeaf(leaves: seq<Hash256>)
    requires |leaves| == 1
    ensures Width(1, 0) == 1 && Node(Parent, leaves, 0, 0) == leaves[0]
  {
  }

  // ----- the loops -----

  method CombinePairs(level: seq<Hash256>) returns (next: seq<Hash256>)
    requires level != [] && |level| % 2 == 0
    ensures next == NextLevel(level)
  {
    hide Combine;
    next := [];
    for i := 0 to |level| / 2
      invariant |next| == i
      invariant forall j :: 0 <= j < i ==> next[j] == Combine(level[2 * j], level[2 * j + 1])
    {
      next := next + [Combine(level[2 * i], level[2 * i + 1])];
    }
  }

  method ComputeRoot(leaves: seq<Hash256>) returns (root: Option<Hash256>)
    ensures root == MerkleRoot(leaves)
  {
    hide Combine, NextLevel, Root;
    if leaves == [] { return None; }
    var level := leaves;
    while |level| > 1
      invariant level != [] && Root(level) == Root(leaves)
      decreases |level|
    {
      ghost var before := level;
      RootAbove(level);
      if |level| % 2 == 1 {
        level := level + [level[|level| - 1]];
      }
      assert level == Evened(before);
      EvenedSameNext(before);
      level := CombinePairs(level);
    }
    SingleRoot(level);
    return Some(level[0]);
  }

  lemma BranchAbove(level: seq<Hash256>)
    requires |level| > 1
    ensures Branch(level) == [Evened(level)[1]] + Branch(NextLevel(level))
  {
    hide NextLevel;
  }

  lemma BranchEnds(level: seq<Hash256>)
    requires |level| == 1
    ensures Branch(level) == []
  {
  }

  method CoinbaseBranch(leaves: seq<Hash256>) returns (branch: seq<Hash256>)
    ensures branch == if leaves == [] then [] else Branch(leaves)
  {
    hide Combine, NextLevel, Branch;
    branch := [];
    if leaves == [] { return; }
    var level := leaves;
    assert [] + Branch(leaves) == Branch(leaves);
    while |level| > 1
      invariant level != [] && branch + Branch(level) == Branch(leaves)
      decreases |level|
    {
      ghost var before := level;
      if |level| % 2 == 1 {
        level := level + [level[|level| - 1]];
      }
      assert level == Evened(before);
      BranchAbove(before);
      Regroup(branch, [level[1]], Branch(NextLevel(before)));
      branch := branch + [level[1]];
      EvenedSameNext(before);
      level := CombinePairs(level);
    }
    BranchEnds(level);
    assert branch + [] == branch;
  }

  method RootFromCoinbaseBranch(coinbase: Hash256, branch: seq<Hash256>) returns (root: Hash256)
    ensures root == FoldBranch(coinbase, branch)
  {
    hide Combine;
    root := coinbase;
    for i := 0 to |branch|
      invariant FoldBranch(root, branch[i..]) == FoldBranch(coinbase, branch)
    {
      assert branch[i..][1..] == branch[i + 1..];
      root := Combine(root, branch[i]);
    }
  }
}

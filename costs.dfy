/** FLOP counts. An instance d0..dL gives matrix i the size d[i] x d[i+1]. The cost of a merge
    order is the sum, over its joins in the order they are performed, of the multiplication each
    one performs (what Algorithm::computeFlops adds up, src/algorithm.cpp:15-26); the cost of a
    merge tree is the sum over its nodes. The two agree, so the cost depends only on the
    parenthesisation and canonicalisation keeps it. */
module Costs {
  import opened Definitions
  import opened MergeTrees
  import opened Groups

  /** FLOPs of multiplying an m x k matrix by a k x n one (src/algorithm.cpp:64-68), exact. */
  function CostMult(m: nat, k: nat, n: nat): nat {
    m * k * n
  }

  /** The multiplication performed by the s-th join p of perm: it multiplies the group ending at
      matrix p-1 by the group starting at matrix p, a d[lo] x d[p] by a d[p] x d[hi+1] product. */
  function StepCost(perm: seq<nat>, d: Instance, s: nat): nat
    requires JoinsInRange(perm) && |d| >= |perm| + 2 && s < |perm|
  {
    var P, p, L := perm[..s], perm[s], |perm|;
    CostMult(d[LoBound(P, p - 1)], d[p], d[HiBound(P, p, L) + 1])
  }

  /** The cost of the first m joins of perm. */
  function SeqCost(perm: seq<nat>, d: Instance, m: nat): nat
    requires JoinsInRange(perm) && |d| >= |perm| + 2 && m <= |perm|
  {
    if m == 0 then 0 else SeqCost(perm, d, m - 1) + StepCost(perm, d, m - 1)
  }

  /** The FLOPs of the merge order perm on instance d. */
  function Flops(perm: seq<nat>, d: Instance): nat
    requires JoinsInRange(perm) && |d| >= |perm| + 2
  {
    SeqCost(perm, d, |perm|)
  }

  /** The FLOPs of a parenthesisation t of matrices lo..hi: each node multiplies a d[lo] x d[j]
      product by a d[j] x d[hi+1] one. */
  function TreeCost(t: Tree, lo: nat, hi: nat, d: Instance): nat
    requires WellFormed(t, lo, hi) && hi + 1 < |d|
  {
    match t
    case Leaf(_) => 0
    case Node(j, l, r) => TreeCost(l, lo, j - 1, d) + TreeCost(r, j, hi, d) + CostMult(d[lo], d[j], d[hi + 1])
  }

  /** The cost of those of the first m joins of perm that lie in (lo, hi]. */
  function SumIn(perm: seq<nat>, d: Instance, lo: nat, hi: nat, m: nat): nat
    requires JoinsInRange(perm) && |d| >= |perm| + 2 && m <= |perm|
  {
    if m == 0 then 0
    else SumIn(perm, d, lo, hi, m - 1) + (if lo < perm[m - 1] <= hi then StepCost(perm, d, m - 1) else 0)
  }

  /* ---------------------------------------------------------------------------------------- */

  lemma {:induction false} SumInEmpty(perm: seq<nat>, d: Instance, lo: nat, hi: nat, m: nat)
    requires JoinsInRange(perm) && |d| >= |perm| + 2 && m <= |perm|
    requires forall i :: 0 <= i < m ==> !(lo < perm[i] <= hi)
    ensures SumIn(perm, d, lo, hi, m) == 0
  {
    if m > 0 {
      SumInEmpty(perm, d, lo, hi, m - 1);
    }
  }

  /** Splitting (lo, hi] at the join j performed at position k. */
  lemma {:induction false} SumInSplit(perm: seq<nat>, d: Instance, lo: nat, j: nat, hi: nat, k: nat, m: nat)
    requires JoinsInRange(perm) && |d| >= |perm| + 2 && m <= |perm|
    requires lo < j <= hi && k < |perm| && perm[k] == j
    requires forall i :: 0 <= i < m && i != k ==> perm[i] != j
    ensures SumIn(perm, d, lo, hi, m) ==
      SumIn(perm, d, lo, j - 1, m) + SumIn(perm, d, j, hi, m) + (if k < m then StepCost(perm, d, k) else 0)
  {
    if m > 0 {
      SumInSplit(perm, d, lo, j, hi, k, m - 1);
    }
  }

  lemma {:induction false} SumInAll(perm: seq<nat>, d: Instance, m: nat)
    requires JoinsInRange(perm) && |d| >= |perm| + 2 && m <= |perm|
    ensures SumIn(perm, d, 0, |perm|, m) == SeqCost(perm, d, m)
  {
    if m > 0 {
      SumInAll(perm, d, m - 1);
    }
  }

  /** The tree built for (lo, hi] is well formed and costs what perm's joins in (lo, hi] cost. */
  ghost predicate BuildCosts(perm: Permutation, d: Instance, lo: nat, hi: nat)
    requires JoinsInRange(perm) && |d| >= |perm| + 2 && lo <= hi <= |perm|
  {
    WellFormed(Build(perm, lo, hi), lo, hi) &&
    TreeCost(Build(perm, lo, hi), lo, hi, d) == SumIn(perm, d, lo, hi, |perm|)
  }

  /** The joins of a delimited sub-tree of perm's merge tree cost, in perm's order, what the
      sub-tree costs. */
  lemma {:induction false} BuildCost(perm: Permutation, d: Instance, lo: nat, hi: nat)
    requires JoinsInRange(perm) && Distinct(perm) && |d| >= |perm| + 2
    requires lo <= hi <= |perm| && Delimited(perm, lo, hi, |perm|) && Covers(perm, lo, hi)
    ensures BuildCosts(perm, d, lo, hi)
    decreases hi - lo
  {
    var k := LastIn(perm, lo, hi);
    if k < 0 {
      BuildWellFormed(perm, lo, hi);
      SumInEmpty(perm, d, lo, hi, |perm|);
    } else {
      var j := perm[k];
      DelimitedChildren(perm, lo, hi, |perm|);
      BuildCost(perm, d, lo, j - 1);
      BuildCost(perm, d, j, hi);
      BuildCostNode(perm, d, lo, hi, k, j);
    }
  }

  /** The node step of BuildCost: the root's own multiplication is the step cost of the join
      performed at LastIn(perm, lo, hi). */
  lemma {:induction false} BuildCostNode(perm: Permutation, d: Instance, lo: nat, hi: nat, k: nat, j: nat)
    requires JoinsInRange(perm) && Distinct(perm) && |d| >= |perm| + 2
    requires lo <= hi <= |perm| && Delimited(perm, lo, hi, |perm|) && Covers(perm, lo, hi)
    requires k == LastIn(perm, lo, hi) && j == perm[k] && lo < j <= hi
    requires BuildCosts(perm, d, lo, j - 1) && BuildCosts(perm, d, j, hi)
    ensures BuildCosts(perm, d, lo, hi)
  {
    BuildNodeCost(perm, lo, hi, d);
    SumInRoot(perm, d, lo, hi);
  }

  /** A built tree costs what its two sub-trees cost plus its root's multiplication. */
  lemma {:induction false} BuildNodeCost(s: seq<nat>, lo: nat, hi: nat, d: Instance)
    requires hi + 1 < |d| && LastIn(s, lo, hi) >= 0
    requires var j := s[LastIn(s, lo, hi)];
      WellFormed(Build(s, lo, j - 1), lo, j - 1) && WellFormed(Build(s, j, hi), j, hi)
    ensures var j := s[LastIn(s, lo, hi)];
      WellFormed(Build(s, lo, hi), lo, hi) &&
      TreeCost(Build(s, lo, hi), lo, hi, d) ==
        TreeCost(Build(s, lo, j - 1), lo, j - 1, d) + TreeCost(Build(s, j, hi), j, hi, d) + CostMult(d[lo], d[j], d[hi + 1])
  {
    var j := s[LastIn(s, lo, hi)];
    var l, r := Build(s, lo, j - 1), Build(s, j, hi);
    assert Build(s, lo, hi) == Node(j, l, r);
    NodeCost(j, l, r, lo, hi, d);
  }

  /** The joins of a delimited group cost, in perm's order, what its two halves cost plus the
      multiplication of its root join. */
  lemma {:induction false} SumInRoot(perm: Permutation, d: Instance, lo: nat, hi: nat)
    requires JoinsInRange(perm) && Distinct(perm) && |d| >= |perm| + 2
    requires lo <= hi <= |perm| && Delimited(perm, lo, hi, |perm|) && Covers(perm, lo, hi)
    requires LastIn(perm, lo, hi) >= 0
    ensures var j := perm[LastIn(perm, lo, hi)];
      SumIn(perm, d, lo, hi, |perm|) ==
        SumIn(perm, d, lo, j - 1, |perm|) + SumIn(perm, d, j, hi, |perm|) + CostMult(d[lo], d[j], d[hi + 1])
  {
    var k := LastIn(perm, lo, hi);
    RootStepCost(perm, d, lo, hi);
    SumInSplit(perm, d, lo, perm[k], hi, k, |perm|);
  }

  lemma {:induction false} NodeCost(j: nat, l: Tree, r: Tree, lo: nat, hi: nat, d: Instance)
    requires lo < j <= hi && hi + 1 < |d| && WellFormed(l, lo, j - 1) && WellFormed(r, j, hi)
    ensures WellFormed(Node(j, l, r), lo, hi)
    ensures TreeCost(Node(j, l, r), lo, hi, d) ==
      TreeCost(l, lo, j - 1, d) + TreeCost(r, j, hi, d) + CostMult(d[lo], d[j], d[hi + 1])
  {
  }

  /** The join that closes a delimited group lo..hi multiplies a d[lo] x d[j] product by a
      d[j] x d[hi+1] one. */
  lemma {:induction false} RootStepCost(perm: Permutation, d: Instance, lo: nat, hi: nat)
    requires JoinsInRange(perm) && Distinct(perm) && |d| >= |perm| + 2
    requires lo <= hi <= |perm| && Delimited(perm, lo, hi, |perm|) && Covers(perm, lo, hi)
    requires LastIn(perm, lo, hi) >= 0
    ensures var k := LastIn(perm, lo, hi);
      StepCost(perm, d, k) == CostMult(d[lo], d[perm[k]], d[hi + 1])
  {
    RootBounds(perm, lo, hi, |perm|);
  }

  /** What computeFlops adds up is the cost of the merge tree the permutation denotes. */
  lemma {:induction false} FlopsIsTreeCost(perm: Permutation, d: Instance)
    requires IsPermutation(perm, |perm|) && |d| >= |perm| + 2
    ensures JoinsInRange(perm) && WellFormed(MergeTree(perm), 0, |perm|) &&
            Flops(perm, d) == TreeCost(MergeTree(perm), 0, |perm|, d)
  {
    PermutationCovers(perm, |perm|);
    assert Delimited(perm, 0, |perm|, |perm|);
    BuildCost(perm, d, 0, |perm|);
    SumInAll(perm, d, |perm|);
  }

  /** Two merge orders with the same parenthesisation cost the same on every instance. */
  lemma {:induction false} SameTreeSameFlops(p: Permutation, q: Permutation, d: Instance)
    requires IsPermutation(p, |p|) && IsPermutation(q, |q|) && |p| == |q| && |d| >= |p| + 2
    requires MergeTree(p) == MergeTree(q)
    ensures JoinsInRange(p) && JoinsInRange(q) && Flops(p, d) == Flops(q, d)
  {
    FlopsIsTreeCost(p, d);
    FlopsIsTreeCost(q, d);
  }

  /** Canonicalisation keeps the FLOP count on every instance. */
  lemma {:induction false} CanonicalSameFlops(perm: Permutation, d: Instance)
    requires IsPermutation(perm, |perm|) && |d| >= |perm| + 2
    ensures JoinsInRange(perm) && |Canonical(perm)| == |perm| && JoinsInRange(Canonical(perm)) &&
            Flops(Canonical(perm), d) == Flops(perm, d)
  {
    CanonicalIsPermutation(perm);
    CanonicalKeepsTree(perm);
    SameTreeSameFlops(Canonical(perm), perm, d);
  }

  /** The two parenthesisations of a chain of three matrices 10x20, 20x30, 30x5:
      (A0 A1) A2 costs 6000 + 1500, A0 (A1 A2) costs 3000 + 1000. */
  lemma {:induction false} FlopsExample()
    ensures Flops([1, 2], [10, 20, 30, 5]) == 7500
    ensures Flops([2, 1], [10, 20, 30, 5]) == 4000
  {
    assert [1, 2][..1] == [1] && [2, 1][..1] == [2];
    assert [1, 2][..0] == [] && [2, 1][..0] == [];
  }
}

/** The algebra behind the whole system: a merge order over the join identifiers 1..L of a chain of
    L+1 matrices determines a binary merge tree (a parenthesisation), the tree determines its
    post-order (the canonical merge order) and its FLOP cost on an instance. The canonicaliser
    (src/permutation.cpp) and the tree builder (src/algorithm.cpp) are both proved against the
    functions of this module.

    Join j multiplies the product that ends with matrix j-1 by the product that starts with
    matrix j; the dimension the two share is d[j]. */
module MergeTrees {
  import opened Definitions

  /** Leaf i is matrix i; Node(j, l, r) is the multiplication at join j of l's product by r's. */
  datatype Tree = Leaf(matrix: nat) | Node(join: nat, left: Tree, right: Tree)

  /** The join performed at the root, or -1 for a single matrix (the table's "no dependency"). */
  function RootJoin(t: Tree): int {
    match t
    case Leaf(_) => -1
    case Node(j, _, _) => j
  }

  /** t parenthesises exactly the matrices lo..hi: its joins are lo+1..hi and every node splits
      its range at its own join. */
  predicate WellFormed(t: Tree, lo: nat, hi: nat) {
    match t
    case Leaf(i) => i == lo && lo == hi
    case Node(j, l, r) => lo < j <= hi && WellFormed(l, lo, j - 1) && WellFormed(r, j, hi)
  }

  /** Every join of (lo, hi] occurs in s. */
  ghost predicate Covers(s: seq<nat>, lo: nat, hi: nat) {
    forall x :: lo < x <= hi ==> x in s
  }

  /** The position in s of the last join of (lo, hi] that s performs, or -1 if it performs none. */
  function LastIn(s: seq<nat>, lo: nat, hi: nat): (k: int)
    ensures -1 <= k < |s|
    ensures k >= 0 ==> lo < s[k] <= hi
  {
    if s == [] then -1
    else if lo < s[|s| - 1] <= hi then |s| - 1
    else LastIn(s[..|s| - 1], lo, hi)
  }

  /** No join after position LastIn(s, lo, hi) lies in (lo, hi]. */
  lemma {:induction false} LastInIsLast(s: seq<nat>, lo: nat, hi: nat)
    ensures forall i :: LastIn(s, lo, hi) < i < |s| ==> !(lo < s[i] <= hi)
  {
    if s != [] && !(lo < s[|s| - 1] <= hi) {
      LastInIsLast(s[..|s| - 1], lo, hi);
    }
  }

  /** The merge tree that the merge order s builds over matrices lo..hi: the join of (lo, hi]
      performed last multiplies the product of lo..j-1 by the product of j..hi. */
  function Build(s: seq<nat>, lo: nat, hi: nat): Tree
    decreases hi - lo
  {
    var k := LastIn(s, lo, hi);
    if k < 0 then Leaf(lo)
    else Node(s[k], Build(s, lo, s[k] - 1), Build(s, s[k], hi))
  }

  /** The parenthesisation a merge order denotes: its tree over the whole chain 0..|perm|. */
  function MergeTree(perm: Permutation): Tree {
    Build(perm, 0, |perm|)
  }

  /** Post-order: both subtrees' joins (left, then right) before the root's. */
  function Post(t: Tree): seq<nat> {
    match t
    case Leaf(_) => []
    case Node(j, l, r) => Post(l) + Post(r) + [j]
  }

  /** The canonical representative of perm's parenthesisation. */
  function Canonical(perm: Permutation): Permutation {
    Post(MergeTree(perm))
  }

  /* ---------------------------------------------------------------------------------------- */
  /* Well-formedness and the canonical permutation                                             */

  lemma {:induction false} BuildWellFormed(s: seq<nat>, lo: nat, hi: nat)
    requires lo <= hi && Covers(s, lo, hi)
    ensures WellFormed(Build(s, lo, hi), lo, hi)
    decreases hi - lo
  {
    if lo < hi {
      CoveredHasLast(s, lo, hi);
      var k := LastIn(s, lo, hi);
      BuildWellFormed(s, lo, s[k] - 1);
      BuildWellFormed(s, s[k], hi);
    }
  }

  /** A non-empty range all of whose joins occur has a last one. */
  lemma {:induction false} CoveredHasLast(s: seq<nat>, lo: nat, hi: nat)
    requires lo < hi && Covers(s, lo, hi)
    ensures LastIn(s, lo, hi) >= 0
  {
    LastInIsLast(s, lo, hi);
    assert hi in s;
    var i :| 0 <= i < |s| && s[i] == hi;
  }

  /** The post-order of a parenthesisation of lo..hi uses each join of (lo, hi] exactly once. */
  lemma {:induction false} PostPermutes(t: Tree, lo: nat, hi: nat)
    requires WellFormed(t, lo, hi)
    ensures |Post(t)| == hi - lo && Distinct(Post(t))
    ensures forall x :: x in Post(t) ==> lo < x <= hi
  {
    match t
    case Leaf(_) =>
    case Node(j, l, r) =>
      PostPermutes(l, lo, j - 1);
      PostPermutes(r, j, hi);
      DistinctConcat(Post(l), Post(r), j);
  }

  /** Joining two distinct sequences over separated ranges, and a join between them. */
  lemma {:induction false} DistinctConcat(a: seq<nat>, b: seq<nat>, j: nat)
    requires Distinct(a) && Distinct(b)
    requires forall x :: x in a ==> x < j
    requires forall x :: x in b ==> j < x
    ensures Distinct(a + b + [j])
  {
    var s := a + b + [j];
    forall i, k | 0 <= i < k < |s| ensures s[i] != s[k] {
      if k < |a| {
        assert s[i] == a[i] && s[k] == a[k];
      } else if i < |a| {
        assert s[i] in a;
        assert s[k] == j || s[k] in b;
      } else if k < |a| + |b| {
        assert s[i] == b[i - |a|] && s[k] == b[k - |a|];
      } else {
        assert s[i] in b;
      }
    }
  }

  /** Every join of 1..|perm| occurs in a permutation, so its tree is a parenthesisation. */
  lemma {:induction false} MergeTreeWellFormed(perm: Permutation)
    requires IsPermutation(perm, |perm|)
    ensures Covers(perm, 0, |perm|)
    ensures WellFormed(MergeTree(perm), 0, |perm|)
  {
    PermutationCovers(perm, |perm|);
    BuildWellFormed(perm, 0, |perm|);
  }

  /** The canonical form of a permutation is again a permutation of the same identifiers. */
  lemma {:induction false} CanonicalIsPermutation(perm: Permutation)
    requires IsPermutation(perm, |perm|)
    ensures |Canonical(perm)| == |perm|
    ensures IsPermutation(Canonical(perm), |perm|)
  {
    MergeTreeWellFormed(perm);
    var c := Canonical(perm);
    PostPermutes(MergeTree(perm), 0, |perm|);
    assert forall i :: 0 <= i < |c| ==> c[i] in c;
  }

  /* ---------------------------------------------------------------------------------------- */
  /* A merge tree depends only on the joins of its range                                        */

  lemma {:induction false} LastInSuffix(a: seq<nat>, b: seq<nat>, lo: nat, hi: nat)
    requires forall x :: x in b ==> !(lo < x <= hi)
    ensures LastIn(a + b, lo, hi) == LastIn(a, lo, hi)
    decreases |b|
  {
    if b != [] {
      var b' := b[..|b| - 1];
      assert a + b == (a + b') + [b[|b| - 1]];
      assert (a + b)[..|a + b| - 1] == a + b';
      assert b[|b| - 1] in b;
      assert forall x :: x in b' ==> x in b;
      LastInSuffix(a, b', lo, hi);
    } else {
      assert a + b == a;
    }
  }

  lemma {:induction false} LastInPrefix(a: seq<nat>, b: seq<nat>, lo: nat, hi: nat)
    requires forall x :: x in a ==> !(lo < x <= hi)
    ensures LastIn(a + b, lo, hi) == if LastIn(b, lo, hi) < 0 then -1 else |a| + LastIn(b, lo, hi)
    decreases |b|
  {
    if b != [] {
      var b' := b[..|b| - 1];
      assert a + b == (a + b') + [b[|b| - 1]];
      assert (a + b)[..|a + b| - 1] == a + b';
      LastInPrefix(a, b', lo, hi);
    } else {
      assert a + b == a;
      LastInNone(a, lo, hi);
    }
  }

  lemma {:induction false} LastInNone(a: seq<nat>, lo: nat, hi: nat)
    requires forall x :: x in a ==> !(lo < x <= hi)
    ensures LastIn(a, lo, hi) == -1
    decreases |a|
  {
    if a != [] {
      var a' := a[..|a| - 1];
      assert a[|a| - 1] in a;
      forall x | x in a' ensures !(lo < x <= hi) {
        var i :| 0 <= i < |a'| && a'[i] == x;
        assert a[i] == x;
        assert x in a;
      }
      LastInNone(a', lo, hi);
    }
  }

  lemma {:induction false} BuildIgnoresSuffix(a: seq<nat>, b: seq<nat>, lo: nat, hi: nat)
    requires forall x :: x in b ==> !(lo < x <= hi)
    ensures Build(a + b, lo, hi) == Build(a, lo, hi)
    decreases hi - lo
  {
    LastInSuffix(a, b, lo, hi);
    var k := LastIn(a, lo, hi);
    if k >= 0 {
      assert (a + b)[k] == a[k];
      BuildIgnoresSuffix(a, b, lo, a[k] - 1);
      BuildIgnoresSuffix(a, b, a[k], hi);
    }
  }

  lemma {:induction false} BuildIgnoresPrefix(a: seq<nat>, b: seq<nat>, lo: nat, hi: nat)
    requires forall x :: x in a ==> !(lo < x <= hi)
    ensures Build(a + b, lo, hi) == Build(b, lo, hi)
    decreases hi - lo
  {
    LastInPrefix(a, b, lo, hi);
    var k := LastIn(b, lo, hi);
    if k >= 0 {
      assert (a + b)[|a| + k] == b[k];
      BuildIgnoresPrefix(a, b, lo, b[k] - 1);
      BuildIgnoresPrefix(a, b, b[k], hi);
    }
  }

  /** In the post-order pl + pr + [j] of a node, each sub-range sees only its own part. */
  lemma {:induction false} BuildPostLeft(pl: seq<nat>, pr: seq<nat>, j: nat, lo: nat, hi: nat)
    requires lo < j <= hi
    requires forall x :: x in pr ==> j < x <= hi
    ensures Build(pl + pr + [j], lo, j - 1) == Build(pl, lo, j - 1)
  {
    BuildDropsRoot(pl + pr, j, lo, hi);
    BuildIgnoresSuffix(pl, pr, lo, j - 1);
  }

  lemma {:induction false} BuildPostRight(pl: seq<nat>, pr: seq<nat>, j: nat, lo: nat, hi: nat)
    requires lo < j <= hi
    requires forall x :: x in pl ==> lo < x <= j - 1
    ensures Build(pl + pr + [j], j, hi) == Build(pr, j, hi)
  {
    BuildDropsRoot(pl + pr, j, lo, hi);
    BuildIgnoresPrefix(pl, pr, j, hi);
  }

  lemma {:induction false} BuildDropsRoot(s: seq<nat>, j: nat, lo: nat, hi: nat)
    requires lo < j <= hi
    ensures Build(s + [j], lo, j - 1) == Build(s, lo, j - 1)
    ensures Build(s + [j], j, hi) == Build(s, j, hi)
  {
    BuildIgnoresSuffix(s, [j], lo, j - 1);
    BuildIgnoresSuffix(s, [j], j, hi);
  }

  /** Building the tree of a post-order gives the tree back: the post-order determines the
      parenthesisation. */
  lemma {:induction false} BuildPost(t: Tree, lo: nat, hi: nat)
    requires WellFormed(t, lo, hi)
    ensures Build(Post(t), lo, hi) == t
  {
    match t
    case Leaf(_) =>
      assert Post(t) == [];
    case Node(j, l, r) =>
      BuildPost(l, lo, j - 1);
      BuildPost(r, j, hi);
      PostPermutes(l, lo, j - 1);
      PostPermutes(r, j, hi);
      assert Post(t) == Post(l) + Post(r) + [j];
      BuildPostNode(Post(l), Post(r), j, lo, hi, l, r);
  }

  /** The node step of BuildPost: in pl + pr + [j] the root's join comes last, and each side
      sees only its part. */
  lemma {:induction false} BuildPostNode(pl: seq<nat>, pr: seq<nat>, j: nat, lo: nat, hi: nat, l: Tree, r: Tree)
    requires lo < j <= hi
    requires forall x :: x in pl ==> lo < x <= j - 1
    requires forall x :: x in pr ==> j < x <= hi
    requires Build(pl, lo, j - 1) == l && Build(pr, j, hi) == r
    ensures Build(pl + pr + [j], lo, hi) == Node(j, l, r)
  {
    var s := pl + pr + [j];
    assert LastIn(s, lo, hi) == |s| - 1;
    BuildPostLeft(pl, pr, j, lo, hi);
    BuildPostRight(pl, pr, j, lo, hi);
  }

  /** Canonicalisation keeps the parenthesisation. */
  lemma {:induction false} CanonicalKeepsTree(perm: Permutation)
    requires IsPermutation(perm, |perm|)
    ensures MergeTree(Canonical(perm)) == MergeTree(perm)
  {
    MergeTreeWellFormed(perm);
    CanonicalIsPermutation(perm);
    BuildPost(MergeTree(perm), 0, |perm|);
  }

  /** canonicalize(canonicalize(p)) == canonicalize(p). */
  lemma {:induction false} CanonicalIdempotent(perm: Permutation)
    requires IsPermutation(perm, |perm|)
    ensures Canonical(Canonical(perm)) == Canonical(perm)
  {
    CanonicalKeepsTree(perm);
  }

  /** Two permutations denote the same parenthesisation iff their canonical forms are equal. */
  lemma {:induction false} SameTreeIffSameCanonical(p: Permutation, q: Permutation)
    requires IsPermutation(p, |p|) && IsPermutation(q, |q|) && |p| == |q|
    ensures Canonical(p) == Canonical(q) <==> MergeTree(p) == MergeTree(q)
  {
    CanonicalKeepsTree(p);
    CanonicalKeepsTree(q);
  }

  /** The root of the tree is the join performed last, and the post-order also ends with it. */
  lemma {:induction false} CanonicalKeepsLast(perm: Permutation)
    requires IsPermutation(perm, |perm|) && |perm| >= 1
    ensures |Canonical(perm)| == |perm|
    ensures Canonical(perm)[|perm| - 1] == perm[|perm| - 1]
  {
    CanonicalIsPermutation(perm);
    assert LastIn(perm, 0, |perm|) == |perm| - 1;
  }
}

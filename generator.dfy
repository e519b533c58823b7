/** The generator utilities (src/generator.cpp): the enumeration of all canonical merge orders, the
    "essential" merge orders that fan out from one dimension, lookup of a merge order in a list of
    algorithms, and the factorial and Catalan numbers. `unsigned` arguments are naturals below
    U32; where the source's arithmetic on them wraps, the model wraps explicitly. */
module Generator {
  import opened Definitions
  import opened MergeTrees
  import Algorithms
  import PermutationTransformer

  /** 2^32: `unsigned` arithmetic is modulo this. */
  const U32: nat := 0x1_0000_0000

  /* ---------------------------------------------------------------------------------------- */
  /* isCanonical                                                                               */

  /** perm is its own canonical form. */
  predicate IsCanonicalForm(perm: Permutation) {
    Canonical(perm) == perm
  }

  /** src/generator.cpp:79-81. */
  method IsCanonical(perm: Permutation) returns (b: bool)
    requires IsPermutation(perm, |perm|)
    ensures b <==> IsCanonicalForm(perm)
  {
    var c := PermutationTransformer.Canonicalize(perm);
    b := c == perm;
  }

  /** A merge order is canonical exactly when it is the canonical form of some merge order. */
  lemma {:induction false} CanonicalFormIsImage(perm: Permutation)
    requires IsPermutation(perm, |perm|)
    ensures IsCanonicalForm(perm) <==> exists q :: IsPermutation(q, |perm|) && Canonical(q) == perm
  {
    if exists q :: IsPermutation(q, |perm|) && Canonical(q) == perm {
      var q :| IsPermutation(q, |perm|) && Canonical(q) == perm;
      CanonicalIdempotent(q);
    }
  }

  /* ---------------------------------------------------------------------------------------- */
  /* The enumeration walked by std::next_permutation                                           */

  /** s without its i-th element. */
  function Remove(s: seq<nat>, i: nat): (r: seq<nat>)
    requires i < |s|
    ensures |r| == |s| - 1
  {
    s[..i] + s[i + 1..]
  }

  /** x put in front of every sequence of ps. */
  function Prepend(x: nat, ps: seq<seq<nat>>): (r: seq<seq<nat>>)
    ensures |r| == |ps| && forall j :: 0 <= j < |ps| ==> r[j] == [x] + ps[j]
  {
    seq(|ps|, j requires 0 <= j < |ps| => [x] + ps[j])
  }

  /** Every ordering of s: first those that start with s[0], then those that start with s[1],
      and so on. For an increasing s this is the lexicographic order in which
      std::next_permutation, started from the sorted sequence, visits the orderings. */
  function Orderings(s: seq<nat>): seq<seq<nat>>
    decreases |s|, 1
  {
    if s == [] then [[]] else OrderingsFrom(s, 0)
  }

  /** The orderings of s that start with one of s[i..]. */
  function OrderingsFrom(s: seq<nat>, i: nat): seq<seq<nat>>
    requires i <= |s|
    decreases |s|, 0, |s| - i
  {
    if i == |s| then [] else Prepend(s[i], Orderings(Remove(s, i))) + OrderingsFrom(s, i + 1)
  }

  /** q is an ordering of s: the same elements, each once. */
  ghost predicate IsOrderingOf(q: seq<nat>, s: seq<nat>) {
    |q| == |s| && Distinct(q) && forall x :: x in q <==> x in s
  }

  predicate Increasing(s: seq<nat>) {
    forall i, j :: 0 <= i < j < |s| ==> s[i] < s[j]
  }

  /** Strict lexicographic order on sequences. */
  predicate LexLess(a: seq<nat>, b: seq<nat>) {
    |b| > 0 && (|a| == 0 || a[0] < b[0] || (a[0] == b[0] && LexLess(a[1..], b[1..])))
  }

  /** ps is strictly increasing in lexicographic order. */
  predicate LexSorted(ps: seq<seq<nat>>) {
    forall i, j :: 0 <= i < j < |ps| ==> LexLess(ps[i], ps[j])
  }

  lemma {:induction false} RemoveFacts(s: seq<nat>, i: nat)
    requires i < |s| && Distinct(s)
    ensures Distinct(Remove(s, i))
    ensures forall x :: x in Remove(s, i) <==> x in s && x != s[i]
  {
    var r := Remove(s, i);
    assert forall k :: 0 <= k < |r| ==> r[k] == if k < i then s[k] else s[k + 1];
    forall x ensures x in r <==> x in s && x != s[i] {
      if x in s && x != s[i] {
        var k :| 0 <= k < |s| && s[k] == x;
        assert r[if k < i then k else k - 1] == x;
      }
    }
  }

  lemma {:induction false} RemoveIncreasing(s: seq<nat>, i: nat)
    requires i < |s| && Increasing(s)
    ensures Increasing(Remove(s, i))
  {
    var r := Remove(s, i);
    assert forall k :: 0 <= k < |r| ==> r[k] == if k < i then s[k] else s[k + 1];
  }

  /** An element of Prepend(x, ps) is x followed by an element of ps. */
  lemma {:induction false} InPrepend(x: nat, ps: seq<seq<nat>>, q: seq<nat>)
    requires q in Prepend(x, ps)
    ensures |q| > 0 && q[0] == x && q[1..] in ps
  {
    var j :| 0 <= j < |ps| && Prepend(x, ps)[j] == q;
    assert q[1..] == ps[j];
  }

  /** Every sequence of Orderings(s) is an ordering of s. */
  lemma {:induction false} OrderingsSound(s: seq<nat>)
    requires Distinct(s)
    ensures forall q :: q in Orderings(s) ==> IsOrderingOf(q, s)
    decreases |s|, 1
  {
    if s != [] {
      OrderingsFromSound(s, 0);
    }
  }

  /** Every sequence of OrderingsFrom(s, i) is an ordering of s that starts with one of s[i..]. */
  lemma {:induction false} OrderingsFromSound(s: seq<nat>, i: nat)
    requires Distinct(s) && i <= |s|
    ensures forall q :: q in OrderingsFrom(s, i) ==> IsOrderingOf(q, s) && q[0] in s[i..]
    decreases |s|, 0, |s| - i
  {
    if i < |s| {
      var r := Remove(s, i);
      RemoveFacts(s, i);
      OrderingsSound(r);
      OrderingsFromSound(s, i + 1);
      forall q | q in Prepend(s[i], Orderings(r)) ensures IsOrderingOf(q, s) && q[0] in s[i..] {
        InPrepend(s[i], Orderings(r), q);
        var t := q[1..];
        assert q == [s[i]] + t;
        forall a, b | 0 <= a < b < |q| ensures q[a] != q[b] {
          assert q[b] == t[b - 1];
          if a > 0 {
            assert q[a] == t[a - 1];
          } else {
            assert t[b - 1] in t;
          }
        }
        assert forall x :: x in q <==> x == s[i] || x in t;
        assert s[i] == s[i..][0];
      }
      forall q | q in OrderingsFrom(s, i + 1) ensures q[0] in s[i..] {
        assert s[i + 1..] == s[i..][1..];
      }
    }
  }

  /** Every ordering of s occurs in Orderings(s). */
  lemma {:induction false} OrderingsComplete(s: seq<nat>, q: seq<nat>)
    requires Distinct(s) && IsOrderingOf(q, s)
    ensures q in Orderings(s)
    decreases |s|, 1
  {
    if s != [] {
      assert q[0] in q;
      var i :| 0 <= i < |s| && s[i] == q[0];
      OrderingsFromComplete(s, q, 0, i);
    }
  }

  lemma {:induction false} OrderingsFromComplete(s: seq<nat>, q: seq<nat>, i0: nat, i: nat)
    requires Distinct(s) && IsOrderingOf(q, s)
    requires i0 <= i < |s| && q[0] == s[i]
    ensures q in OrderingsFrom(s, i0)
    decreases |s|, 0, i - i0, 1
  {
    if i0 < i {
      OrderingsFromComplete(s, q, i0 + 1, i);
    } else {
      OrderingsFromHead(s, q, i);
    }
  }

  /** An ordering that starts with s[i] is among those OrderingsFrom(s, i) lists first. */
  lemma {:induction false} OrderingsFromHead(s: seq<nat>, q: seq<nat>, i: nat)
    requires Distinct(s) && IsOrderingOf(q, s)
    requires i < |s| && q[0] == s[i]
    ensures q in OrderingsFrom(s, i)
    decreases |s|, 0, 0, 0
  {
    var r, t := Remove(s, i), q[1..];
    RemoveFacts(s, i);
    assert q == [q[0]] + t;
    forall x ensures x in t <==> x in r {
      assert x in t ==> x in q;
      if x in t {
        var b :| 0 <= b < |t| && t[b] == x;
        assert q[b + 1] == x;
      }
    }
    assert Distinct(t) by {
      forall a, b | 0 <= a < b < |t| ensures t[a] != t[b] {
        assert t[a] == q[a + 1] && t[b] == q[b + 1];
      }
    }
    OrderingsComplete(r, t);
    var j :| 0 <= j < |Orderings(r)| && Orderings(r)[j] == t;
    assert Prepend(s[i], Orderings(r))[j] == q;
  }

  /** A sequence of sorted blocks, each block below the next, is sorted. */
  lemma {:induction false} LexSortedConcat(A: seq<seq<nat>>, B: seq<seq<nat>>)
    requires LexSorted(A) && LexSorted(B)
    requires forall a, b :: a in A && b in B ==> LexLess(a, b)
    ensures LexSorted(A + B)
  {
    var C := A + B;
    forall i, j | 0 <= i < j < |C| ensures LexLess(C[i], C[j]) {
      if j < |A| {
        assert C[i] == A[i] && C[j] == A[j];
      } else if i >= |A| {
        assert C[i] == B[i - |A|] && C[j] == B[j - |A|];
      } else {
        assert C[i] == A[i] && C[j] == B[j - |A|];
      }
    }
  }

  lemma {:induction false} LexSortedPrepend(x: nat, ps: seq<seq<nat>>)
    requires LexSorted(ps)
    ensures LexSorted(Prepend(x, ps))
  {
    var r := Prepend(x, ps);
    forall i, j | 0 <= i < j < |r| ensures LexLess(r[i], r[j]) {
      assert r[i][1..] == ps[i] && r[j][1..] == ps[j];
    }
  }

  /** For increasing s, Orderings(s) is strictly increasing in lexicographic order: the order of
      std::next_permutation, without repetitions. */
  lemma {:induction false} OrderingsSorted(s: seq<nat>)
    requires Increasing(s)
    ensures LexSorted(Orderings(s))
    decreases |s|, 1
  {
    if s != [] {
      OrderingsFromSorted(s, 0);
    }
  }

  lemma {:induction false} OrderingsFromSorted(s: seq<nat>, i: nat)
    requires Increasing(s) && i <= |s|
    ensures LexSorted(OrderingsFrom(s, i))
    decreases |s|, 0, |s| - i
  {
    if i < |s| {
      var r := Remove(s, i);
      var A, B := Prepend(s[i], Orderings(r)), OrderingsFrom(s, i + 1);
      RemoveIncreasing(s, i);
      OrderingsSorted(r);
      LexSortedPrepend(s[i], Orderings(r));
      OrderingsFromSorted(s, i + 1);
      assert Distinct(s);
      OrderingsFromSound(s, i + 1);
      forall a, b | a in A && b in B ensures LexLess(a, b) {
        InPrepend(s[i], Orderings(r), a);
        var k :| 0 <= k < |s[i + 1..]| && s[i + 1..][k] == b[0];
        assert b[0] == s[i + 1 + k];
      }
      LexSortedConcat(A, B);
    }
  }

  lemma {:induction false} LexLessIrreflexive(a: seq<nat>)
    ensures !LexLess(a, a)
  {
    if |a| > 0 {
      LexLessIrreflexive(a[1..]);
    }
  }

  /** A lexicographically increasing list holds no sequence twice. */
  lemma {:induction false} LexSortedNoDuplicates(ps: seq<seq<nat>>)
    requires LexSorted(ps)
    ensures forall i, j :: 0 <= i < j < |ps| ==> ps[i] != ps[j]
  {
    forall i, j | 0 <= i < j < |ps| ensures ps[i] != ps[j] {
      LexLessIrreflexive(ps[i]);
    }
  }

  lemma {:induction false} IotaIncreasing(n: nat)
    ensures Increasing(Iota(n))
  {
  }

  /** A permutation of 1..n is exactly an ordering of Iota(n). */
  lemma {:induction false} PermutationIsOrdering(q: seq<nat>, n: nat)
    ensures IsPermutation(q, n) <==> IsOrderingOf(q, Iota(n))
  {
    var s := Iota(n);
    assert forall x :: x in s <==> 1 <= x <= n by {
      forall x | 1 <= x <= n ensures x in s {
        assert s[x - 1] == x;
      }
    }
    if IsPermutation(q, n) {
      PermutationCovers(q, n);
      assert forall x :: x in q ==> 1 <= x <= n;
    }
    if IsOrderingOf(q, s) {
      assert forall i :: 0 <= i < |q| ==> q[i] in q;
    }
  }

  /* ---------------------------------------------------------------------------------------- */
  /* generateAlgorithms                                                                        */

  /** The canonical ones among ps, in the order of ps. */
  function CanonicalOnly(ps: seq<seq<nat>>): (r: seq<seq<nat>>)
    ensures |r| <= |ps|
  {
    if ps == [] then []
    else CanonicalOnly(ps[..|ps| - 1]) + (if IsCanonicalForm(ps[|ps| - 1]) then [ps[|ps| - 1]] else [])
  }

  /** The merge orders generateAlgorithms(n) produces: the canonical permutations of 1..n-1 in the
      order std::next_permutation visits them. */
  function CanonicalPerms(n: nat): seq<seq<nat>>
    requires n >= 1
  {
    CanonicalOnly(Orderings(Iota(n - 1)))
  }

  lemma {:induction false} CanonicalOnlyMembers(ps: seq<seq<nat>>)
    ensures forall q :: q in CanonicalOnly(ps) <==> q in ps && IsCanonicalForm(q)
  {
    if ps != [] {
      var init := ps[..|ps| - 1];
      CanonicalOnlyMembers(init);
      assert ps == init + [ps[|ps| - 1]];
    }
  }

  lemma {:induction false} CanonicalOnlySorted(ps: seq<seq<nat>>)
    requires LexSorted(ps)
    ensures LexSorted(CanonicalOnly(ps))
  {
    if ps != [] {
      var init, last := ps[..|ps| - 1], ps[|ps| - 1];
      assert LexSorted(init) by {
        forall i, j | 0 <= i < j < |init| ensures LexLess(init[i], init[j]) {
          assert init[i] == ps[i] && init[j] == ps[j];
        }
      }
      CanonicalOnlySorted(init);
      CanonicalOnlyMembers(init);
      if IsCanonicalForm(last) {
        forall a, b | a in CanonicalOnly(init) && b in [last] ensures LexLess(a, b) {
          var i :| 0 <= i < |init| && init[i] == a;
          assert a == ps[i];
        }
        LexSortedConcat(CanonicalOnly(init), [last]);
      } else {
        assert CanonicalOnly(ps) == CanonicalOnly(init) + [];
      }
    }
  }

  /** generateAlgorithms(n) lists exactly the canonical permutations of 1..n-1 ... */
  lemma {:induction false} CanonicalPermsExact(n: nat, q: seq<nat>)
    requires n >= 1
    ensures q in CanonicalPerms(n) <==> IsPermutation(q, n - 1) && IsCanonicalForm(q)
  {
    var s := Iota(n - 1);
    IotaIsPermutation(n - 1);
    CanonicalOnlyMembers(Orderings(s));
    OrderingsSound(s);
    PermutationIsOrdering(q, n - 1);
    if IsPermutation(q, n - 1) {
      OrderingsComplete(s, q);
    }
  }

  /** ... in strictly increasing lexicographic order, hence each once. */
  lemma {:induction false} CanonicalPermsSorted(n: nat)
    requires n >= 1
    ensures LexSorted(CanonicalPerms(n))
    ensures forall i, j :: 0 <= i < j < |CanonicalPerms(n)| ==> CanonicalPerms(n)[i] != CanonicalPerms(n)[j]
  {
    IotaIncreasing(n - 1);
    OrderingsSorted(Iota(n - 1));
    CanonicalOnlySorted(Orderings(Iota(n - 1)));
    LexSortedNoDuplicates(CanonicalPerms(n));
  }

  /** The merge orders of a list of algorithms. */
  function PermsOf(algs: seq<Algorithms.Algorithm>): (r: seq<seq<nat>>)
    ensures |r| == |algs| && forall i :: 0 <= i < |algs| ==> r[i] == algs[i].permutation
  {
    seq(|algs|, i requires 0 <= i < |algs| => algs[i].permutation)
  }

  /** One iteration of generateAlgorithms: keep an algorithm for permutation if it is canonical. */
  method AddIfCanonical(algs: seq<Algorithms.Algorithm>, permutation: Permutation)
      returns (algs': seq<Algorithms.Algorithm>)
    requires IsPermutation(permutation, |permutation|) && |permutation| <= Algorithms.MaxJoins
    requires forall i :: 0 <= i < |algs| ==> algs[i].Valid()
    ensures PermsOf(algs') == PermsOf(algs) + (if IsCanonicalForm(permutation) then [permutation] else [])
    ensures forall i :: 0 <= i < |algs'| ==> algs'[i].Valid()
  {
    var canonical := IsCanonical(permutation);
    algs' := algs;
    if canonical {
      var alg := new Algorithms.Algorithm(permutation);
      algs' := algs + [alg];
    }
  }

  /** src/generator.cpp:13-28. The do/while loop over std::next_permutation visits the orderings
      of Iota(n-1) in the order of Orderings; the model walks that list. */
  method GenerateAlgorithms(n: nat) returns (algs: seq<Algorithms.Algorithm>)
    requires 1 <= n && n - 1 <= Algorithms.MaxJoins
    ensures PermsOf(algs) == CanonicalPerms(n)
    ensures forall i :: 0 <= i < |algs| ==> algs[i].Valid()
  {
    var orderings := Orderings(Iota(n - 1));
    IotaIsPermutation(n - 1);
    OrderingsSound(Iota(n - 1));
    algs := [];
    for t := 0 to |orderings|
      invariant PermsOf(algs) == CanonicalOnly(orderings[..t])
      invariant forall i :: 0 <= i < |algs| ==> algs[i].Valid()
    {
      var permutation := orderings[t];
      assert orderings[..t + 1][..t] == orderings[..t];
      assert permutation in orderings;
      PermutationIsOrdering(permutation, n - 1);
      algs := AddIfCanonical(algs, permutation);
    }
    assert orderings[..|orderings|] == orderings;
  }

  /* ---------------------------------------------------------------------------------------- */
  /* getEssentialPerm(s)                                                                       */

  /** The joins lo+1..hi in increasing order. */
  function Up(lo: nat, hi: nat): (r: seq<nat>)
    requires lo <= hi
    ensures |r| == hi - lo
    decreases hi - lo
  {
    if lo == hi then [] else Up(lo, hi - 1) + [hi]
  }

  /** The joins hi, hi-1, ..., lo+1. */
  function Down(lo: nat, hi: nat): (r: seq<nat>)
    requires lo <= hi
    ensures |r| == hi - lo
    decreases hi - lo
  {
    if lo == hi then [] else Down(lo + 1, hi) + [lo + 1]
  }

  /** The joins lo, lo+1, ..., hi-1. */
  ghost function Span(lo: nat, hi: nat): seq<nat>
    requires lo <= hi
    decreases hi - lo
  {
    if lo == hi then [] else Span(lo, hi - 1) + [hi - 1]
  }

  lemma {:induction false} SpanIsUp(lo: nat, hi: nat)
    requires lo <= hi
    ensures Span(lo + 1, hi + 1) == Up(lo, hi)
    decreases hi - lo
  {
    if lo < hi {
      SpanIsUp(lo, hi - 1);
    }
  }

  lemma {:induction false} SpanFromZero(hi: nat)
    ensures Span(0, hi + 1) == [0] + Up(0, hi)
  {
    if hi > 0 {
      SpanFromZero(hi - 1);
    }
  }

  /** The essential merge order of a chain of n matrices for dimension h: the products to the
      left of dimension h are accumulated from the right (joins h-1, ..., 1), those to its right
      from the left (joins h+1, ..., n-1), and join h multiplies the two; for h = 0 or h = n
      only one side exists. */
  function EssentialOrder(n: nat, h: nat): seq<nat>
    requires 1 <= n && h <= n
  {
    if h == 0 then Up(0, n - 1)
    else if h == n then Down(0, n - 1)
    else Down(0, h - 1) + Up(h, n - 1) + [h]
  }

  /** ((A_lo A_lo+1) A_lo+2) ... A_hi. */
  function LeftComb(lo: nat, hi: nat): (t: Tree)
    requires lo <= hi
    ensures WellFormed(t, lo, hi)
    decreases hi - lo
  {
    if lo == hi then Leaf(lo) else Node(hi, LeftComb(lo, hi - 1), Leaf(hi))
  }

  /** A_lo (A_lo+1 ( ... A_hi)). */
  function RightComb(lo: nat, hi: nat): (t: Tree)
    requires lo <= hi
    ensures WellFormed(t, lo, hi)
    decreases hi - lo
  {
    if lo == hi then Leaf(lo) else Node(lo + 1, Leaf(lo), RightComb(lo + 1, hi))
  }

  /** The parenthesisation of n matrices in which every multiplication involves dimension h. */
  function FanOut(n: nat, h: nat): (t: Tree)
    requires 1 <= n && h <= n
    ensures WellFormed(t, 0, n - 1)
  {
    if h == 0 then LeftComb(0, n - 1)
    else if h == n then RightComb(0, n - 1)
    else Node(h, RightComb(0, h - 1), LeftComb(h, n - 1))
  }

  lemma {:induction false} PostLeftComb(lo: nat, hi: nat)
    requires lo <= hi
    ensures Post(LeftComb(lo, hi)) == Up(lo, hi)
    decreases hi - lo
  {
    if lo < hi {
      PostLeftComb(lo, hi - 1);
    }
  }

  lemma {:induction false} PostRightComb(lo: nat, hi: nat)
    requires lo <= hi
    ensures Post(RightComb(lo, hi)) == Down(lo, hi)
    decreases hi - lo
  {
    if lo < hi {
      PostRightComb(lo + 1, hi);
    }
  }

  /** The essential merge order is the post-order of the fan-out tree. */
  lemma {:induction false} EssentialOrderPost(n: nat, h: nat)
    requires 1 <= n && h <= n
    ensures Post(FanOut(n, h)) == EssentialOrder(n, h)
  {
    if h == 0 {
      PostLeftComb(0, n - 1);
    } else if h == n {
      PostRightComb(0, n - 1);
    } else {
      PostRightComb(0, h - 1);
      PostLeftComb(h, n - 1);
    }
  }

  /** Hence the essential merge order is a canonical permutation of 1..n-1 whose
      parenthesisation is the fan-out tree. */
  lemma {:induction false} EssentialOrderIsFanOut(n: nat, h: nat)
    requires 1 <= n && h <= n
    ensures IsPermutation(EssentialOrder(n, h), n - 1)
    ensures MergeTree(EssentialOrder(n, h)) == FanOut(n, h)
    ensures IsCanonicalForm(EssentialOrder(n, h))
  {
    EssentialOrderPost(n, h);
    PostIsCanonical(FanOut(n, h), n - 1);
  }

  /** The post-order of a parenthesisation of the whole chain is a canonical permutation whose
      parenthesisation is that tree. */
  lemma {:induction false} PostIsCanonical(t: Tree, L: nat)
    requires WellFormed(t, 0, L)
    ensures IsPermutation(Post(t), L) && MergeTree(Post(t)) == t && IsCanonicalForm(Post(t))
  {
    var e := Post(t);
    PostPermutes(t, 0, L);
    assert forall i :: 0 <= i < |e| ==> e[i] in e;
    BuildPost(t, 0, L);
  }

  /** src/generator.cpp:40-48. For h = 2^32 - 1 (and so n = h) the `unsigned` counter h + 1 wraps
      to 0: the second loop then pushes 0..n-1 after n-1..1, and the result is no permutation. */
  method GetEssentialPerm(n: nat, h: nat) returns (perm: Permutation)
    requires 1 <= n < U32 && h <= n
    ensures h + 1 < U32 ==> perm == EssentialOrder(n, h)
    ensures h + 1 < U32 ==> IsPermutation(perm, n - 1) && IsCanonicalForm(perm)
    ensures h + 1 == U32 ==> perm == Down(0, n - 1) + [0] + Up(0, n - 1)
    ensures h + 1 == U32 ==> !IsPermutation(perm, n - 1)
  {
    perm := [];
    var i: nat := (h + U32 - 1) % U32;   // h - 1U wraps to 2^32 - 1 for h = 0
    while i > 0 && i < n
      invariant if h == 0 then i == U32 - 1 && perm == [] else i < h && perm == Down(i, h - 1)
      decreases i
    {
      perm := perm + [i];
      i := i - 1;
    }
    ghost var down := perm;
    assert h > 0 ==> i == 0;
    var j := (h + 1) % U32;            // h + 1U wraps to 0 for h = 2^32 - 1
    ghost var start := j;
    while j < n
      invariant start <= j && (j <= n || j == start)
      invariant perm == down + Span(start, j)
    {
      perm := perm + [j];
      j := j + 1;
    }
    if |perm| < n - 1 {
      perm := perm + [h];
    }
    EssentialPermShape(n, h, perm);
  }

  /** The sequence getEssentialPerm(n, h) pushes, loop by loop. */
  ghost function EssentialPushes(n: nat, h: nat): seq<nat>
    requires 1 <= n < U32 && h <= n
  {
    var start := (h + 1) % U32;
    var pushed := (if h == 0 then [] else Down(0, h - 1)) + Span(start, if start < n then n else start);
    if |pushed| < n - 1 then pushed + [h] else pushed
  }

  lemma {:induction false} EssentialPermShape(n: nat, h: nat, perm: seq<nat>)
    requires 1 <= n < U32 && h <= n
    requires perm == EssentialPushes(n, h)
    ensures h + 1 < U32 ==> perm == EssentialOrder(n, h)
    ensures h + 1 < U32 ==> IsPermutation(perm, n - 1) && IsCanonicalForm(perm)
    ensures h + 1 == U32 ==> perm == Down(0, n - 1) + [0] + Up(0, n - 1)
    ensures h + 1 == U32 ==> !IsPermutation(perm, n - 1)
  {
    if h + 1 == U32 {
      SpanFromZero(n - 1);
      assert perm == Down(0, n - 1) + [0] + Up(0, n - 1);
    } else {
      if h < n {
        SpanIsUp(h, n - 1);
      }
      if h == 0 {
        assert perm == Up(0, n - 1);
      } else if h == n {
        assert perm == Down(0, n - 1);
      } else {
        assert perm == Down(0, h - 1) + Up(h, n - 1) + [h];
      }
      EssentialOrderIsFanOut(n, h);
    }
  }

  /** src/generator.cpp:30-38. The count n + 1U wraps to 0 for n = 2^32 - 1. */
  method GetEssentialPerms(n: nat) returns (essentials: seq<Permutation>)
    requires 1 <= n < U32
    ensures |essentials| == (n + 1) % U32
    ensures forall i :: 0 <= i < |essentials| ==> essentials[i] == EssentialOrder(n, i)
  {
    var dims := (n + 1) % U32;
    essentials := [];
    for i := 0 to dims
      invariant |essentials| == i
      invariant forall j :: 0 <= j < i ==> essentials[j] == EssentialOrder(n, j)
    {
      assert i + 1 < U32;
      var perm := GetEssentialPerm(n, i);
      essentials := essentials + [perm];
    }
  }

  /* ---------------------------------------------------------------------------------------- */
  /* getID(s)                                                                                  */

  /** src/generator.cpp:50-55: the position of the first algorithm whose merge order is perm, or
      |algs| when there is none. */
  function GetID(algs: seq<Algorithms.Algorithm>, perm: Permutation): (id: nat)
    ensures id <= |algs|
    ensures id < |algs| ==> algs[id].permutation == perm
    ensures forall i :: 0 <= i < id ==> algs[i].permutation != perm
  {
    if algs == [] then 0
    else if algs[0].permutation == perm then 0
    else 1 + GetID(algs[1..], perm)
  }

  /** src/generator.cpp:57-65. */
  method GetIDs(algs: seq<Algorithms.Algorithm>, perms: seq<Permutation>) returns (ids: seq<nat>)
    ensures |ids| == |perms|
    ensures forall i :: 0 <= i < |perms| ==> ids[i] == GetID(algs, perms[i])
  {
    ids := [];
    for i := 0 to |perms|
      invariant |ids| == i
      invariant forall j :: 0 <= j < i ==> ids[j] == GetID(algs, perms[j])
    {
      ids := ids + [GetID(algs, perms[i])];
    }
  }

  /** Every essential merge order is found among the generated algorithms. */
  lemma {:induction false} EssentialsFound(n: nat, h: nat, algs: seq<Algorithms.Algorithm>)
    requires 1 <= n && h <= n && PermsOf(algs) == CanonicalPerms(n)
    ensures GetID(algs, EssentialOrder(n, h)) < |algs|
  {
    var e := EssentialOrder(n, h);
    EssentialOrderIsFanOut(n, h);
    CanonicalPermsExact(n, e);
    var i :| 0 <= i < |algs| && CanonicalPerms(n)[i] == e;
    assert algs[i].permutation == e;
  }

  /* ---------------------------------------------------------------------------------------- */
  /* factorial, catalanNumber                                                                  */

  /** n! as the product 2 * 3 * ... * n. */
  function Fact(n: nat): (r: nat)
    ensures r >= 1
  {
    if n <= 1 then 1 else Fact(n - 1) * n
  }

  /** src/generator.cpp:67-73, over unbounded naturals. */
  method Factorial(n: nat) returns (fact: nat)
    ensures fact == Fact(n)
  {
    fact := 1;
    var i := 2;
    while i <= n
      invariant 2 <= i <= if n < 2 then 2 else n + 1
      invariant fact == Fact(i - 1)
    {
      fact := fact * i;
      i := i + 1;
    }
  }

  /** (2n)! / ((n+1)! n!). */
  function Catalan(n: nat): nat {
    Fact(2 * n) / (Fact(n + 1) * Fact(n))
  }

  /** src/generator.cpp:75-77, over unbounded naturals. */
  method CatalanNumber(n: nat) returns (c: nat)
    ensures c == Catalan(n)
  {
    var f2n := Factorial(2 * n);
    var f1 := Factorial(n + 1);
    var f0 := Factorial(n);
    c := f2n / (f1 * f0);
  }

  /** The first Catalan numbers, and where 32-bit factorials stop being exact. */
  lemma {:induction false} CatalanValues()
    ensures Fact(0) == 1 && Fact(1) == 1 && Fact(5) == 120
    ensures Catalan(0) == 1 && Catalan(1) == 1 && Catalan(2) == 2 && Catalan(3) == 5
    ensures Catalan(4) == 14 && Catalan(6) == 132 && Catalan(7) == 429
    ensures Fact(12) < U32 <= Fact(13)
  {
    assert Fact(2) == 2;
    assert Fact(3) == 6;
    assert Fact(4) == 24;
    assert Fact(5) == 120;
    assert Fact(6) == 720;
    assert Fact(7) == 5040;
    assert Fact(8) == 40320;
    assert Fact(12) == 479001600;
    assert Fact(13) == 6227020800;
    assert Fact(14) == 87178291200;
  }

  /** A chain of three matrices has catalanNumber(2) = 2 parenthesisations, and both merge
      orders of its two joins are canonical. */
  lemma {:induction false} CanonicalPermsOfThree()
    ensures CanonicalPerms(3) == [[1, 2], [2, 1]]
    ensures |CanonicalPerms(3)| == Catalan(2)
  {
    assert Iota(2) == [1, 2];
    OrderingsOfTwo(1, 2);
    CanonicalOrdersOfTwo();
    var ps: seq<seq<nat>> := [[1, 2], [2, 1]];
    assert ps[..1] == [[1, 2]] && ps[..1][..0] == [];
    assert CanonicalOnly(ps[..1]) == [[1, 2]];
    assert CanonicalOnly(ps) == CanonicalOnly(ps[..1]) + [ps[1]];
    assert CanonicalPerms(3) == CanonicalOnly(ps);
    CatalanValues();
  }

  lemma {:induction false} CanonicalOrdersOfTwo()
    ensures IsCanonicalForm([1, 2]) && IsCanonicalForm([2, 1])
  {
    assert MergeTree([1, 2]) == Node(2, Node(1, Leaf(0), Leaf(1)), Leaf(2));
    assert MergeTree([2, 1]) == Node(1, Leaf(0), Node(2, Leaf(1), Leaf(2)));
  }

  lemma {:induction false} OrderingsOfTwo(x: nat, y: nat)
    ensures Orderings([x, y]) == [[x, y], [y, x]]
  {
    assert Remove([x, y], 0) == [y] && Remove([x, y], 1) == [x];
    OrderingsOfOne(x);
    OrderingsOfOne(y);
    PrependSingle(x, [y]);
    PrependSingle(y, [x]);
    assert [x] + [y] == [x, y] && [y] + [x] == [y, x];
    assert OrderingsFrom([x, y], 2) == [];
    assert OrderingsFrom([x, y], 1) == Prepend(y, [[x]]) + [];
    assert OrderingsFrom([x, y], 0) == Prepend(x, [[y]]) + [[y, x]];
  }

  lemma {:induction false} OrderingsOfOne(x: nat)
    ensures Orderings([x]) == [[x]]
  {
    assert Remove([x], 0) == [];
    assert Orderings([]) == [[]];
    PrependSingle(x, []);
    assert [x] + [] == [x];
    assert OrderingsFrom([x], 1) == [];
  }

  lemma {:induction false} PrependSingle(x: nat, q: seq<nat>)
    ensures Prepend(x, [q]) == [[x] + q]
  {
    var r := Prepend(x, [q]);
    assert |r| == 1 && r[0] == [x] + q;
  }

  /* As written, factorial and catalanNumber compute in `unsigned`: every product is reduced
     modulo 2^32, and so are 2 * n and n + 1. */

  /** What src/generator.cpp:67-73 returns: the factorial modulo 2^32. */
  function FactU32(n: nat): nat {
    if n <= 1 then 1 else (FactU32(n - 1) * n) % U32
  }

  /** The result of an unsigned division, or the division by zero it attempts. */
  datatype Quotient = Quotient(value: nat) | DivisionByZero

  /** What src/generator.cpp:75-77 computes with 32-bit arithmetic. */
  function CatalanU32(n: nat): Quotient
    requires n < U32
  {
    var num: int, den: int := FactU32((2 * n) % U32), (FactU32((n + 1) % U32) * FactU32(n)) % U32;
    if den == 0 then DivisionByZero else DivNat(num, den); Quotient(num / den)
  }

  lemma {:induction false} DivNat(a: int, b: int)
    requires a >= 0 && b > 0
    ensures a / b >= 0
  {
  }

  /** The 32-bit catalanNumber is exact up to 6, returns 6 instead of 429 for 7, and divides by
      zero for 18 (generateAlgorithms(19) evaluates catalanNumber(18)). */
  lemma {:induction false} CatalanU32Wrong()
    ensures CatalanU32(6) == Quotient(Catalan(6))
    ensures CatalanU32(7) == Quotient(6) && Catalan(7) == 429
    ensures CatalanU32(18) == DivisionByZero
  {
    CatalanValues();
    CatalanU32Small();
    CatalanU32Seven();
    CatalanU32Eighteen();
  }

  lemma {:induction false} CatalanU32Small()
    ensures CatalanU32(6) == Quotient(132)
  {
    assert FactU32(2) == 2;
    assert FactU32(3) == 6;
    assert FactU32(4) == 24;
    assert FactU32(5) == 120;
    assert FactU32(6) == 720;
    assert FactU32(7) == 5040;
    assert FactU32(8) == 40320;
    assert FactU32(9) == 362880;
    assert FactU32(10) == 3628800;
    assert FactU32(11) == 39916800;
    assert FactU32(12) == 479001600;
  }

  lemma {:induction false} CatalanU32Seven()
    ensures CatalanU32(7) == Quotient(6)
  {
    assert FactU32(2) == 2;
    assert FactU32(3) == 6;
    assert FactU32(4) == 24;
    assert FactU32(5) == 120;
    assert FactU32(6) == 720;
    assert FactU32(7) == 5040;
    assert FactU32(8) == 40320;
    assert FactU32(9) == 362880;
    assert FactU32(10) == 3628800;
    assert FactU32(11) == 39916800;
    assert FactU32(12) == 479001600;
    assert FactU32(13) == 1932053504;
    assert FactU32(14) == 1278945280;
  }

  lemma {:induction false} CatalanU32Eighteen()
    ensures CatalanU32(18) == DivisionByZero
  {
    assert FactU32(2) == 2;
    assert FactU32(3) == 6;
    assert FactU32(4) == 24;
    assert FactU32(5) == 120;
    assert FactU32(6) == 720;
    assert FactU32(7) == 5040;
    assert FactU32(8) == 40320;
    assert FactU32(9) == 362880;
    assert FactU32(10) == 3628800;
    assert FactU32(11) == 39916800;
    assert FactU32(12) == 479001600;
    assert FactU32(13) == 1932053504;
    assert FactU32(14) == 1278945280;
    assert FactU32(15) == 2004310016;
    assert FactU32(16) == 2004189184;
    assert FactU32(17) == 4006445056;
    assert FactU32(18) == 3396534272;
    assert FactU32(19) == 109641728;
  }
}

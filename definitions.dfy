/** The two value types every part of the system shares (src/algorithm.hpp:33, src/apprx_algorithms.hpp:60):
    a Permutation is a merge order over the join identifiers 1..L of a chain of L+1 matrices; an
    Instance is the dimension vector d0..dL of such a chain. Both are vectors of unsigned in the
    source and sequences of naturals here. */
module Definitions {

  type Permutation = seq<nat>
  type Instance = seq<nat>

  /** The identity merge order [1, 2, ..., n] (what std::iota produces). */
  function Iota(n: nat): (r: seq<nat>)
    ensures |r| == n
    ensures forall i :: 0 <= i < n ==> r[i] == i + 1
  {
    if n == 0 then [] else Iota(n - 1) + [n]
  }

  /** Every entry of perm is a join of the chain 0..|perm|. */
  predicate JoinsInRange(perm: seq<nat>) {
    forall i :: 0 <= i < |perm| ==> 1 <= perm[i] <= |perm|
  }

  predicate Distinct(s: seq<nat>) {
    forall i, j :: 0 <= i < j < |s| ==> s[i] != s[j]
  }

  /** p uses each join identifier 1..n exactly once: n pairwise distinct entries from 1..n. */
  predicate IsPermutation(p: seq<nat>, n: nat) {
    |p| == n && JoinsInRange(p) && Distinct(p)
  }

  /** Pigeonhole: a permutation of 1..n contains every identifier of 1..n. */
  lemma {:induction false} PermutationCovers(p: seq<nat>, n: nat)
    requires IsPermutation(p, n)
    ensures forall x :: 1 <= x <= n ==> x in p
  {
    DistinctCoversSet(p, RangeSet(n));
  }

  /** n pairwise distinct values drawn from a set of n values take all of them. */
  lemma {:induction false} DistinctCoversSet(p: seq<nat>, S: set<nat>)
    requires |p| == |S| && Distinct(p)
    requires forall i :: 0 <= i < |p| ==> p[i] in S
    ensures forall x :: x in S ==> x in p
  {
    if p != [] {
      var v, q := p[|p| - 1], p[..|p| - 1];
      assert forall i :: 0 <= i < |q| ==> q[i] in S - {v};
      DistinctCoversSet(q, S - {v});
      assert forall x :: x in q ==> x in p;
    }
  }

  /** The identifiers 1..n as a set. */
  function RangeSet(n: nat): (r: set<nat>)
    ensures |r| == n
    ensures forall x :: x in r <==> 1 <= x <= n
  {
    if n == 0 then {} else RangeSet(n - 1) + {n}
  }

  /** The identity is a permutation. */
  lemma {:induction false} IotaIsPermutation(n: nat)
    ensures IsPermutation(Iota(n), n)
  {
  }
}

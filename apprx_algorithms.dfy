/** The approximation heuristics (src/apprx_algorithms.cpp): Chandra's fan-out from the smallest
    dimension, the cheapest essential parenthesisation, F.Y. Chin's deque heuristic (CACM 1978)
    and the variant that minimises over the essential parenthesisations of the chain Chin's scan
    leaves. Costs are exact integers and Chin's reciprocals exact reals. */
module Approximations {
  import opened Definitions
  import opened MergeTrees
  import opened Costs
  import opened Generator
  import PermutationTransformer

  /** 2^31: Chin's chain length n is an `int`. */
  const I32: nat := 0x8000_0000

  /* ---------------------------------------------------------------------------------------- */
  /* chandra                                                                                   */

  /** std::min_element: the first position of a smallest entry. */
  function MinIndex(k: seq<nat>): (m: nat)
    requires |k| >= 1
    ensures m < |k|
    ensures forall i :: 0 <= i < |k| ==> k[m] <= k[i]
    ensures forall i :: 0 <= i < m ==> k[m] < k[i]
  {
    if |k| == 1 then 0
    else
      var m := MinIndex(k[..|k| - 1]);
      if k[|k| - 1] < k[m] then |k| - 1 else m
  }

  /** src/apprx_algorithms.cpp:13-17. Only for |k| = 2^32 with the minimum last does the index
      reach 2^32 - 1, where getEssentialPerm's h + 1 wraps. */
  method Chandra(k: Instance) returns (perm: Permutation)
    requires 2 <= |k| <= U32
    ensures MinIndex(k) + 1 < U32 ==> perm == EssentialOrder(|k| - 1, MinIndex(k))
    ensures MinIndex(k) + 1 < U32 ==> IsPermutation(perm, |k| - 2) && IsCanonicalForm(perm)
    ensures MinIndex(k) + 1 == U32 ==> !IsPermutation(perm, |k| - 2)
  {
    var idx := MinIndex(k);
    perm := GetEssentialPerm(|k| - 1, idx);
  }

  /* ---------------------------------------------------------------------------------------- */
  /* minEssential                                                                              */

  /** z[i]: the product of the two dimensions around matrix i-1, read cyclically for i = 0. */
  function Z(k: Instance, i: nat): nat
    requires i < |k|
  {
    if i == 0 then k[0] * k[|k| - 1] else k[i - 1] * k[i]
  }

  /** z[lo] + ... + z[hi-1]. */
  function ZSum(k: Instance, lo: nat, hi: nat): nat
    requires lo <= hi <= |k|
    decreases hi - lo
  {
    if lo == hi then 0 else ZSum(k, lo, hi - 1) + Z(k, hi - 1)
  }

  /** t[h]: d[h] times the sum of the cyclic neighbour products that do not involve d[h]. */
  function EssentialCost(k: Instance, h: nat): int
    requires h < |k|
  {
    var n, x := |k| - 1, ZSum(k, 0, |k|);
    if h < n then k[h] * (x - Z(k, h) - Z(k, h + 1)) else k[n] * (x - Z(k, n) - Z(k, 0))
  }

  /** The FLOPs of the essential merge order for dimension h on k. */
  function EssentialFlops(k: Instance, h: nat): nat
    requires 2 <= |k| && h < |k|
  {
    EssentialOrderIsFanOut(|k| - 1, h);
    Flops(EssentialOrder(|k| - 1, h), k)
  }

  lemma {:induction false} ZSumSplit(k: Instance, lo: nat, mid: nat, hi: nat)
    requires lo <= mid <= hi <= |k|
    ensures ZSum(k, lo, hi) == ZSum(k, lo, mid) + ZSum(k, mid, hi)
    decreases hi - mid
  {
    if mid < hi {
      ZSumSplit(k, lo, mid, hi - 1);
    }
  }

  /** ((A_lo A_lo+1) ...) A_hi costs d[lo] * (z[lo+2] + ... + z[hi+1]). */
  lemma {:induction false} LeftCombCost(k: Instance, lo: nat, hi: nat)
    requires lo <= hi && hi + 2 <= |k|
    ensures TreeCost(LeftComb(lo, hi), lo, hi, k) == k[lo] * ZSum(k, lo + 2, hi + 2)
    decreases hi - lo
  {
    if lo < hi {
      LeftCombCost(k, lo, hi - 1);
      AddTerm(k[lo], ZSum(k, lo + 2, hi + 1), k[hi], k[hi + 1]);
    }
  }

  /** A_lo (A_lo+1 (... A_hi)) costs d[hi+1] * (z[lo+1] + ... + z[hi]). */
  lemma {:induction false} RightCombCost(k: Instance, lo: nat, hi: nat)
    requires lo <= hi && hi + 1 < |k|
    ensures TreeCost(RightComb(lo, hi), lo, hi, k) == k[hi + 1] * ZSum(k, lo + 1, hi + 1)
    decreases hi - lo
  {
    if lo < hi {
      RightCombCost(k, lo + 1, hi);
      ZSumSplit(k, lo + 1, lo + 2, hi + 1);
      AddTermFront(k[hi + 1], ZSum(k, lo + 2, hi + 1), k[lo], k[lo + 1]);
    }
  }

  lemma {:induction false} AddTerm(x: int, s: int, y: int, w: int)
    ensures x * s + x * y * w == x * (s + y * w)
  {
  }

  lemma {:induction false} AddTermFront(x: int, s: int, y: int, w: int)
    ensures x * s + y * w * x == x * (y * w + s)
  {
  }

  lemma {:induction false} AddRoot(y: int, l: int, r: int, a: int, c: int, x: int, zh: int, zh1: int, T: int)
    requires x == a * c + l + zh + zh1 + r && T == y * l + y * r + a * y * c
    ensures T == y * (x - zh - zh1)
  {
  }

  /** t[h] is the cost of the fan-out parenthesisation for dimension h. */
  lemma {:induction false} FanOutCost(k: Instance, h: nat)
    requires 2 <= |k| && h < |k|
    ensures TreeCost(FanOut(|k| - 1, h), 0, |k| - 2, k) == EssentialCost(k, h)
  {
    if h == 0 {
      FanOutCostFirst(k);
    } else if h == |k| - 1 {
      FanOutCostLast(k);
    } else {
      FanOutCostInner(k, h);
    }
  }

  lemma {:induction false} FanOutCostFirst(k: Instance)
    requires 2 <= |k|
    ensures TreeCost(FanOut(|k| - 1, 0), 0, |k| - 2, k) == EssentialCost(k, 0)
  {
    var n := |k| - 1;
    LeftCombCost(k, 0, n - 1);
    ZSumSplit(k, 0, 1, |k|);
    ZSumSplit(k, 1, 2, |k|);
  }

  lemma {:induction false} FanOutCostLast(k: Instance)
    requires 2 <= |k|
    ensures TreeCost(FanOut(|k| - 1, |k| - 1), 0, |k| - 2, k) == EssentialCost(k, |k| - 1)
  {
    var n := |k| - 1;
    RightCombCost(k, 0, n - 1);
    ZSumSplit(k, 0, 1, |k|);
    ZSumSplit(k, 1, n, |k|);
  }

  lemma {:induction false} FanOutCostInner(k: Instance, h: nat)
    requires 2 <= |k| && 0 < h < |k| - 1
    ensures TreeCost(FanOut(|k| - 1, h), 0, |k| - 2, k) == EssentialCost(k, h)
  {
    var n := |k| - 1;
    var l: int, r: int := ZSum(k, 1, h), ZSum(k, h + 2, |k|);
    var y: int, a: int, c: int := k[h], k[0], k[n];
    var x: int, zh: int, zh1: int := ZSum(k, 0, |k|), Z(k, h), Z(k, h + 1);
    assert x == a * c + l + zh + zh1 + r by {
      ZSumSplit(k, 0, 1, |k|);
      ZSumSplit(k, 1, h, |k|);
      ZSumSplit(k, h, h + 2, |k|);
      ZSumSplit(k, h, h + 1, h + 2);
    }
    var lt, rt := RightComb(0, h - 1), LeftComb(h, n - 1);
    var T: int := TreeCost(FanOut(n, h), 0, n - 1, k);
    assert T == TreeCost(lt, 0, h - 1, k) + TreeCost(rt, h, n - 1, k) + CostMult(a, y, c);
    assert T == y * l + y * r + a * y * c by {
      RightCombCost(k, 0, h - 1);
      LeftCombCost(k, h, n - 1);
    }
    AddRoot(y, l, r, a, c, x, zh, zh1, T);
  }

  /** minEssential's t[h] is the FLOP count of the essential merge order for h. */
  lemma {:induction false} EssentialCostIsFlops(k: Instance, h: nat)
    requires 2 <= |k| && h < |k|
    ensures EssentialFlops(k, h) == EssentialCost(k, h)
  {
    var n := |k| - 1;
    EssentialOrderIsFanOut(n, h);
    FlopsOfTree(EssentialOrder(n, h), k, FanOut(n, h));
    FanOutCost(k, h);
  }

  /** The FLOPs of a merge order are the cost of its merge tree, whatever that tree is called. */
  lemma {:induction false} FlopsOfTree(e: Permutation, k: Instance, t: Tree)
    requires IsPermutation(e, |e|) && |k| == |e| + 2 && MergeTree(e) == t
    ensures WellFormed(t, 0, |e|) && Flops(e, k) == TreeCost(t, 0, |e|, k)
  {
    FlopsIsTreeCost(e, k);
  }

  /** t[0..n] of minEssential (src/apprx_algorithms.cpp:19-33): z holds the cyclic neighbour
      products, x their sum. */
  method EssentialCosts(k: Instance) returns (t: seq<int>)
    requires 1 <= |k| < U32
    ensures |t| == |k| && forall h :: 0 <= h < |k| ==> t[h] == EssentialCost(k, h)
  {
    var n := |k| - 1;
    var z: seq<int> := seq(|k|, _ => 0);
    z := z[0 := k[0] * k[n]];
    for i := 1 to n + 1
      invariant |z| == |k| && forall j :: 0 <= j < i ==> z[j] == Z(k, j)
    {
      z := z[i := k[i - 1] * k[i]];
    }
    var x: int := 0;
    for i := 0 to n + 1
      invariant x == ZSum(k, 0, i)
    {
      x := x + z[i];
    }
    t := seq(|k|, _ => 0);
    for i := 0 to n
      invariant |t| == |k| && forall j :: 0 <= j < i ==> t[j] == EssentialCost(k, j)
    {
      t := t[i := k[i] * (x - z[i] - z[i + 1])];
    }
    t := t[n := k[n] * (x - z[n] - z[0])];
  }

  /** src/apprx_algorithms.cpp:19-44: the first h whose essential parenthesisation is cheapest. */
  method MinEssential(k: Instance) returns (h: nat)
    requires 1 <= |k| < U32
    ensures h < |k|
    ensures forall i :: 0 <= i < |k| ==> EssentialCost(k, h) <= EssentialCost(k, i)
    ensures forall i :: 0 <= i < h ==> EssentialCost(k, h) < EssentialCost(k, i)
  {
    var t := EssentialCosts(k);
    var n := |k| - 1;
    h := 0;
    var th := t[h];
    for i := 1 to n + 1
      invariant h < i && th == t[h]
      invariant forall j :: 0 <= j < i ==> t[h] <= t[j]
      invariant forall j :: 0 <= j < h ==> t[h] < t[j]
    {
      if t[i] < th {
        th := t[i];
        h := i;
      }
    }
  }

  /** Hence the chosen essential parenthesisation is one of least FLOPs among them. */
  lemma {:induction false} MinEssentialCheapest(k: Instance, h: nat)
    requires 2 <= |k| && h < |k|
    requires forall i :: 0 <= i < |k| ==> EssentialCost(k, h) <= EssentialCost(k, i)
    ensures forall i :: 0 <= i < |k| ==> EssentialFlops(k, h) <= EssentialFlops(k, i)
  {
    forall i | 0 <= i < |k| ensures EssentialFlops(k, h) <= EssentialFlops(k, i) {
      EssentialCostIsFlops(k, i);
      EssentialCostIsFlops(k, h);
    }
  }

  /* ---------------------------------------------------------------------------------------- */
  /* Chin's labels                                                                             */

  /* Chin's format gives join j the label v[j-1]: the step at which it is performed. Labels
     1, 2, ... are handed out upwards from a and labels n-1, n-2, ... downwards from b; a slot
     holding 0 has no label yet. */

  function LabeledSet(v: seq<nat>): set<nat> {
    set s | 0 <= s < |v| && v[s] != 0
  }

  /** The slots 0..n-1. */
  function IndexSet(n: nat): (r: set<nat>)
    ensures forall s: nat :: s in r <==> s < n
    ensures |r| == n
  {
    if n == 0 then {} else
      var r0 := IndexSet(n - 1);
      assert n - 1 !in r0;
      assert |r0 + {n - 1}| == |r0| + 1;
      r0 + {n - 1}
  }

  lemma {:induction false} SubsetSize(A: set<nat>, B: set<nat>)
    requires A <= B
    ensures |A| <= |B|
    decreases B
  {
    if A != {} {
      var x :| x in A;
      SubsetSize(A - {x}, B - {x});
    }
  }

  /** The labels handed out so far are pairwise distinct, one per labelled slot, and come from
      1..a-1 and b+1..|v|. */
  ghost predicate Labels(v: seq<nat>, a: nat, b: int) {
    1 <= a && 0 <= b <= |v| &&
    |LabeledSet(v)| == (a - 1) + (|v| - b) &&
    (forall s :: 0 <= s < |v| && v[s] != 0 ==> v[s] < a || b < v[s] <= |v|) &&
    (forall s, u :: 0 <= s < u < |v| && v[s] != 0 && v[u] != 0 ==> v[s] != v[u])
  }

  /** While a slot is free, the two label ranges have not met. */
  lemma {:induction false} FreeSlot(v: seq<nat>, a: nat, b: int, s: nat)
    requires Labels(v, a, b) && s < |v| && v[s] == 0
    ensures a <= b
  {
    SubsetSize(LabeledSet(v), IndexSet(|v|) - {s});
  }

  lemma {:induction false} LabeledSetUpdate(v: seq<nat>, s: nat, x: nat)
    requires s < |v| && v[s] == 0 && x != 0
    ensures LabeledSet(v[s := x]) == LabeledSet(v) + {s}
  {
  }

  /** Giving a free slot the next label from below keeps the labels distinct. */
  lemma {:induction false} LabelFromBelow(v: seq<nat>, a: nat, b: int, s: nat)
    requires Labels(v, a, b) && s < |v| && v[s] == 0
    ensures Labels(v[s := a], a + 1, b)
  {
    FreeSlot(v, a, b, s);
    LabeledSetUpdate(v, s, a);
  }

  /** Giving a free slot the next label from above keeps the labels distinct. */
  lemma {:induction false} LabelFromAbove(v: seq<nat>, a: nat, b: int, s: nat)
    requires Labels(v, a, b) && s < |v| && v[s] == 0
    ensures b >= 1 && Labels(v[s := b], a, b - 1)
  {
    FreeSlot(v, a, b, s);
    LabeledSetUpdate(v, s, b);
  }

  /** Once every slot is labelled, the labels are a permutation of 1..|v|. */
  lemma {:induction false} LabelsComplete(v: seq<nat>, a: nat, b: int)
    requires Labels(v, a, b) && forall s :: 0 <= s < |v| ==> v[s] != 0
    ensures IsPermutation(v, |v|)
  {
    assert LabeledSet(v) == IndexSet(|v|);
  }

  /* ---------------------------------------------------------------------------------------- */
  /* The deque                                                                                 */

  predicate Ascending(Q: seq<nat>) {
    forall i, j :: 0 <= i < j < |Q| ==> Q[i] < Q[j]
  }

  /** r[m] is a largest reciprocal: k[m] is a smallest dimension. */
  ghost predicate Dominant(r: seq<real>, m: nat) {
    m < |r| && forall i :: 0 <= i < |r| ==> r[i] <= r[m]
  }

  /** The deque after Chin's forward scan: at least two positions of 0..n, increasing, and still
      holding the smallest dimension m. */
  ghost predicate Deque(Q: seq<nat>, n: nat, m: nat) {
    |Q| >= 2 && Ascending(Q) && Q[|Q| - 1] <= n && m in Q
  }

  /** Exactly the joins strictly inside the deque are unlabelled. */
  ghost predicate InteriorFree(v: seq<nat>, Q: seq<nat>) {
    |Q| >= 1 &&
    forall s :: 0 <= s < |v| ==> (v[s] == 0 <==> s + 1 in Q && s + 1 != Q[0] && s + 1 != Q[|Q| - 1])
  }

  lemma {:induction false} DropLast(Q: seq<nat>)
    requires |Q| >= 1 && Ascending(Q)
    ensures Ascending(Q[..|Q| - 1])
    ensures forall x :: x in Q[..|Q| - 1] <==> x in Q && x != Q[|Q| - 1]
  {
    var P := Q[..|Q| - 1];
    forall x | x in Q && x != Q[|Q| - 1] ensures x in P {
      var i :| 0 <= i < |Q| && Q[i] == x;
      assert P[i] == x;
    }
  }

  lemma {:induction false} DropFirst(Q: seq<nat>)
    requires |Q| >= 1 && Ascending(Q)
    ensures Ascending(Q[1..])
    ensures forall x :: x in Q[1..] <==> x in Q && x != Q[0]
  {
    var P := Q[1..];
    forall x | x in Q && x != Q[0] ensures x in P {
      var i :| 0 <= i < |Q| && Q[i] == x;
      assert P[i - 1] == x;
    }
  }

  lemma {:induction false} ReciprocalOrder(x: nat, y: nat)
    requires 0 < x <= y
    ensures 1.0 / (y as real) <= 1.0 / (x as real)
  {
    var X, Y := x as real, y as real;
    assert (1.0 / Y) * Y == 1.0 && (1.0 / X) * X == 1.0;
    assert 1.0 / Y * X <= 1.0 / Y * Y;
  }

  /** r[i] = 1 / d[i] (src/apprx_algorithms.cpp:53-55, 122-124). */
  method Reciprocals(k: Instance) returns (r: seq<real>)
    requires forall i :: 0 <= i < |k| ==> k[i] > 0
    ensures |r| == |k| && forall i :: 0 <= i < |k| ==> r[i] == 1.0 / (k[i] as real)
  {
    r := seq(|k|, _ => 0.0);
    for i := 0 to |k|
      invariant |r| == |k| && forall j :: 0 <= j < i ==> r[j] == 1.0 / (k[j] as real)
    {
      r := r[i := 1.0 / (k[i] as real)];
    }
  }

  /** The smallest dimension has the largest reciprocal. */
  lemma {:induction false} MinIndexDominant(k: Instance, r: seq<real>)
    requires |k| >= 1 && (forall i :: 0 <= i < |k| ==> k[i] > 0)
    requires |r| == |k| && forall i :: 0 <= i < |k| ==> r[i] == 1.0 / (k[i] as real)
    ensures Dominant(r, MinIndex(k))
  {
    var m := MinIndex(k);
    forall i | 0 <= i < |r| ensures r[i] <= r[m] {
      ReciprocalOrder(k[m], k[i]);
    }
  }

  /** Scan forward (src/apprx_algorithms.cpp:57-73, 126-142): a position whose matrix Lemma 1 of
      Chin's paper says to multiply first is popped and labelled from below. */
  method ScanForward(r: seq<real>, m: nat) returns (Q: seq<nat>, v: seq<nat>, a: nat)
    requires |r| >= 2 && Dominant(r, m)
    ensures |v| == |r| - 2 && Deque(Q, |r| - 1, m) && Q[0] == 0 && Q[|Q| - 1] == |r| - 1
    ensures Labels(v, a, |r| - 2) && InteriorFree(v, Q)
  {
    var n := |r| - 1;
    v := seq(n - 1, _ => 0);
    assert LabeledSet(v) == {};
    Q := [0];
    a := 1;
    for i := 1 to n
      invariant |Q| >= 1 && Q[0] == 0 && Ascending(Q) && forall j :: 0 <= j < |Q| ==> Q[j] < i
      invariant m < i ==> m in Q
      invariant |v| == n - 1 && Labels(v, a, n - 1)
      invariant forall s :: 0 <= s < |v| ==> (v[s] == 0 <==> i <= s + 1 || s + 1 in Q)
    {
      Q, v, a := ScanStep(r, m, i, Q, v, a);
    }
    Q := Q + [n];
  }

  /** One step of the forward scan: push i, then pop from the back while Lemma 1 applies. */
  method ScanStep(r: seq<real>, m: nat, i: nat, Q0: seq<nat>, v0: seq<nat>, a0: nat)
      returns (Q: seq<nat>, v: seq<nat>, a: nat)
    requires |r| >= 2 && Dominant(r, m) && 1 <= i < |r| - 1
    requires |Q0| >= 1 && Q0[0] == 0 && Ascending(Q0) && forall j :: 0 <= j < |Q0| ==> Q0[j] < i
    requires m < i ==> m in Q0
    requires |v0| == |r| - 2 && Labels(v0, a0, |r| - 2)
    requires forall s :: 0 <= s < |v0| ==> (v0[s] == 0 <==> i <= s + 1 || s + 1 in Q0)
    ensures |Q| >= 1 && Q[0] == 0 && Ascending(Q) && forall j :: 0 <= j < |Q| ==> Q[j] <= i
    ensures m <= i ==> m in Q
    ensures |v| == |r| - 2 && Labels(v, a, |r| - 2)
    ensures forall s :: 0 <= s < |v| ==> (v[s] == 0 <==> i < s + 1 || s + 1 in Q)
  {
    Q, v, a := Q0 + [i], v0, a0;
    assert i in Q;
    while |Q| >= 2 && r[Q[|Q| - 1]] + r[m] < r[Q[|Q| - 2]] + r[i + 1]
      invariant |Q| >= 1 && Q[0] == 0 && Ascending(Q) && forall j :: 0 <= j < |Q| ==> Q[j] <= i
      invariant m <= i ==> m in Q
      invariant |v| == |r| - 2 && Labels(v, a, |r| - 2)
      invariant forall s :: 0 <= s < |v| ==> (v[s] == 0 <==> i < s + 1 || s + 1 in Q)
      decreases |Q|
    {
      var back := Q[|Q| - 1];
      assert back in Q;
      assert back != m;
      assert Q[0] < back;
      LabelFromBelow(v, a, |r| - 2, back - 1);
      v := v[back - 1 := a];
      a := a + 1;
      DropLast(Q);
      Q := Q[..|Q| - 1];
    }
  }

  /** An ascending deque of positions 0..n holds at most n + 1 of them. */
  lemma {:induction false} AscendingLength(Q: seq<nat>, n: nat)
    requires |Q| >= 1 && Ascending(Q) && Q[|Q| - 1] <= n
    ensures |Q| <= n + 1
    decreases |Q|
  {
    if |Q| >= 2 {
      DropLast(Q);
      assert Q[|Q| - 2] < Q[|Q| - 1];
      AscendingLength(Q[..|Q| - 1], Q[|Q| - 1] - 1);
    }
  }

  /** Nibble at both ends (src/apprx_algorithms.cpp:75-89, 145-159): the new end of the deque is
      labelled from above, until neither end may be removed. */
  method Nibble(r: seq<real>, m: nat, Q0: seq<nat>, v0: seq<nat>, a: nat, b0: int)
      returns (Q: seq<nat>, v: seq<nat>, b: int)
    requires |r| >= 2 && Dominant(r, m) && Deque(Q0, |r| - 1, m)
    requires |v0| == |r| - 2 && Labels(v0, a, b0) && InteriorFree(v0, Q0)
    ensures Deque(Q, |r| - 1, m) && |v| == |v0| && Labels(v, a, b) && InteriorFree(v, Q)
    ensures |Q| >= 3 ==> !(r[Q[|Q| - 1]] + r[m] < r[Q[|Q| - 2]] + r[Q[0]])
    ensures |Q| >= 3 ==> !(r[Q[0]] + r[m] < r[Q[1]] + r[Q[|Q| - 1]])
  {
    Q, v, b := Q0, v0, b0;
    while |Q| >= 3
      invariant Deque(Q, |r| - 1, m) && |v| == |v0| && Labels(v, a, b) && InteriorFree(v, Q)
      decreases |Q|
    {
      if r[Q[|Q| - 1]] + r[m] < r[Q[|Q| - 2]] + r[Q[0]] {
        PopBack(r, m, Q, v, a, b);
        var P := Q[..|Q| - 1];
        var s := P[|P| - 1] - 1;
        Q, v, b := P, v[s := b], b - 1;
      } else if r[Q[0]] + r[m] < r[Q[1]] + r[Q[|Q| - 1]] {
        PopFront(r, m, Q, v, a, b);
        var P := Q[1..];
        var s := P[0] - 1;
        Q, v, b := P, v[s := b], b - 1;
      } else {
        break;
      }
    }
  }

  /** The back of the deque may go: it is not m, and the new back is a free join. */
  lemma {:induction false} PopBack(r: seq<real>, m: nat, Q: seq<nat>, v: seq<nat>, a: nat, b: int)
    requires |r| >= 2 && Dominant(r, m) && Deque(Q, |r| - 1, m) && |Q| >= 3
    requires |v| == |r| - 2 && Labels(v, a, b) && InteriorFree(v, Q)
    requires r[Q[|Q| - 1]] + r[m] < r[Q[|Q| - 2]] + r[Q[0]]
    ensures var P := Q[..|Q| - 1]; var s := P[|P| - 1] - 1;
      1 <= P[|P| - 1] && s < |v| && v[s] == 0 && b >= 1 &&
      Deque(P, |r| - 1, m) && Labels(v[s := b], a, b - 1) && InteriorFree(v[s := b], P)
  {
    var P := Q[..|Q| - 1];
    var x := P[|P| - 1];
    assert Q[|Q| - 1] != m;
    assert Q[0] < x < Q[|Q| - 1];
    DropLast(Q);
    LabelFromAbove(v, a, b, x - 1);
  }

  /** The front of the deque may go: it is not m, and the new front is a free join. */
  lemma {:induction false} PopFront(r: seq<real>, m: nat, Q: seq<nat>, v: seq<nat>, a: nat, b: int)
    requires |r| >= 2 && Dominant(r, m) && Deque(Q, |r| - 1, m) && |Q| >= 3
    requires |v| == |r| - 2 && Labels(v, a, b) && InteriorFree(v, Q)
    requires r[Q[0]] + r[m] < r[Q[1]] + r[Q[|Q| - 1]]
    ensures var P := Q[1..]; var s := P[0] - 1;
      1 <= P[0] && s < |v| && v[s] == 0 && b >= 1 &&
      Deque(P, |r| - 1, m) && Labels(v[s := b], a, b - 1) && InteriorFree(v[s := b], P)
  {
    var P := Q[1..];
    var x := P[0];
    assert Q[0] != m;
    assert Q[0] < x < Q[|Q| - 1];
    DropFirst(Q);
    LabelFromAbove(v, a, b, x - 1);
  }

  /** The joins strictly inside the deque are unlabelled, except those strictly between lo and hi
      other than h. */
  ghost predicate FreeExcept(v: seq<nat>, Q: seq<nat>, lo: int, hi: int, h: nat) {
    |Q| >= 1 &&
    forall s :: 0 <= s < |v| ==>
      (v[s] == 0 <==> s + 1 in Q && s + 1 != Q[0] && s + 1 != Q[|Q| - 1] && !(lo < s + 1 < hi && s + 1 != h))
  }

  /** Associate out from dimension h (src/apprx_algorithms.cpp:91-108, 168-185): the free joins
      left of h, then those right of h, get labels from below, and join h comes last. Every slot
      ends up labelled, each exactly once. */
  method AssociateOut(Q: seq<nat>, v0: seq<nat>, a0: nat, b: int, h: nat, n: nat) returns (v: seq<nat>)
    requires |Q| >= 2 && Ascending(Q) && Q[|Q| - 1] <= n && Q[0] <= h <= Q[|Q| - 1]
    requires |v0| == n - 1 && Labels(v0, a0, b) && InteriorFree(v0, Q)
    ensures |v| == |v0| && IsPermutation(v, |v|)
  {
    var a;
    v, a := AssociateLeft(Q, v0, a0, b, h);
    v, a := AssociateRight(Q, v, a, b, h);
    ghost var last := a;
    if h != 0 && h != n && v[h - 1] == 0 {
      LabelFromBelow(v, a, b, h - 1);
      v := v[h - 1 := a];
      last := a + 1;
    }
    forall s | 0 <= s < |v| ensures v[s] != 0 {
      if s + 1 in Q && s + 1 != Q[0] && s + 1 != Q[|Q| - 1] {
        assert Q[0] < s + 1 < Q[|Q| - 1] by {
          var p :| 0 <= p < |Q| && Q[p] == s + 1;
        }
      }
    }
    LabelsComplete(v, last, b);
  }

  /** The free joins between the front of the deque and h, from h - 1 down. */
  method AssociateLeft(Q: seq<nat>, v0: seq<nat>, a0: nat, b: int, h: nat) returns (v: seq<nat>, a: nat)
    requires |Q| >= 2 && Ascending(Q) && Q[|Q| - 1] <= |v0| + 1 && Q[0] <= h <= Q[|Q| - 1]
    requires Labels(v0, a0, b) && InteriorFree(v0, Q)
    ensures |v| == |v0| && Labels(v, a, b) && FreeExcept(v, Q, Q[0], h + 1, h)
  {
    v, a := v0, a0;
    var i: int := h - 1;
    while i > Q[0]
      invariant Q[0] <= i + 1 <= h || i == h - 1
      invariant |v| == |v0| && Labels(v, a, b) && FreeExcept(v, Q, i, h, h)
    {
      if v[i - 1] == 0 {
        LabelFromBelow(v, a, b, i - 1);
        v := v[i - 1 := a];
        a := a + 1;
      }
      i := i - 1;
    }
  }

  /** The free joins between h and the back of the deque, from h + 1 up. */
  method AssociateRight(Q: seq<nat>, v0: seq<nat>, a0: nat, b: int, h: nat) returns (v: seq<nat>, a: nat)
    requires |Q| >= 2 && Ascending(Q) && Q[|Q| - 1] <= |v0| + 1 && Q[0] <= h <= Q[|Q| - 1]
    requires Labels(v0, a0, b) && FreeExcept(v0, Q, Q[0], h + 1, h)
    ensures |v| == |v0| && Labels(v, a, b) && FreeExcept(v, Q, Q[0], Q[|Q| - 1], h)
  {
    v, a := v0, a0;
    var i := h + 1;
    while i < Q[|Q| - 1]
      invariant h + 1 <= i <= Q[|Q| - 1] || i == h + 1
      invariant |v| == |v0| && Labels(v, a, b) && FreeExcept(v, Q, Q[0], i, h)
    {
      if v[i - 1] == 0 {
        LabelFromBelow(v, a, b, i - 1);
        v := v[i - 1 := a];
        a := a + 1;
      }
      i := i + 1;
    }
  }

  /* ---------------------------------------------------------------------------------------- */
  /* chin2Canonical                                                                            */

  /** The position of y in p. */
  function IndexOf(p: seq<nat>, y: nat): (i: nat)
    requires y in p
    ensures i < |p| && p[i] == y
  {
    if p[0] == y then 0 else 1 + IndexOf(p[1..], y)
  }

  /** The inverse of a permutation of 1..|p|: Inverse(p)[x-1] is the position (from 1) of x in p. */
  function Inverse(p: Permutation): (q: Permutation)
    requires IsPermutation(p, |p|)
    ensures |q| == |p|
  {
    PermutationCovers(p, |p|);
    seq(|p|, x requires 0 <= x < |p| => IndexOf(p, x + 1) + 1)
  }

  /** A sequence that sends each p[i] - 1 to i + 1 is the inverse of p. */
  lemma {:induction false} InverseUnique(p: Permutation, q: seq<nat>)
    requires IsPermutation(p, |p|) && |q| == |p|
    requires forall i :: 0 <= i < |p| ==> q[p[i] - 1] == i + 1
    ensures q == Inverse(p)
  {
    PermutationCovers(p, |p|);
    forall x | 0 <= x < |p| ensures q[x] == Inverse(p)[x] {
      var j := IndexOf(p, x + 1);
      assert q[p[j] - 1] == j + 1;
    }
  }

  /** Inverse(p) sends each join p[i] back to the step i + 1 at which p performs it. */
  lemma {:induction false} InverseSends(p: Permutation)
    requires IsPermutation(p, |p|)
    ensures forall i :: 0 <= i < |p| ==> Inverse(p)[p[i] - 1] == i + 1
  {
    forall i | 0 <= i < |p| ensures Inverse(p)[p[i] - 1] == i + 1 {
      DistinctAt(p, IndexOf(p, p[i]), i);
    }
  }

  /** Entry x of the inverse names the step at which p performs join x + 1. */
  lemma {:induction false} InverseAt(p: Permutation, x: nat)
    requires IsPermutation(p, |p|) && x < |p|
    ensures 1 <= Inverse(p)[x] <= |p| && p[Inverse(p)[x] - 1] == x + 1
  {
    PermutationCovers(p, |p|);
    var j := IndexOf(p, x + 1);
    assert Inverse(p)[x] == j + 1;
  }

  /** Inverting turns the step at which each join is performed into the join performed at each
      step. */
  lemma {:induction false} InverseIsPermutation(p: Permutation)
    requires IsPermutation(p, |p|)
    ensures IsPermutation(Inverse(p), |p|)
    ensures forall i :: 0 <= i < |p| ==> Inverse(p)[p[i] - 1] == i + 1
  {
    var q := Inverse(p);
    InverseSends(p);
    assert JoinsInRange(q) by {
      forall x | 0 <= x < |q| ensures 1 <= q[x] <= |q| {
        InverseAt(p, x);
      }
    }
    assert Distinct(q) by {
      forall x, y | 0 <= x < y < |q| ensures q[x] != q[y] {
        InverseAt(p, x);
        InverseAt(p, y);
      }
    }
  }

  /** Inverting twice gives the permutation back. */
  lemma {:induction false} InverseInvolution(p: Permutation)
    requires IsPermutation(p, |p|)
    ensures Inverse(Inverse(p)) == p
  {
    var q := Inverse(p);
    InverseIsPermutation(p);
    forall x | 0 <= x < |p| ensures p[q[x] - 1] == x + 1 {
      InverseAt(p, x);
    }
    InverseUnique(q, p);
  }

  lemma {:induction false} DistinctAt(q: seq<nat>, x: nat, y: nat)
    requires Distinct(q) && x < |q| && y < |q| && q[x] == q[y]
    ensures x == y
  {
  }

  /** src/apprx_algorithms.cpp:193-200. */
  method ChinToCanonical(chins: Permutation) returns (perm: Permutation)
    requires IsPermutation(chins, |chins|)
    ensures perm == Canonical(Inverse(chins))
    ensures IsPermutation(perm, |chins|) && IsCanonicalForm(perm)
  {
    var c: seq<nat> := seq(|chins|, _ => 0);
    for i := 0 to |chins|
      invariant |c| == |chins| && forall j :: 0 <= j < i ==> c[chins[j] - 1] == j + 1
    {
      c := c[chins[i] - 1 := i + 1];
    }
    InverseUnique(chins, c);
    InverseIsPermutation(chins);
    perm := PermutationTransformer.Canonicalize(c);
    CanonicalIsPermutation(c);
    CanonicalIdempotent(c);
  }

  /* ---------------------------------------------------------------------------------------- */
  /* chin, reduceMin                                                                           */

  /** src/apprx_algorithms.cpp:46-113. */
  method Chin(k: Instance) returns (perm: Permutation)
    requires 2 <= |k| <= I32 && forall i :: 0 <= i < |k| ==> k[i] > 0
    ensures IsPermutation(perm, |k| - 2) && IsCanonicalForm(perm)
  {
    var n := |k| - 1;
    var m := MinIndex(k);
    var r := Reciprocals(k);
    MinIndexDominant(k, r);
    var Q, v, a := ScanForward(r, m);
    var b := n - 1;
    Q, v, b := Nibble(r, m, Q, v, a, b);
    v := AssociateOut(Q, v, a, b, m, n);
    perm := ChinToCanonical(v);
  }

  /** The reduced instance: the dimensions at the positions left in the deque (src/apprx_algorithms.cpp:163-164). */
  method ReducedInstance(k: Instance, Q: seq<nat>) returns (q: Instance)
    requires forall i :: 0 <= i < |Q| ==> Q[i] < |k|
    ensures |q| == |Q| && forall i :: 0 <= i < |Q| ==> q[i] == k[Q[i]]
  {
    q := seq(|Q|, _ => 0);
    for i := 0 to |Q|
      invariant |q| == |Q| && forall j :: 0 <= j < i ==> q[j] == k[Q[j]]
    {
      q := q[i := k[Q[i]]];
    }
  }

  /** src/apprx_algorithms.cpp:115-191. */
  method ReduceMin(k: Instance) returns (perm: Permutation)
    requires 2 <= |k| <= I32 && forall i :: 0 <= i < |k| ==> k[i] > 0
    ensures IsPermutation(perm, |k| - 2) && IsCanonicalForm(perm)
  {
    var n := |k| - 1;
    var m := MinIndex(k);
    var r := Reciprocals(k);
    MinIndexDominant(k, r);
    var Q, v, a := ScanForward(r, m);
    var b := n - 1;
    Q, v, b := Nibble(r, m, Q, v, a, b);
    if |Q| >= 3 {
      AscendingLength(Q, n);
      var q := ReducedInstance(k, Q);
      var hq := MinEssential(q);
      var h := Q[hq];
      v := AssociateOut(Q, v, a, b, h, n);
    } else {
      forall s | 0 <= s < |v| ensures v[s] != 0 {
        if s + 1 in Q {
          var p :| 0 <= p < |Q| && Q[p] == s + 1;
        }
      }
      LabelsComplete(v, a, b);
    }
    perm := ChinToCanonical(v);
  }
}

/** The state reached after performing a prefix P of a merge order. The joins not yet performed
    cut the chain 0..L into maximal groups of consecutive matrices, each already multiplied into
    one product. Both the canonicaliser's dependency table (src/permutation.cpp) and the node
    array of an Algorithm (src/algorithm.cpp) record these groups: the first by the root join of
    the group on each side of every pending join, the second by the root node of every matrix. */
module Groups {
  import opened Definitions
  import opened MergeTrees

  /** The first matrix of the group that holds matrix x after P: the nearest pending join at or
      below x, or 0. */
  function LoBound(P: seq<nat>, x: nat): (r: nat)
    ensures r <= x
    ensures r == 0 || r !in P
  {
    if x == 0 then 0 else if x !in P then x else LoBound(P, x - 1)
  }

  /** The last matrix of the group that holds matrix x after P, in a chain of matrices 0..L. */
  function HiBound(P: seq<nat>, x: nat, L: nat): (r: nat)
    requires x <= L
    ensures x <= r <= L
    ensures r == L || r + 1 !in P
    decreases L - x
  {
    if x == L then L else if x + 1 !in P then x else HiBound(P, x + 1, L)
  }

  /** The join that multiplied the group of matrices lo..hi last (its root), or -1 if P has not
      joined any of them. */
  function GroupRoot(P: seq<nat>, lo: nat, hi: nat): int {
    var k := LastIn(P, lo, hi);
    if k < 0 then -1 else P[k]
  }

  /** The root join of the group that ends with matrix q-1: what the table calls q's left. */
  function LeftRoot(P: seq<nat>, q: nat): int
    requires q >= 1
  {
    GroupRoot(P, LoBound(P, q - 1), q - 1)
  }

  /** The root join of the group that starts with matrix q: what the table calls q's right. */
  function RightRoot(P: seq<nat>, q: nat, L: nat): int
    requires q <= L
  {
    GroupRoot(P, q, HiBound(P, q, L))
  }

  /** The node of an Algorithm's array that represents the group holding matrix x after P:
      the leaf x itself while the group is a single matrix, otherwise internal node L+1+k,
      created by the k-th join of P, the group's root. */
  function GroupNode(P: seq<nat>, x: nat, L: nat): nat
    requires x <= L
  {
    var k := LastIn(P, LoBound(P, x), HiBound(P, x, L));
    if k < 0 then x else L + 1 + k
  }

  /* ---------------------------------------------------------------------------------------- */
  /* The bounds are determined by their three properties                                       */

  /** Every join between the start of x's group and x has been performed. */
  lemma {:induction false} LoBoundGap(P: seq<nat>, x: nat)
    ensures forall y :: LoBound(P, x) < y <= x ==> y in P
  {
    if x > 0 && x in P {
      LoBoundGap(P, x - 1);
    }
  }

  /** Every join between x and the end of x's group has been performed. */
  lemma {:induction false} HiBoundGap(P: seq<nat>, x: nat, L: nat)
    requires x <= L
    ensures forall y :: x < y <= HiBound(P, x, L) ==> y in P
    decreases L - x
  {
    if x < L && x + 1 in P {
      HiBoundGap(P, x + 1, L);
    }
  }

  lemma {:induction false} LoBoundUnique(P: seq<nat>, x: nat, r: nat)
    requires r <= x && (r == 0 || r !in P)
    requires forall y :: r < y <= x ==> y in P
    ensures LoBound(P, x) == r
  {
    if r < x {
      LoBoundUnique(P, x - 1, r);
    }
  }

  lemma {:induction false} HiBoundUnique(P: seq<nat>, x: nat, L: nat, r: nat)
    requires x <= r <= L && (r == L || r + 1 !in P)
    requires forall y :: x < y <= r ==> y in P
    ensures HiBound(P, x, L) == r
    decreases r - x
  {
    if x < r {
      HiBoundUnique(P, x + 1, L, r);
    }
  }

  /** Performing one more join leaves a group alone when that join is outside it. */
  lemma {:induction false} GroupRootAppendOutside(P: seq<nat>, p: nat, lo: nat, hi: nat)
    requires !(lo < p <= hi)
    ensures GroupRoot(P + [p], lo, hi) == GroupRoot(P, lo, hi)
  {
    assert (P + [p])[..|P|] == P;
  }

  /** ... and makes itself the root of a group it lies in. */
  lemma {:induction false} GroupRootAppendInside(P: seq<nat>, p: nat, lo: nat, hi: nat)
    requires lo < p <= hi
    ensures GroupRoot(P + [p], lo, hi) == p
  {
  }

  /* ---------------------------------------------------------------------------------------- */
  /* Performing join p merges the group ending at matrix p-1 with the group starting at p      */

  /** After join p, the pending join just above the merged group has p as its left root; every
      other pending join keeps its left root. */
  lemma {:induction false} MergeLeftRoot(P: seq<nat>, p: nat, q: nat, L: nat)
    requires 1 <= p <= L && p !in P
    requires 1 <= q <= L && q != p && q !in P
    ensures LeftRoot(P + [p], q) == if q - 1 == HiBound(P, p, L) then p else LeftRoot(P, q)
  {
    if q - 1 == HiBound(P, p, L) {
      LoBoundGap(P, p - 1);
      HiBoundGap(P, p, L);
      LoBoundUnique(P + [p], q - 1, LoBound(P, p - 1));
      GroupRootAppendInside(P, p, LoBound(P, p - 1), q - 1);
    } else {
      LoBoundAppendOther(P, p, q, L);
      LeftRootAppendOutside(P, p, q);
    }
  }

  /** A pending join other than the one just above the merged group keeps the start of the
      group below it, and p is not inside that group. */
  lemma {:induction false} LoBoundAppendOther(P: seq<nat>, p: nat, q: nat, L: nat)
    requires 1 <= p <= L && p !in P
    requires 1 <= q <= L && q != p && q !in P && q - 1 != HiBound(P, p, L)
    ensures LoBound(P + [p], q - 1) == LoBound(P, q - 1) && !(LoBound(P, q - 1) < p <= q - 1)
  {
    var y := LoBound(P, q - 1);
    if q > p {
      LoBoundAbove(P, p, q, L);
    }
    assert y != p;
    LoBoundGap(P, q - 1);
    forall z | y < z <= q - 1 ensures z in P + [p] {
      assert z in P;
    }
    LoBoundUnique(P + [p], q - 1, y);
  }

  /** A pending join q beyond the merged group has its own group start above p. */
  lemma {:induction false} LoBoundAbove(P: seq<nat>, p: nat, q: nat, L: nat)
    requires 1 <= p < q <= L && q !in P && q - 1 != HiBound(P, p, L)
    ensures p < LoBound(P, q - 1)
  {
    var h := HiBound(P, p, L);
    HiBoundGap(P, p, L);
    assert h < q;
    assert h + 1 <= q - 1 && h + 1 !in P;
    LoBoundGap(P, q - 1);
  }

  lemma {:induction false} LeftRootAppendOutside(P: seq<nat>, p: nat, q: nat)
    requires q >= 1 && !(LoBound(P, q - 1) < p <= q - 1)
    requires LoBound(P + [p], q - 1) == LoBound(P, q - 1)
    ensures LeftRoot(P + [p], q) == LeftRoot(P, q)
  {
    GroupRootAppendOutside(P, p, LoBound(P, q - 1), q - 1);
  }

  /** After join p, the pending join just below the merged group has p as its right root; every
      other pending join keeps its right root. */
  lemma {:induction false} MergeRightRoot(P: seq<nat>, p: nat, q: nat, L: nat)
    requires 1 <= p <= L && p !in P
    requires 1 <= q <= L && q != p && q !in P
    ensures RightRoot(P + [p], q, L) == if q == LoBound(P, p - 1) then p else RightRoot(P, q, L)
  {
    if q == LoBound(P, p - 1) {
      MergeRightRootJoined(P, p, q, L);
    } else if q > p {
      MergeRightRootAbove(P, p, q, L);
    } else {
      MergeRightRootBelow(P, p, q, L);
    }
  }

  lemma {:induction false} MergeRightRootJoined(P: seq<nat>, p: nat, q: nat, L: nat)
    requires 1 <= p <= L && p !in P
    requires 1 <= q < p && q == LoBound(P, p - 1)
    ensures RightRoot(P + [p], q, L) == p
  {
    var hp := HiBound(P, p, L);
    LoBoundGap(P, p - 1);
    HiBoundGap(P, p, L);
    forall y | q < y <= hp ensures y in P + [p] {
      if y != p {
        assert y in P;
      }
    }
    HiBoundUnique(P + [p], q, L, hp);
    GroupRootAppendInside(P, p, q, hp);
  }

  lemma {:induction false} MergeRightRootAbove(P: seq<nat>, p: nat, q: nat, L: nat)
    requires 1 <= p < q <= L
    ensures RightRoot(P + [p], q, L) == RightRoot(P, q, L)
  {
    HiBoundGap(P, q, L);
    HiBoundUnique(P + [p], q, L, HiBound(P, q, L));
    RightRootAppendOutside(P, p, q, L);
  }

  lemma {:induction false} MergeRightRootBelow(P: seq<nat>, p: nat, q: nat, L: nat)
    requires 1 <= p <= L && p !in P
    requires 1 <= q < p && q !in P && q != LoBound(P, p - 1)
    ensures RightRoot(P + [p], q, L) == RightRoot(P, q, L)
  {
    HiBoundAppendBelow(P, p, q, L);
    RightRootAppendOutside(P, p, q, L);
  }

  /** q's group lies below the merged group, so it ends before p. */
  lemma {:induction false} HiBoundAppendBelow(P: seq<nat>, p: nat, q: nat, L: nat)
    requires 1 <= p <= L && p !in P
    requires 1 <= q < p && q !in P && q != LoBound(P, p - 1)
    ensures HiBound(P, q, L) < p && HiBound(P + [p], q, L) == HiBound(P, q, L)
  {
    var h := HiBound(P, q, L);
    LoBoundGap(P, p - 1);
    HiBoundGap(P, q, L);
    assert q < LoBound(P, p - 1);
    assert h < LoBound(P, p - 1) by {
      HiBoundBelow(P, q, L, LoBound(P, p - 1));
    }
    HiBoundUnique(P + [p], q, L, h);
  }

  /** A join outside the group that starts at q, and that keeps its end, keeps its root. */
  lemma {:induction false} RightRootAppendOutside(P: seq<nat>, p: nat, q: nat, L: nat)
    requires q <= L && !(q < p <= HiBound(P, q, L))
    requires HiBound(P + [p], q, L) == HiBound(P, q, L)
    ensures RightRoot(P + [p], q, L) == RightRoot(P, q, L)
  {
    GroupRootAppendOutside(P, p, q, HiBound(P, q, L));
  }

  /** A group ends before any pending join above its start. */
  lemma {:induction false} HiBoundBelow(P: seq<nat>, q: nat, L: nat, y: nat)
    requires q < y <= L && y !in P
    ensures HiBound(P, q, L) < y
  {
    HiBoundGap(P, q, L);
  }

  /** After join p, every matrix of the merged group is represented by the new node L+1+|P|;
      every other matrix keeps its node. */
  lemma {:induction false} MergeGroupNode(P: seq<nat>, p: nat, x: nat, L: nat)
    requires 1 <= p <= L && p !in P && x <= L
    ensures GroupNode(P + [p], x, L) ==
      if LoBound(P, p - 1) <= x <= HiBound(P, p, L) then L + 1 + |P| else GroupNode(P, x, L)
  {
    if LoBound(P, p - 1) <= x <= HiBound(P, p, L) {
      MergedBounds(P, p, x, L);
      GroupNodeAppendInside(P, p, x, L);
    } else {
      UnmergedBounds(P, p, x, L);
      GroupNodeAppendOutside(P, p, x, L);
    }
  }

  /** A matrix of the merged group has the merged group's bounds after join p. */
  lemma {:induction false} MergedBounds(P: seq<nat>, p: nat, x: nat, L: nat)
    requires 1 <= p <= L && p !in P && LoBound(P, p - 1) <= x <= HiBound(P, p, L)
    ensures LoBound(P + [p], x) == LoBound(P, p - 1) && HiBound(P + [p], x, L) == HiBound(P, p, L)
  {
    LoBoundGap(P, p - 1);
    HiBoundGap(P, p, L);
    LoBoundUnique(P + [p], x, LoBound(P, p - 1));
    HiBoundUnique(P + [p], x, L, HiBound(P, p, L));
  }

  /** A matrix outside the merged group keeps its bounds after join p, and p is not inside them. */
  lemma {:induction false} UnmergedBounds(P: seq<nat>, p: nat, x: nat, L: nat)
    requires 1 <= p <= L && p !in P && x <= L
    requires !(LoBound(P, p - 1) <= x <= HiBound(P, p, L))
    ensures LoBound(P + [p], x) == LoBound(P, x) && HiBound(P + [p], x, L) == HiBound(P, x, L)
    ensures !(LoBound(P, x) < p <= HiBound(P, x, L))
  {
    var a, b := LoBound(P, x), HiBound(P, x, L);
    LoBoundGap(P, x);
    HiBoundGap(P, x, L);
    if x < LoBound(P, p - 1) {
      assert b < LoBound(P, p - 1);
    } else {
      assert HiBound(P, p, L) + 1 <= a;
    }
    LoBoundUnique(P + [p], x, a);
    HiBoundUnique(P + [p], x, L, b);
  }

  lemma {:induction false} GroupNodeAppendInside(P: seq<nat>, p: nat, x: nat, L: nat)
    requires x <= L && LoBound(P + [p], x) < p <= HiBound(P + [p], x, L)
    ensures GroupNode(P + [p], x, L) == L + 1 + |P|
  {
  }

  lemma {:induction false} GroupNodeAppendOutside(P: seq<nat>, p: nat, x: nat, L: nat)
    requires x <= L && !(LoBound(P, x) < p <= HiBound(P, x, L))
    requires LoBound(P + [p], x) == LoBound(P, x) && HiBound(P + [p], x, L) == HiBound(P, x, L)
    ensures GroupNode(P + [p], x, L) == GroupNode(P, x, L)
  {
    assert (P + [p])[..|P|] == P;
  }

  /** The two groups that join p merges are represented by different nodes. */
  lemma {:induction false} GroupNodesDiffer(P: seq<nat>, p: nat, L: nat)
    requires 1 <= p <= L && p !in P
    ensures GroupNode(P, p - 1, L) != GroupNode(P, p, L)
  {
    LoBoundUnique(P, p, p);
    HiBoundUnique(P, p - 1, L, p - 1);
  }

  /** A matrix belongs to one of the two groups that join p merges exactly when its node is
      one of theirs. */
  lemma {:induction false} GroupNodeSeparates(P: seq<nat>, p: nat, x: nat, L: nat)
    requires 1 <= p <= L && p !in P && x <= L
    ensures (LoBound(P, p - 1) <= x <= HiBound(P, p, L)) <==>
            (GroupNode(P, x, L) == GroupNode(P, p - 1, L) || GroupNode(P, x, L) == GroupNode(P, p, L))
  {
    if LoBound(P, p - 1) <= x < p {
      LeftGroupBounds(P, p, x, L);
      SameBoundsSameNode(P, x, p - 1, L);
    } else if p <= x <= HiBound(P, p, L) {
      RightGroupBounds(P, p, x, L);
      SameBoundsSameNode(P, x, p, L);
    } else if x < LoBound(P, p - 1) {
      GroupNodeBelow(P, p, x, L);
    } else {
      GroupNodeAbove(P, p, x, L);
    }
  }

  /** Every matrix of the group below join p has that group's bounds. */
  lemma {:induction false} LeftGroupBounds(P: seq<nat>, p: nat, x: nat, L: nat)
    requires 1 <= p <= L && p !in P && LoBound(P, p - 1) <= x < p
    ensures LoBound(P, x) == LoBound(P, p - 1) && HiBound(P, x, L) == HiBound(P, p - 1, L)
  {
    LoBoundGap(P, p - 1);
    LoBoundUnique(P, x, LoBound(P, p - 1));
    HiBoundUnique(P, x, L, p - 1);
    HiBoundUnique(P, p - 1, L, p - 1);
  }

  /** Every matrix of the group above join p has that group's bounds. */
  lemma {:induction false} RightGroupBounds(P: seq<nat>, p: nat, x: nat, L: nat)
    requires 1 <= p <= L && p !in P && p <= x <= HiBound(P, p, L)
    ensures LoBound(P, x) == LoBound(P, p) && HiBound(P, x, L) == HiBound(P, p, L)
  {
    HiBoundGap(P, p, L);
    LoBoundUnique(P, x, p);
    HiBoundUnique(P, x, L, HiBound(P, p, L));
    LoBoundUnique(P, p, p);
  }

  lemma {:induction false} SameBoundsSameNode(P: seq<nat>, x: nat, y: nat, L: nat)
    requires x <= L && y <= L
    requires LoBound(P, x) == LoBound(P, y) && HiBound(P, x, L) == HiBound(P, y, L)
    ensures GroupNode(P, x, L) == GroupNode(P, y, L)
  {
    var lo, hi := LoBound(P, x), HiBound(P, x, L);
    if lo < hi {
      LoBoundGap(P, x);
      HiBoundGap(P, x, L);
      CoveredHasLast(P, lo, hi);
    }
  }

  lemma {:induction false} GroupNodeBelow(P: seq<nat>, p: nat, x: nat, L: nat)
    requires 1 <= p <= L && p !in P && x < LoBound(P, p - 1)
    ensures GroupNode(P, x, L) != GroupNode(P, p - 1, L) && GroupNode(P, x, L) != GroupNode(P, p, L)
  {
    var b := HiBound(P, x, L);
    HiBoundGap(P, x, L);
    assert b < LoBound(P, p - 1);
    LoBoundUnique(P, p, p);
    HiBoundUnique(P, p - 1, L, p - 1);
  }

  lemma {:induction false} GroupNodeAbove(P: seq<nat>, p: nat, x: nat, L: nat)
    requires 1 <= p <= L && p !in P && HiBound(P, p, L) < x <= L
    ensures GroupNode(P, x, L) != GroupNode(P, p - 1, L) && GroupNode(P, x, L) != GroupNode(P, p, L)
  {
    var a := LoBound(P, x);
    LoBoundGap(P, x);
    assert HiBound(P, p, L) + 1 <= a;
    LoBoundUnique(P, p, p);
    HiBoundUnique(P, p - 1, L, p - 1);
  }

  /* ---------------------------------------------------------------------------------------- */
  /* When a complete group is merged, its bounds are the group's own                            */

  /** The group lo..hi (its inner joins all in P) is merged last by the join at k = LastIn(P, lo,
      hi). If neither boundary join was performed before k, the group that join k closes is
      exactly lo..hi. */
  lemma {:induction false} RootBounds(P: seq<nat>, lo: nat, hi: nat, L: nat)
    requires Distinct(P) && lo <= hi <= L
    requires forall y :: lo < y <= hi ==> y in P
    requires LastIn(P, lo, hi) >= 0
    requires var k := LastIn(P, lo, hi);
      (lo == 0 || lo !in P[..k]) && (hi == L || hi + 1 !in P[..k])
    ensures var k := LastIn(P, lo, hi);
      LoBound(P[..k], P[k] - 1) == lo && HiBound(P[..k], P[k], L) == hi
  {
    var k := LastIn(P, lo, hi);
    var j := P[k];
    LastInIsLast(P, lo, hi);
    forall y | lo < y <= hi && y != j ensures y in P[..k] {
      assert y in P;
      var i :| 0 <= i < |P| && P[i] == y;
      assert i < k;
      assert P[..k][i] == y;
    }
    LoBoundUnique(P[..k], j - 1, lo);
    HiBoundUnique(P[..k], j, L, hi);
  }

  /** A sub-tree of Build(P, lo, hi) whose boundary joins come after its own joins. */
  predicate Delimited(P: seq<nat>, lo: nat, hi: nat, L: nat) {
    var k := LastIn(P, lo, hi);
    k >= 0 ==> (lo == 0 || lo !in P[..k]) && (hi == L || hi + 1 !in P[..k])
  }

  /** Both sub-trees of a delimited node are delimited: their boundary is the node's own join,
      performed after them, or the node's boundary. */
  lemma {:induction false} DelimitedChildren(P: seq<nat>, lo: nat, hi: nat, L: nat)
    requires Distinct(P) && Delimited(P, lo, hi, L) && LastIn(P, lo, hi) >= 0
    ensures var j := P[LastIn(P, lo, hi)];
      Delimited(P, lo, j - 1, L) && Delimited(P, j, hi, L)
  {
    var k := LastIn(P, lo, hi);
    var j := P[k];
    var kl, kr := LastIn(P, lo, j - 1), LastIn(P, j, hi);
    LastInIsLast(P, lo, hi);
    if kl >= 0 {
      assert kl < k;
      assert P[..kl] == P[..k][..kl];
      assert j !in P[..kl];
    }
    if kr >= 0 {
      assert kr < k;
      assert P[..kr] == P[..k][..kr];
      assert j !in P[..kr];
    }
  }

  /** A group's root is unchanged by cutting P after the last join that lies in the group. */
  lemma {:induction false} GroupRootPrefix(P: seq<nat>, m: nat, lo: nat, hi: nat)
    requires m <= |P|
    requires forall i :: m <= i < |P| ==> !(lo < P[i] <= hi)
    ensures GroupRoot(P[..m], lo, hi) == GroupRoot(P, lo, hi)
  {
    assert P == P[..m] + P[m..];
    forall x | x in P[m..] ensures !(lo < x <= hi) {
      var i :| 0 <= i < |P[m..]| && P[m..][i] == x;
      assert P[m + i] == x;
    }
    LastInSuffix(P[..m], P[m..], lo, hi);
  }

  /** When the root join j of a delimited sub-tree lo..hi is performed, the groups it merges are
      the two sub-trees, and their roots are the sub-trees' roots. */
  lemma {:induction false} RootChildren(P: seq<nat>, lo: nat, hi: nat, L: nat)
    requires Distinct(P) && lo <= hi <= L && Covers(P, lo, hi)
    requires Delimited(P, lo, hi, L) && LastIn(P, lo, hi) >= 0
    ensures var k := LastIn(P, lo, hi);
      1 <= P[k] <= L &&
      LeftRoot(P[..k], P[k]) == RootJoin(Build(P, lo, P[k] - 1)) &&
      RightRoot(P[..k], P[k], L) == RootJoin(Build(P, P[k], hi))
  {
    var k := LastIn(P, lo, hi);
    var j := P[k];
    RootBounds(P, lo, hi, L);
    GroupRootsAtRoot(P, lo, hi);
    RootJoinBuild(P, lo, j - 1);
    RootJoinBuild(P, j, hi);
  }

  /** The two halves of lo..hi either side of its root join j have, when j is performed, the
      roots they have at the end. */
  lemma {:induction false} GroupRootsAtRoot(P: seq<nat>, lo: nat, hi: nat)
    requires LastIn(P, lo, hi) >= 0
    ensures var k := LastIn(P, lo, hi);
      GroupRoot(P[..k], lo, P[k] - 1) == GroupRoot(P, lo, P[k] - 1) &&
      GroupRoot(P[..k], P[k], hi) == GroupRoot(P, P[k], hi)
  {
    var k := LastIn(P, lo, hi);
    var j := P[k];
    LastInIsLast(P, lo, hi);
    assert forall i :: k <= i < |P| ==> !(lo < P[i] <= j - 1) && !(j < P[i] <= hi);
    GroupRootPrefix(P, k, lo, j - 1);
    GroupRootPrefix(P, k, j, hi);
  }

  /** The group that holds matrix x after P is covered by P and delimited by pending joins. */
  lemma {:induction false} GroupDelimited(P: seq<nat>, x: nat, L: nat)
    requires x <= L
    ensures var lo, hi := LoBound(P, x), HiBound(P, x, L);
      Covers(P, lo, hi) && Delimited(P, lo, hi, L)
  {
    var lo, hi := LoBound(P, x), HiBound(P, x, L);
    var k := LastIn(P, lo, hi);
    LoBoundGap(P, x);
    HiBoundGap(P, x, L);
    if k >= 0 {
      assert forall y :: y in P[..k] ==> y in P;
    }
  }

  /** The group that holds matrix x is a single matrix, or it is exactly the group that its
      root join closed. */
  predicate GroupOfRoot(P: seq<nat>, x: nat, L: nat)
    requires x <= L
  {
    var lo, hi := LoBound(P, x), HiBound(P, x, L);
    var k := LastIn(P, lo, hi);
    (k < 0 ==> lo == x == hi) &&
    (k >= 0 ==> 1 <= P[k] <= L && LoBound(P[..k], P[k] - 1) == lo && HiBound(P[..k], P[k], L) == hi)
  }

  /** The group that holds matrix x is a single matrix, or it is exactly the group that its
      root join closed. */
  lemma {:induction false} GroupNodeBounds(P: seq<nat>, x: nat, L: nat)
    requires Distinct(P) && x <= L
    ensures GroupOfRoot(P, x, L)
  {
    var lo, hi := LoBound(P, x), HiBound(P, x, L);
    GroupDelimited(P, x, L);
    if LastIn(P, lo, hi) < 0 {
      if lo < hi {
        CoveredHasLast(P, lo, hi);
      }
    } else {
      RootBounds(P, lo, hi, L);
    }
  }

  /** The root of a built tree is the root join of its group. */
  lemma {:induction false} RootJoinBuild(P: seq<nat>, lo: nat, hi: nat)
    ensures RootJoin(Build(P, lo, hi)) == GroupRoot(P, lo, hi)
  {
  }
}

/** The canonicaliser (src/permutation.cpp, src/permutation.hpp). It replays a merge order over a
    table with one entry per join; when join p is performed, the nearest pending join below p
    records p as its right dependency and the nearest pending join above p records p as its
    left one. The table then holds the merge tree: walking it from the last join, right branch
    before left, and reversing the walk yields the tree's post-order. */
module PermutationTransformer {
  import opened Definitions
  import opened MergeTrees
  import opened Groups

  /** One table entry (src/permutation.hpp:11-14); -1 means "no dependency". */
  datatype InfoEntry = InfoEntry(left: int, right: int, computed: bool)

  const Cleared := InfoEntry(-1, -1, false)

  /* ---------------------------------------------------------------------------------------- */
  /* The table as a value                                                                     */

  /** The index of the nearest entry at or below i that is not computed, or -1. */
  function OpenBelow(table: seq<InfoEntry>, i: int): (r: int)
    requires -1 <= i < |table|
    ensures -1 <= r <= i
    ensures r >= 0 ==> !table[r].computed
    decreases i + 1
  {
    if i < 0 then -1 else if !table[i].computed then i else OpenBelow(table, i - 1)
  }

  /** The index of the nearest entry at or above i that is not computed, or |table|. */
  function OpenAbove(table: seq<InfoEntry>, i: nat): (r: nat)
    requires i <= |table|
    ensures i <= r <= |table|
    ensures r < |table| ==> !table[r].computed
    decreases |table| - i
  {
    if i == |table| then |table| else if !table[i].computed then i else OpenAbove(table, i + 1)
  }

  /** The downward scan stops at the nearest entry that is not computed. */
  lemma {:induction false} OpenBelowNearest(table: seq<InfoEntry>, i: int)
    requires -1 <= i < |table|
    ensures forall m :: OpenBelow(table, i) < m <= i ==> table[m].computed
    decreases i + 1
  {
    if i >= 0 && table[i].computed {
      OpenBelowNearest(table, i - 1);
    }
  }

  /** The upward scan stops at the nearest entry that is not computed. */
  lemma {:induction false} OpenAboveNearest(table: seq<InfoEntry>, i: nat)
    requires i <= |table|
    ensures forall m :: i <= m < OpenAbove(table, i) ==> table[m].computed
    decreases |table| - i
  {
    if i < |table| && table[i].computed {
      OpenAboveNearest(table, i + 1);
    }
  }

  /** The table after addDependencies(p): the two scans of src/permutation.cpp:27-45. */
  function AddDeps(table: seq<InfoEntry>, p: nat): seq<InfoEntry>
    requires 1 <= p <= |table|
  {
    var i := OpenBelow(table, p - 2);
    var t1 := if i >= 0 then table[i := table[i].(right := p)] else table;
    var j := OpenAbove(t1, p);
    if j < |t1| then t1[j := t1[j].(left := p)] else t1
  }

  /** The table after one iteration of buildRepresentation for join p. */
  function Step(table: seq<InfoEntry>, p: nat): seq<InfoEntry>
    requires 1 <= p <= |table|
  {
    AddDeps(table[p - 1 := table[p - 1].(computed := true)], p)
  }

  /** The entry the table holds for join q once the joins P are performed, with q pending
      (computed false) or just performed (computed true). */
  function Entry(P: seq<nat>, q: nat, L: nat, computed: bool): InfoEntry
    requires 1 <= q <= L
  {
    InfoEntry(LeftRoot(P, q), RightRoot(P, q, L), computed)
  }

  /** The computed flags mark exactly the joins of P. */
  ghost predicate FlagsMatch(table: seq<InfoEntry>, P: seq<nat>) {
    forall q :: 1 <= q <= |table| ==> (table[q - 1].computed <==> q in P)
  }

  /** The table after the first t joins of perm: a pending join's entry names the roots of the
      groups on either side of it; a performed join's entry was frozen when it was performed. */
  ghost predicate Represents(table: seq<InfoEntry>, perm: Permutation, t: nat) {
    var L := |table|;
    |perm| == L && t <= L && JoinsInRange(perm) &&
    FlagsMatch(table, perm[..t]) &&
    (forall q {:trigger Entry(perm[..t], q, L, false)} ::
       1 <= q <= L && q !in perm[..t] ==> table[q - 1] == Entry(perm[..t], q, L, false)) &&
    (forall s {:trigger Entry(perm[..s], perm[s], L, true)} ::
       0 <= s < t ==> table[perm[s] - 1] == Entry(perm[..s], perm[s], L, true))
  }

  /* ---------------------------------------------------------------------------------------- */
  /* What addDependencies does                                                                */

  /** addDependencies(p) changes at most two entries: the nearest pending entry below p gets
      right := p, the nearest pending entry above p gets left := p, nothing else changes. */
  lemma {:induction false} AddDepsEffect(table: seq<InfoEntry>, p: nat)
    requires 1 <= p <= |table|
    ensures var i0, i1 := OpenBelow(table, p - 2), OpenAbove(table, p);
      |AddDeps(table, p)| == |table| &&
      forall m :: 0 <= m < |table| ==>
        AddDeps(table, p)[m] == InfoEntry(if m == i1 then p else table[m].left,
                                          if m == i0 then p else table[m].right,
                                          table[m].computed)
  {
    var i := OpenBelow(table, p - 2);
    var t1 := if i >= 0 then table[i := table[i].(right := p)] else table;
    OpenAboveFlags(table, t1, p);
  }

  /** The upward scan looks only at the computed flags. */
  lemma {:induction false} OpenAboveFlags(a: seq<InfoEntry>, b: seq<InfoEntry>, i: nat)
    requires |a| == |b| && i <= |a|
    requires forall m :: 0 <= m < |a| ==> a[m].computed == b[m].computed
    ensures OpenAbove(a, i) == OpenAbove(b, i)
    decreases |a| - i
  {
    if i < |a| {
      OpenAboveFlags(a, b, i + 1);
    }
  }

  /** With the flags marking P, the downward scan from x-1 stops at the join that starts the
      group of matrix x. */
  lemma {:induction false} OpenBelowIsLoBound(table: seq<InfoEntry>, P: seq<nat>, x: nat)
    requires FlagsMatch(table, P) && x <= |table|
    ensures OpenBelow(table, x - 1) == LoBound(P, x) - 1
  {
    if x > 0 && x in P {
      OpenBelowIsLoBound(table, P, x - 1);
    }
  }

  /** With the flags marking P, the upward scan from x stops at the join that ends the group of
      matrix x. */
  lemma {:induction false} OpenAboveIsHiBound(table: seq<InfoEntry>, P: seq<nat>, x: nat)
    requires FlagsMatch(table, P) && x <= |table|
    ensures OpenAbove(table, x) == HiBound(P, x, |table|)
    decreases |table| - x
  {
    if x < |table| && x + 1 in P {
      OpenAboveIsHiBound(table, P, x + 1);
    }
  }

  /** One iteration of buildRepresentation for a pending join p: p's entry becomes computed,
      the entry just below the group that ends at p-1 gets right := p, the entry of the join
      just above the group that starts at p gets left := p. */
  lemma {:induction false} StepEffect(table: seq<InfoEntry>, P: seq<nat>, p: nat)
    requires FlagsMatch(table, P) && 1 <= p <= |table| && p !in P
    ensures var L, i0, i1 := |table|, LoBound(P, p - 1) - 1, HiBound(P, p, |table|);
      |Step(table, p)| == L && FlagsMatch(Step(table, p), P + [p]) &&
      forall m :: 0 <= m < L ==>
        Step(table, p)[m] == InfoEntry(if m == i1 then p else table[m].left,
                                       if m == i0 then p else table[m].right,
                                       if m == p - 1 then true else table[m].computed)
  {
    var L := |table|;
    var tc := table[p - 1 := table[p - 1].(computed := true)];
    var i0, i1 := LoBound(P, p - 1) - 1, HiBound(P, p, L);
    StepScans(table, P, p);
    AddDepsEffect(tc, p);
    var next := Step(table, p);
    assert next == AddDeps(tc, p);
    forall m | 0 <= m < L
      ensures next[m] == InfoEntry(if m == i1 then p else table[m].left,
                                   if m == i0 then p else table[m].right,
                                   if m == p - 1 then true else table[m].computed)
    {
      assert tc[m] == if m == p - 1 then table[m].(computed := true) else table[m];
    }
  }

  /** Once p's entry is marked computed, the two scans of addDependencies(p) stop at the
      boundaries of the group that join p creates. */
  lemma {:induction false} StepScans(table: seq<InfoEntry>, P: seq<nat>, p: nat)
    requires FlagsMatch(table, P) && 1 <= p <= |table| && p !in P
    ensures var tc := table[p - 1 := table[p - 1].(computed := true)];
      OpenBelow(tc, p - 2) == LoBound(P, p - 1) - 1 && OpenAbove(tc, p) == HiBound(P, p, |table|)
  {
    var L := |table|;
    var tc := table[p - 1 := table[p - 1].(computed := true)];
    assert FlagsMatch(tc, P + [p]);
    OpenBelowIsLoBound(tc, P + [p], p - 1);
    OpenAboveIsHiBound(tc, P + [p], p);
    MergedBounds(P, p, p - 1, L);
    MergedBounds(P, p, p, L);
  }

  /** One iteration of buildRepresentation keeps the table's meaning: the entries of the two
      pending joins next to the merged group learn p as their new root, p's own entry is
      frozen, and nothing else changes. */
  lemma {:induction false} StepPreserves(table: seq<InfoEntry>, perm: Permutation, t: nat)
    requires Distinct(perm) && Represents(table, perm, t) && t < |perm|
    ensures |Step(table, perm[t])| == |table|
    ensures Represents(Step(table, perm[t]), perm, t + 1)
  {
    var L, P, p := |table|, perm[..t], perm[t];
    assert perm[..t + 1] == P + [p];
    assert p !in P;
    StepEffect(table, P, p);
    var next := Step(table, p);
    forall q | 1 <= q <= L && q !in P + [p] ensures next[q - 1] == Entry(P + [p], q, L, false) {
      StepPending(table, P, p, q);
    }
    StepOwn(table, P, p);
    forall s | 0 <= s < t + 1 ensures next[perm[s] - 1] == Entry(perm[..s], perm[s], L, true) {
      if s < t {
        assert perm[s] in P;
        StepFrozen(table, P, p, perm[s]);
        assert next[perm[s] - 1] == table[perm[s] - 1];
      } else {
        assert perm[..s] == P && perm[s] == p;
        assert table[p - 1] == Entry(P, p, L, false);
      }
    }
  }

  /** Step p freezes p's own entry. */
  lemma {:induction false} StepOwn(table: seq<InfoEntry>, P: seq<nat>, p: nat)
    requires FlagsMatch(table, P) && 1 <= p <= |table| && p !in P
    ensures |Step(table, p)| == |table| && Step(table, p)[p - 1] == table[p - 1].(computed := true)
  {
    StepEffect(table, P, p);
  }

  /** Step p leaves the entry of every join performed before it alone. */
  lemma {:induction false} StepFrozen(table: seq<InfoEntry>, P: seq<nat>, p: nat, q: nat)
    requires FlagsMatch(table, P) && 1 <= p <= |table| && p !in P
    requires 1 <= q <= |table| && q in P
    ensures |Step(table, p)| == |table| && Step(table, p)[q - 1] == table[q - 1]
  {
    StepEffect(table, P, p);
  }

  lemma {:induction false} StepPending(table: seq<InfoEntry>, P: seq<nat>, p: nat, q: nat)
    requires FlagsMatch(table, P) && 1 <= p <= |table| && p !in P
    requires 1 <= q <= |table| && q != p && q !in P
    requires table[q - 1] == Entry(P, q, |table|, false)
    ensures |Step(table, p)| == |table|
    ensures Step(table, p)[q - 1] == Entry(P + [p], q, |table|, false)
  {
    StepEffect(table, P, p);
    MergeLeftRoot(P, p, q, |table|);
    MergeRightRoot(P, p, q, |table|);
  }

  /** After the whole merge order, the entry of the join j at the root of a delimited sub-tree
      of the merge tree names the roots of its two sub-trees. */
  lemma {:induction false} RootEntry(table: seq<InfoEntry>, perm: Permutation, lo: nat, hi: nat)
    requires IsPermutation(perm, |perm|) && Represents(table, perm, |perm|)
    requires lo <= hi <= |perm| && Delimited(perm, lo, hi, |perm|) && LastIn(perm, lo, hi) >= 0
    ensures var j := perm[LastIn(perm, lo, hi)];
      1 <= j <= |table| &&
      table[j - 1] == InfoEntry(RootJoin(Build(perm, lo, j - 1)), RootJoin(Build(perm, j, hi)), true)
  {
    var L, k := |perm|, LastIn(perm, lo, hi);
    PermutationCovers(perm, L);
    assert table[perm[k] - 1] == Entry(perm[..k], perm[k], L, true);
    RootChildren(perm, lo, hi, L);
  }

  /** What the walk needs at a node of the merge tree: the node splits lo..hi at the join p whose
      entry names its two children's roots, the children are delimited, and a child that is not
      a leaf has a root join of its own. */
  lemma {:induction false} WalkNode(table: seq<InfoEntry>, perm: Permutation, lo: nat, hi: nat)
    requires IsPermutation(perm, |perm|) && Represents(table, perm, |perm|)
    requires lo <= hi <= |perm| && Delimited(perm, lo, hi, |perm|) && RootJoin(Build(perm, lo, hi)) >= 1
    ensures var p := RootJoin(Build(perm, lo, hi));
      var l, r := Build(perm, lo, p - 1), Build(perm, p, hi);
      lo < p <= hi && Build(perm, lo, hi) == Node(p, l, r) &&
      table[p - 1].left == RootJoin(l) && table[p - 1].right == RootJoin(r) &&
      Delimited(perm, lo, p - 1, |perm|) && Delimited(perm, p, hi, |perm|) &&
      (RootJoin(l) == -1 || RootJoin(l) >= 1) && (RootJoin(r) == -1 || RootJoin(r) >= 1)
  {
    RootEntry(table, perm, lo, hi);
    DelimitedChildren(perm, lo, hi, |perm|);
  }

  /* ---------------------------------------------------------------------------------------- */
  /* The walk                                                                                 */

  /** The order in which buildRecursive visits a tree: root, right sub-tree, left sub-tree. */
  function PreRL(t: Tree): seq<nat> {
    match t
    case Leaf(_) => []
    case Node(j, l, r) => [j] + PreRL(r) + PreRL(l)
  }

  /** s back to front (the effect of std::reverse). */
  function Reversed(s: seq<nat>): (r: seq<nat>)
    ensures |r| == |s|
    ensures forall i :: 0 <= i < |s| ==> r[i] == s[|s| - 1 - i]
  {
    if s == [] then [] else Reversed(s[1..]) + [s[0]]
  }

  lemma {:induction false} ReversedConcat(a: seq<nat>, b: seq<nat>)
    ensures Reversed(a + b) == Reversed(b) + Reversed(a)
  {
  }

  /** Reversing the root-right-left walk gives the post-order. */
  lemma {:induction false} ReversedWalkIsPost(t: Tree)
    ensures Reversed(PreRL(t)) == Post(t)
  {
    match t
    case Leaf(_) =>
    case Node(j, l, r) =>
      ReversedWalkIsPost(l);
      ReversedWalkIsPost(r);
      ReversedConcat([j] + PreRL(r), PreRL(l));
      ReversedConcat([j], PreRL(r));
  }

  /* ---------------------------------------------------------------------------------------- */
  /* The algorithm                                                                            */

  /** Every entry becomes (-1, -1, not computed) (src/permutation.cpp:66-72). */
  method ClearTable(table: array<InfoEntry>)
    modifies table
    ensures forall i :: 0 <= i < table.Length ==> table[i] == Cleared
  {
    for i := 0 to table.Length
      invariant forall m :: 0 <= m < i ==> table[m] == Cleared
    {
      table[i] := Cleared;
    }
  }

  /** The two scans of src/permutation.cpp:27-45, each stopped by a flag at the first entry
      that is not computed. */
  method AddDependencies(table: array<InfoEntry>, p: nat)
    requires 1 <= p <= table.Length
    modifies table
    ensures table[..] == AddDeps(old(table[..]), p)
  {
    ghost var t0 := table[..];
    var stop := false;
    var i: int := p - 2;
    while i >= 0 && !stop
      invariant -1 <= i <= p - 2
      invariant !stop ==> table[..] == t0 && OpenBelow(t0, p - 2) == OpenBelow(t0, i)
      invariant stop ==> i + 1 == OpenBelow(t0, p - 2) && table[..] == t0[i + 1 := t0[i + 1].(right := p)]
      decreases i + 1
    {
      if !table[i].computed {
        table[i] := table[i].(right := p);
        stop := true;
      }
      i := i - 1;
    }
    ghost var t1 := table[..];
    stop := false;
    var j := p;
    while j < table.Length && !stop
      invariant p <= j <= table.Length
      invariant !stop ==> table[..] == t1 && OpenAbove(t1, p) == OpenAbove(t1, j)
      invariant stop ==> j - 1 == OpenAbove(t1, p) && table[..] == t1[j - 1 := t1[j - 1].(left := p)]
      decreases table.Length - j
    {
      if !table[j].computed {
        table[j] := table[j].(left := p);
        stop := true;
      }
      j := j + 1;
    }
  }

  /** Replays the merge order over a cleared table (src/permutation.cpp:20-25); afterwards every
      entry is computed and records the merge tree. */
  method BuildRepresentation(table: array<InfoEntry>, perm: Permutation)
    requires IsPermutation(perm, |perm|) && table.Length == |perm|
    requires forall i :: 0 <= i < table.Length ==> table[i] == Cleared
    modifies table
    ensures Represents(table[..], perm, |perm|)
    ensures forall i :: 0 <= i < table.Length ==> table[i].computed
  {
    PermutationCovers(perm, |perm|);
    assert Represents(table[..], perm, 0) by {
      assert perm[..0] == [];
    }
    for t := 0 to |perm|
      invariant Represents(table[..], perm, t)
    {
      ghost var before := table[..];
      var p := perm[t];
      table[p - 1] := table[p - 1].(computed := true);
      assert table[..] == before[p - 1 := before[p - 1].(computed := true)];
      AddDependencies(table, p);
      StepPreserves(before, perm, t);
    }
    assert perm[..|perm|] == perm;
    forall i | 0 <= i < table.Length ensures table[i].computed {
      assert i + 1 in perm;
    }
  }

  /** Walks the table from join p, the root of the delimited sub-tree lo..hi, appending root,
      then the right branch, then the left one (src/permutation.cpp:55-64). */
  method BuildRecursive(table: array<InfoEntry>, p: nat, acc: seq<nat>,
                        ghost perm: Permutation, ghost lo: nat, ghost hi: nat) returns (out: seq<nat>)
    requires IsPermutation(perm, |perm|) && Represents(table[..], perm, |perm|)
    requires lo <= hi <= |perm| && Delimited(perm, lo, hi, |perm|)
    requires RootJoin(Build(perm, lo, hi)) == p && p >= 1
    ensures out == acc + PreRL(Build(perm, lo, hi))
    decreases hi - lo
  {
    WalkNode(table[..], perm, lo, hi);
    ghost var l, r := Build(perm, lo, p - 1), Build(perm, p, hi);
    WalkOrder(acc, p, l, r);
    out := acc + [p];
    if table[p - 1].right != -1 {
      out := BuildRecursive(table, table[p - 1].right, out, perm, p, hi);
    }
    assert out == acc + [p] + PreRL(r);
    if table[p - 1].left != -1 {
      out := BuildRecursive(table, table[p - 1].left, out, perm, lo, p - 1);
    }
    assert out == acc + [p] + PreRL(r) + PreRL(l);
  }

  /** The walk of a node, and of a leaf (which it skips). */
  lemma {:induction false} WalkOrder(acc: seq<nat>, p: nat, l: Tree, r: Tree)
    ensures acc + PreRL(Node(p, l, r)) == acc + [p] + PreRL(r) + PreRL(l)
    ensures RootJoin(l) == -1 ==> PreRL(l) == []
    ensures RootJoin(r) == -1 ==> PreRL(r) == []
  {
  }

  /** Walks from the last join of the merge order and reverses the walk (src/permutation.cpp:47-53). */
  method BuildPermutation(table: array<InfoEntry>, perm: Permutation) returns (canonical: Permutation)
    requires IsPermutation(perm, |perm|) && |perm| >= 1 && Represents(table[..], perm, |perm|)
    ensures canonical == Canonical(perm)
  {
    PermutationCovers(perm, |perm|);
    assert LastIn(perm, 0, |perm|) == |perm| - 1;
    var walk := BuildRecursive(table, perm[|perm| - 1], [], perm, 0, |perm|);
    canonical := Reversed(walk);
    ReversedWalkIsPost(MergeTree(perm));
  }

  /** The canonical form of a merge order: the post-order of its merge tree
      (src/permutation.cpp:13-18). The table is local to each call and starts cleared. */
  method Canonicalize(perm: Permutation) returns (canonical: Permutation)
    requires IsPermutation(perm, |perm|)
    ensures canonical == Canonical(perm)
  {
    if |perm| == 0 {
      return [];
    }
    var table := new InfoEntry[|perm|];
    ClearTable(table);
    BuildRepresentation(table, perm);
    canonical := BuildPermutation(table, perm);
  }
}

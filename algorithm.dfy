/** An Algorithm (src/algorithm.hpp, src/algorithm.cpp): a merge order turned into a binary tree
    stored in a node array. Nodes 0..L are the input matrices; the s-th join of the merge order
    appends node L+1+s, whose children are the topmost nodes of the two products it multiplies.
    computeFlops then propagates the sizes upwards and adds up one multiplication per internal
    node. Both the array and the FLOP count are proved against the group algebra of the merge
    order. */
module Algorithms {
  import opened Definitions
  import MergeTrees
  import opened Groups
  import opened Costs

  /** A node of the tree (src/algorithm.hpp:11-20): the size of the product it stands for and its
      links; -1 means "none". */
  datatype Node = Node(rows: nat, cols: nat, left: int, right: int, parent: int)

  /** What the default constructor of Node creates, and what emplace_back(left, right) creates
      apart from the two children. */
  const InputNode := Node(0, 0, -1, -1, -1)

  /** Node ids are int8_t and the last node of a chain of L+1 matrices is 2L, so L is at most 63. */
  const MaxJoins := 63

  /* ---------------------------------------------------------------------------------------- */
  /* Links                                                                                     */

  /** Every parent link points to a later node. */
  ghost predicate ParentsAbove(tree: seq<Node>) {
    forall n :: 0 <= n < |tree| ==> tree[n].parent == -1 || n < tree[n].parent < |tree|
  }

  /** getRoot (src/algorithm.cpp:48-50): the topmost node above id. */
  function RootOf(tree: seq<Node>, id: nat): (r: nat)
    requires ParentsAbove(tree) && id < |tree|
    ensures id <= r < |tree| && tree[r].parent == -1
    decreases |tree| - id
  {
    if tree[id].parent == -1 then id else RootOf(tree, tree[id].parent)
  }

  /** The array after one iteration of buildTree (src/algorithm.cpp:33-41): a new node with
      children a and b becomes the parent of both. */
  function Link(tree: seq<Node>, a: nat, b: nat): seq<Node>
    requires a < |tree| && b < |tree|
  {
    var n := |tree|;
    var t1 := tree + [InputNode.(left := a, right := b)];
    var t2 := t1[a := t1[a].(parent := n)];
    t2[b := t2[b].(parent := n)]
  }

  /** The array after propagateSizes(id) (src/algorithm.cpp:59-62): node id takes its rows from
      its left child and its columns from its right child. */
  function Propagate(tree: seq<Node>, id: nat): seq<Node>
    requires id < |tree| && 0 <= tree[id].left < |tree| && 0 <= tree[id].right < |tree|
  {
    tree[id := tree[id].(rows := tree[tree[id].left].rows, cols := tree[tree[id].right].cols)]
  }

  /** The array after the first k iterations of assignSizes (src/algorithm.cpp:52-57): input node
      x has the size d[x] x d[x+1] of matrix x for every x below k. */
  function InputsSized(tree: seq<Node>, d: Instance, k: nat): (r: seq<Node>)
    requires k <= |tree| && k < |d|
    ensures |r| == |tree|
  {
    if k == 0 then tree
    else InputsSized(tree, d, k - 1)[k - 1 := tree[k - 1].(rows := d[k - 1], cols := d[k])]
  }

  /** Two arrays that differ at most in the sizes their nodes carry. */
  predicate SameLinks(t1: seq<Node>, t2: seq<Node>) {
    |t1| == |t2| &&
    forall n :: 0 <= n < |t1| ==>
      t1[n].left == t2[n].left && t1[n].right == t2[n].right && t1[n].parent == t2[n].parent
  }

  lemma {:induction false} SameLinksTrans(t1: seq<Node>, t2: seq<Node>, t3: seq<Node>)
    requires SameLinks(t1, t2) && SameLinks(t2, t3)
    ensures SameLinks(t1, t3)
  {
  }

  /** The array after the first m joins of perm: the input nodes have no children, the node of
      the s-th join has as children the nodes of the two groups that join merges, and the
      topmost node above every input matrix is the node of its group. */
  ghost predicate Linked(tree: seq<Node>, perm: Permutation, m: nat) {
    m <= |perm| && JoinsInRange(perm) && |tree| == |perm| + 1 + m && ParentsAbove(tree) &&
    InputsBare(tree, perm) && ChildrenLinked(tree, perm) && RootsLinked(tree, perm, m)
  }

  /** The input nodes have no children. */
  ghost predicate InputsBare(tree: seq<Node>, perm: Permutation)
    requires |tree| > |perm|
  {
    forall x :: 0 <= x <= |perm| ==> tree[x].left == -1 && tree[x].right == -1
  }

  /** The topmost node above every input matrix is the node of its group after the first m
      joins. */
  ghost predicate RootsLinked(tree: seq<Node>, perm: Permutation, m: nat)
    requires JoinsInRange(perm) && m <= |perm| && ParentsAbove(tree) && |tree| > |perm|
  {
    forall x {:trigger RootOf(tree, x)} :: 0 <= x <= |perm| ==> RootOf(tree, x) == GroupNode(perm[..m], x, |perm|)
  }

  /** Every internal node has as children the nodes of the two groups its join merges. */
  ghost predicate ChildrenLinked(tree: seq<Node>, perm: Permutation)
    requires JoinsInRange(perm) && |tree| <= 2 * |perm| + 1
  {
    forall n {:trigger LeftChild(perm, n)} :: |perm| < n < |tree| ==>
      tree[n].left == LeftChild(perm, n) && tree[n].right == RightChild(perm, n)
  }

  /** The left child of the node n of a join p: the node of the group that ends at matrix p-1
      just before p is performed. */
  function LeftChild(perm: seq<nat>, n: nat): nat
    requires JoinsInRange(perm) && |perm| < n <= 2 * |perm|
  {
    var s := n - |perm| - 1;
    GroupNode(perm[..s], perm[s] - 1, |perm|)
  }

  /** The right child of the node n of a join p: the node of the group that starts at matrix p. */
  function RightChild(perm: seq<nat>, n: nat): nat
    requires JoinsInRange(perm) && |perm| < n <= 2 * |perm|
  {
    var s := n - |perm| - 1;
    GroupNode(perm[..s], perm[s], |perm|)
  }

  /** Node n is the parent of both its children. */
  ghost predicate ParentOfChildren(tree: seq<Node>, n: nat)
    requires n < |tree|
  {
    0 <= tree[n].left < |tree| && 0 <= tree[n].right < |tree| &&
    tree[tree[n].left].parent == n && tree[tree[n].right].parent == n
  }

  /** A node without a parent is the topmost node above the first matrix it stands for. */
  ghost predicate TopOfGroup(tree: seq<Node>, perm: Permutation, n: nat)
    requires JoinsInRange(perm) && ParentsAbove(tree) && n < |tree| && n <= 2 * |perm|
  {
    tree[n].parent == -1 ==> NodeLo(perm, n) < |tree| && RootOf(tree, NodeLo(perm, n)) == n
  }

  /** The parent links agree with the child links, and every parentless node tops a group. */
  ghost predicate Rooted(tree: seq<Node>, perm: Permutation)
    requires JoinsInRange(perm) && ParentsAbove(tree) && |tree| <= 2 * |perm| + 1
  {
    (forall n {:trigger ParentOfChildren(tree, n)} :: |perm| < n < |tree| ==> ParentOfChildren(tree, n)) &&
    (forall n {:trigger TopOfGroup(tree, perm, n)} :: 0 <= n < |tree| ==> TopOfGroup(tree, perm, n))
  }

  /* ---------------------------------------------------------------------------------------- */
  /* Sizes                                                                                     */

  /** The first matrix of the product node n stands for. */
  function NodeLo(perm: seq<nat>, n: nat): nat
    requires JoinsInRange(perm) && n <= 2 * |perm|
  {
    var L := |perm|;
    if n <= L then n else LoBound(perm[..n - L - 1], perm[n - L - 1] - 1)
  }

  /** The last matrix of the product node n stands for. */
  function NodeHi(perm: seq<nat>, n: nat): nat
    requires JoinsInRange(perm) && n <= 2 * |perm|
  {
    var L := |perm|;
    if n <= L then n else HiBound(perm[..n - L - 1], perm[n - L - 1], L)
  }

  /** The nodes below i carry the size of the product they stand for: matrices lo..hi make a
      d[lo] x d[hi+1] product. */
  ghost predicate Sized(tree: seq<Node>, perm: Permutation, d: Instance, i: nat)
    requires JoinsInRange(perm) && |d| >= |perm| + 2
  {
    i <= |tree| && i <= 2 * |perm| + 1 &&
    forall n {:trigger NodeSized(tree, perm, d, n)} :: 0 <= n < i ==> NodeSized(tree, perm, d, n)
  }

  /** Node n carries the size of the product it stands for. */
  ghost predicate NodeSized(tree: seq<Node>, perm: Permutation, d: Instance, n: nat)
    requires JoinsInRange(perm) && |d| >= |perm| + 2 && n < |tree| && n <= 2 * |perm|
  {
    tree[n].rows == d[NodeLo(perm, n)] && tree[n].cols == d[NodeHi(perm, n) + 1]
  }

  /* ---------------------------------------------------------------------------------------- */
  /* Lemmas                                                                                    */

  lemma {:induction false} LinkParentsAbove(tree: seq<Node>, a: nat, b: nat)
    requires ParentsAbove(tree) && a < |tree| && b < |tree|
    ensures ParentsAbove(Link(tree, a, b))
  {
  }

  /** Linking the two topmost nodes a and b sends every node below either of them to the new
      node and leaves every other node's topmost node alone. */
  lemma {:induction false} RootAfterLink(tree: seq<Node>, a: nat, b: nat, x: nat)
    requires ParentsAbove(tree) && a < |tree| && b < |tree| && a != b
    requires tree[a].parent == -1 && tree[b].parent == -1 && x < |tree|
    ensures ParentsAbove(Link(tree, a, b)) &&
      RootOf(Link(tree, a, b), x) == if RootOf(tree, x) in {a, b} then |tree| else RootOf(tree, x)
    decreases |tree| - x
  {
    LinkParentsAbove(tree, a, b);
    if tree[x].parent != -1 {
      RootAfterLink(tree, a, b, tree[x].parent);
    }
  }

  /** The topmost node depends on the parent links only. */
  lemma {:induction false} RootOfSameLinks(t1: seq<Node>, t2: seq<Node>, x: nat)
    requires SameLinks(t1, t2) && ParentsAbove(t1) && x < |t1|
    ensures ParentsAbove(t2) && RootOf(t2, x) == RootOf(t1, x)
    decreases |t1| - x
  {
    assert ParentsAbove(t2) by {
      forall n | 0 <= n < |t2| ensures t2[n].parent == -1 || n < t2[n].parent < |t2| {
        assert t1[n].parent == t2[n].parent;
      }
    }
    if t1[x].parent != -1 {
      RootOfSameLinks(t1, t2, t1[x].parent);
    }
  }

  /** What InputsSized leaves in each node: the first k nodes get their matrix's size, the others
      are untouched. */
  lemma {:induction false} InputsSizedAt(tree: seq<Node>, d: Instance, k: nat, n: nat)
    requires k <= |tree| && k < |d| && n < |tree|
    ensures InputsSized(tree, d, k)[n] == if n < k then tree[n].(rows := d[n], cols := d[n + 1]) else tree[n]
  {
    if k > 0 && n != k - 1 {
      InputsSizedAt(tree, d, k - 1, n);
    }
  }

  /** Changing sizes keeps the links right. */
  lemma {:induction false} LinkedSameLinks(t1: seq<Node>, t2: seq<Node>, perm: Permutation, m: nat)
    requires Linked(t1, perm, m) && SameLinks(t1, t2)
    ensures Linked(t2, perm, m)
  {
    forall x | 0 <= x <= |perm| ensures RootOf(t2, x) == RootOf(t1, x) {
      RootOfSameLinks(t1, t2, x);
    }
  }

  /** Changing sizes keeps the parent links right. */
  lemma {:induction false} RootedSameLinks(t1: seq<Node>, t2: seq<Node>, perm: Permutation)
    requires JoinsInRange(perm) && ParentsAbove(t1) && |t1| <= 2 * |perm| + 1
    requires Rooted(t1, perm) && SameLinks(t1, t2)
    ensures ParentsAbove(t2) && Rooted(t2, perm)
  {
    if |t1| > 0 {
      RootOfSameLinks(t1, t2, 0);
    }
    forall n | |perm| < n < |t2| ensures ParentOfChildren(t2, n) {
      assert ParentOfChildren(t1, n);
    }
    forall n | 0 <= n < |t2| ensures TopOfGroup(t2, perm, n) {
      assert TopOfGroup(t1, perm, n);
      if t1[n].parent == -1 {
        RootOfSameLinks(t1, t2, NodeLo(perm, n));
      }
    }
  }

  /** The bare input nodes are their own topmost nodes. */
  lemma {:induction false} InputsRooted(tree: seq<Node>, perm: Permutation)
    requires JoinsInRange(perm) && |tree| == |perm| + 1 && ParentsAbove(tree)
    requires forall i :: 0 <= i < |tree| ==> tree[i] == InputNode
    ensures Rooted(tree, perm)
  {
    forall n | 0 <= n < |tree| ensures TopOfGroup(tree, perm, n) {
      assert tree[n].parent == -1;
    }
  }

  /** The new node of a join is the parent of its two children, and the older nodes keep
      theirs: the children of an older node had a parent, so they are neither of the two roots
      that get one. */
  lemma {:induction false} LinkParentOfChildren(tree: seq<Node>, perm: Permutation, a: nat, b: nat)
    requires JoinsInRange(perm) && ParentsAbove(tree) && |tree| <= 2 * |perm| && Rooted(tree, perm)
    requires a < |tree| && b < |tree| && tree[a].parent == -1 && tree[b].parent == -1
    ensures var next := Link(tree, a, b);
      forall n :: |perm| < n < |next| ==> ParentOfChildren(next, n)
  {
    var next := Link(tree, a, b);
    forall n | |perm| < n < |next| ensures ParentOfChildren(next, n) {
      if n < |tree| {
        assert ParentOfChildren(tree, n);
      }
    }
  }

  /** After join p the new node tops the merged group, and every other parentless node still
      tops its own. */
  lemma {:induction false} LinkTops(tree: seq<Node>, perm: Permutation, t: nat, a: nat, b: nat, next: seq<Node>)
    requires JoinsInRange(perm) && t < |perm| && perm[t] !in perm[..t]
    requires ParentsAbove(tree) && |tree| == |perm| + 1 + t && Rooted(tree, perm)
    requires a < |tree| && b < |tree| && a != b && tree[a].parent == -1 && tree[b].parent == -1
    requires next == Link(tree, a, b) && ParentsAbove(next) && RootsLinked(next, perm, t + 1)
    ensures forall n :: 0 <= n < |next| ==> TopOfGroup(next, perm, n)
  {
    assert |next| == |tree| + 1;
    LinkTopNew(tree, perm, t, a, b, next);
    forall n | 0 <= n < |next| ensures TopOfGroup(next, perm, n) {
      if n < |tree| {
        assert TopOfGroup(tree, perm, n);
        LinkTopOld(tree, perm, a, b, n, next);
      }
    }
  }

  /** The node of join p tops the merged group: its first matrix is the first one of the group
      that ends at p-1. */
  lemma {:induction false} LinkTopNew(tree: seq<Node>, perm: Permutation, t: nat, a: nat, b: nat, next: seq<Node>)
    requires JoinsInRange(perm) && t < |perm| && perm[t] !in perm[..t] && |tree| == |perm| + 1 + t
    requires a < |tree| && b < |tree| && next == Link(tree, a, b) && ParentsAbove(next)
    requires RootsLinked(next, perm, t + 1)
    ensures |tree| < |next| && TopOfGroup(next, perm, |tree|)
  {
    var L, P, p := |perm|, perm[..t], perm[t];
    assert perm[..t + 1] == P + [p];
    var x := LoBound(P, p - 1);
    assert NodeLo(perm, |tree|) == x;
    MergeGroupNode(P, p, x, L);
    assert RootOf(next, x) == GroupNode(P + [p], x, L);
  }

  /** A parentless node other than the two linked roots keeps topping its group. */
  lemma {:induction false} LinkTopOld(tree: seq<Node>, perm: Permutation, a: nat, b: nat, n: nat, next: seq<Node>)
    requires JoinsInRange(perm) && ParentsAbove(tree) && |tree| <= 2 * |perm| && n < |tree|
    requires a < |tree| && b < |tree| && a != b && tree[a].parent == -1 && tree[b].parent == -1
    requires TopOfGroup(tree, perm, n) && next == Link(tree, a, b)
    ensures ParentsAbove(next) && TopOfGroup(next, perm, n)
  {
    LinkParentsAbove(tree, a, b);
    if next[n].parent == -1 {
      RootAfterLink(tree, a, b, NodeLo(perm, n));
    }
  }

  /** The input nodes alone are linked for the empty prefix: every matrix is its own group. */
  lemma {:induction false} InputsLinked(tree: seq<Node>, perm: Permutation)
    requires JoinsInRange(perm) && |tree| == |perm| + 1
    requires forall i :: 0 <= i < |tree| ==> tree[i] == InputNode
    ensures Linked(tree, perm, 0)
  {
    assert perm[..0] == [];
  }

  /** A join of a permutation does not occur among the joins before it. */
  lemma {:induction false} JoinIsNew(perm: Permutation, t: nat)
    requires Distinct(perm) && t < |perm|
    ensures perm[t] !in perm[..t]
  {
  }

  /** One iteration of buildTree keeps the array linked: the two topmost nodes of the groups
      join p merges become the children of the new node. */
  lemma {:induction false} LinkPreserves(tree: seq<Node>, perm: Permutation, t: nat, a: nat, b: nat)
    requires Linked(tree, perm, t) && t < |perm| && perm[t] !in perm[..t]
    requires a == RootOf(tree, perm[t] - 1) && b == RootOf(tree, perm[t])
    ensures a != b && Linked(Link(tree, a, b), perm, t + 1)
  {
    LinkRoots(tree, perm, t, a, b);
    LinkChildren(tree, perm, a, b);
    LinkInputs(tree, perm, a, b);
  }

  /** Linking a new node over the roots of the two groups p merges makes it the root of every
      matrix of the merged group and leaves the other roots alone. */
  lemma {:induction false} LinkRoots(tree: seq<Node>, perm: Permutation, t: nat, a: nat, b: nat)
    requires JoinsInRange(perm) && t < |perm| && perm[t] !in perm[..t]
    requires ParentsAbove(tree) && |tree| == |perm| + 1 + t && RootsLinked(tree, perm, t)
    requires a == RootOf(tree, perm[t] - 1) && b == RootOf(tree, perm[t])
    ensures a == GroupNode(perm[..t], perm[t] - 1, |perm|) && b == GroupNode(perm[..t], perm[t], |perm|)
    ensures a != b && ParentsAbove(Link(tree, a, b)) && RootsLinked(Link(tree, a, b), perm, t + 1)
  {
    var L, P, p := |perm|, perm[..t], perm[t];
    assert a == GroupNode(P, p - 1, L) && b == GroupNode(P, p, L);
    assert perm[..t + 1] == P + [p];
    GroupNodesDiffer(P, p, L);
    LinkParentsAbove(tree, a, b);
    forall x | 0 <= x <= L ensures RootOf(Link(tree, a, b), x) == GroupNode(P + [p], x, L) {
      assert RootOf(tree, x) == GroupNode(P, x, L);
      LinkRoot(tree, P, p, L, x);
    }
  }

  /** The topmost node above matrix x once the new node is linked over the roots of the two
      groups p merges is the node of x's group after p. */
  lemma {:induction false} LinkRoot(tree: seq<Node>, P: seq<nat>, p: nat, L: nat, x: nat)
    requires ParentsAbove(tree) && |tree| == L + 1 + |P| && 1 <= p <= L && p !in P && x <= L
    requires var a, b := GroupNode(P, p - 1, L), GroupNode(P, p, L);
      a < |tree| && b < |tree| && tree[a].parent == -1 && tree[b].parent == -1
    requires RootOf(tree, x) == GroupNode(P, x, L)
    ensures RootOf(Link(tree, GroupNode(P, p - 1, L), GroupNode(P, p, L)), x) == GroupNode(P + [p], x, L)
  {
    var a, b := GroupNode(P, p - 1, L), GroupNode(P, p, L);
    GroupNodesDiffer(P, p, L);
    RootAfterLink(tree, a, b, x);
    GroupNodeSeparates(P, p, x, L);
    MergeGroupNode(P, p, x, L);
  }

  /** The new node of a join gets the nodes of the two groups it merges as children; the older
      nodes keep theirs. */
  lemma {:induction false} LinkChildren(tree: seq<Node>, perm: Permutation, a: nat, b: nat)
    requires JoinsInRange(perm) && |perm| < |tree| <= 2 * |perm| && a < |tree| && b < |tree|
    requires ChildrenLinked(tree, perm)
    requires var s := |tree| - |perm| - 1;
      a == GroupNode(perm[..s], perm[s] - 1, |perm|) && b == GroupNode(perm[..s], perm[s], |perm|)
    ensures ChildrenLinked(Link(tree, a, b), perm)
  {
    assert a == LeftChild(perm, |tree|) && b == RightChild(perm, |tree|);
    var next := Link(tree, a, b);
    forall n | |perm| < n < |next| ensures next[n].left == LeftChild(perm, n) && next[n].right == RightChild(perm, n) {
      if n < |tree| {
        assert tree[n].left == LeftChild(perm, n) && tree[n].right == RightChild(perm, n);
      }
    }
  }

  /** Linking leaves the input nodes without children. */
  lemma {:induction false} LinkInputs(tree: seq<Node>, perm: Permutation, a: nat, b: nat)
    requires |tree| > |perm| && a < |tree| && b < |tree| && InputsBare(tree, perm)
    ensures InputsBare(Link(tree, a, b), perm)
  {
  }

  /** The node of a group is the node of the join that closed it, or the matrix itself, and it
      stands for the group's matrices. */
  lemma {:induction false} GroupNodeRange(perm: Permutation, s: nat, x: nat)
    requires JoinsInRange(perm) && s <= |perm| && x <= |perm| && GroupOfRoot(perm[..s], x, |perm|)
    ensures var n, L := GroupNode(perm[..s], x, |perm|), |perm|;
      n <= L + s && n <= 2 * L &&
      NodeLo(perm, n) == LoBound(perm[..s], x) && NodeHi(perm, n) == HiBound(perm[..s], x, L)
  {
    var L, P := |perm|, perm[..s];
    var k := MergeTrees.LastIn(P, LoBound(P, x), HiBound(P, x, L));
    if k >= 0 {
      NodeOfJoin(perm, s, k);
    }
  }

  /** The node of the k-th join stands for the group that join closed, read off any longer
      prefix of perm. */
  lemma {:induction false} NodeOfJoin(perm: Permutation, s: nat, k: nat)
    requires JoinsInRange(perm) && k < s <= |perm|
    ensures var P, L := perm[..s], |perm|;
      1 <= P[k] <= L &&
      NodeLo(perm, L + 1 + k) == LoBound(P[..k], P[k] - 1) && NodeHi(perm, L + 1 + k) == HiBound(P[..k], P[k], L)
  {
    assert perm[..s][..k] == perm[..k];
  }

  /** What the s-th join of a permutation needs to know about itself: it is new, and the two
      groups it merges are single matrices or closed by their roots. */
  ghost predicate FreshJoin(perm: Permutation, s: nat)
    requires JoinsInRange(perm) && s < |perm|
  {
    var L, P, p := |perm|, perm[..s], perm[s];
    p !in P && GroupOfRoot(P, p - 1, L) && GroupOfRoot(P, p, L)
  }

  lemma {:induction false} FreshJoins(perm: Permutation, s: nat)
    requires JoinsInRange(perm) && Distinct(perm) && s < |perm|
    ensures FreshJoin(perm, s)
  {
    var L, P, p := |perm|, perm[..s], perm[s];
    assert p !in P;
    GroupNodeBounds(P, p - 1, L);
    GroupNodeBounds(P, p, L);
  }

  /** The children of the node of the s-th join are earlier nodes; the left one stands for the
      group that ends at matrix p-1, the right one for the group that starts at p, and the node
      itself for their union. */
  lemma {:induction false} NodeChildren(perm: Permutation, n: nat)
    requires JoinsInRange(perm) && |perm| < n <= 2 * |perm| && FreshJoin(perm, n - |perm| - 1)
    ensures var a, b := LeftChild(perm, n), RightChild(perm, n);
      a < n && b < n &&
      NodeLo(perm, a) == NodeLo(perm, n) && NodeHi(perm, a) == perm[n - |perm| - 1] - 1 &&
      NodeHi(perm, b) == NodeHi(perm, n)
  {
    var s := n - |perm| - 1;
    LeftChildRange(perm, s);
    RightChildRange(perm, s);
  }

  lemma {:induction false} LeftChildRange(perm: Permutation, s: nat)
    requires JoinsInRange(perm) && s < |perm| && perm[s] !in perm[..s]
    requires GroupOfRoot(perm[..s], perm[s] - 1, |perm|)
    ensures var L, P, p := |perm|, perm[..s], perm[s];
      var a := GroupNode(P, p - 1, L);
      a <= L + s && NodeLo(perm, a) == NodeLo(perm, L + 1 + s) && NodeHi(perm, a) == p - 1
  {
    var L, P, p := |perm|, perm[..s], perm[s];
    GroupNodeRange(perm, s, p - 1);
    HiBoundUnique(P, p - 1, L, p - 1);
  }

  lemma {:induction false} RightChildRange(perm: Permutation, s: nat)
    requires JoinsInRange(perm) && s < |perm| && perm[s] !in perm[..s]
    requires GroupOfRoot(perm[..s], perm[s], |perm|)
    ensures var L, P, p := |perm|, perm[..s], perm[s];
      var b := GroupNode(P, p, L);
      b <= L + s && NodeHi(perm, b) == NodeHi(perm, L + 1 + s)
  {
    GroupNodeRange(perm, s, perm[s]);
  }

  /** The children of an internal node are earlier nodes. */
  lemma {:induction false} ChildrenBelow(tree: seq<Node>, perm: Permutation, n: nat)
    requires Linked(tree, perm, |perm|) && |perm| < n < |tree| && FreshJoin(perm, n - |perm| - 1)
    ensures tree[n].left == LeftChild(perm, n) && tree[n].right == RightChild(perm, n)
    ensures 0 <= tree[n].left < n && 0 <= tree[n].right < n
  {
    assert tree[n].left == LeftChild(perm, n);
    NodeChildren(perm, n);
  }

  /** With the nodes below the internal node n sized, n's children carry the sizes n takes and
      the multiplication that computes n is the step of perm that created n. */
  lemma {:induction false} SizedNode(tree: seq<Node>, perm: Permutation, d: Instance, n: nat)
    requires Linked(tree, perm, |perm|) && |d| >= |perm| + 2
    requires |perm| < n < |tree| && FreshJoin(perm, n - |perm| - 1) && Sized(tree, perm, d, n)
    ensures 0 <= tree[n].left < n && 0 <= tree[n].right < n
    ensures var next := Propagate(tree, n);
      Sized(next, perm, d, n + 1) &&
      CostMult(next[next[n].left].rows, next[next[n].left].cols, next[next[n].right].cols) ==
        StepCost(perm, d, n - |perm| - 1)
  {
    var a, b := tree[n].left, tree[n].right;
    ChildrenBelow(tree, perm, n);
    NodeChildren(perm, n);
    SizedAt(tree, perm, d, n, a);
    SizedAt(tree, perm, d, n, b);
    StepCostOfNode(perm, d, n);
    SizedExtend(tree, perm, d, n, tree[a].rows, tree[b].cols);
    var next := Propagate(tree, n);
    assert next[n].left == a && next[n].right == b && next[a] == tree[a] && next[b] == tree[b];
  }

  /** One step of the FLOP loop on an array with the links of a tree built from perm: the
      children of node n are earlier nodes, and once n takes its size from them the product it
      stands for costs the n-th step of perm and the nodes up to n are sized. */
  lemma {:induction false} FlopsStep(t0: seq<Node>, tree: seq<Node>, perm: Permutation, d: Instance, n: nat)
    requires IsPermutation(perm, |perm|) && Linked(t0, perm, |perm|) && SameLinks(t0, tree)
    requires |d| >= |perm| + 2 && |perm| < n < |tree| && Sized(tree, perm, d, n)
    ensures 0 <= tree[n].left < n && 0 <= tree[n].right < n
    ensures var next := Propagate(tree, n);
      SameLinks(t0, next) && Sized(next, perm, d, n + 1) && n - |perm| - 1 < |perm| &&
      SeqCost(perm, d, n - |perm|) == SeqCost(perm, d, n - |perm| - 1) +
        CostMult(next[next[n].left].rows, next[next[n].left].cols, next[next[n].right].cols)
  {
    LinkedSameLinks(t0, tree, perm, |perm|);
    FreshJoins(perm, n - |perm| - 1);
    SizedNode(tree, perm, d, n);
    var next := Propagate(tree, n);
    assert SameLinks(tree, next);
  }

  lemma {:induction false} SeqCostNext(perm: Permutation, d: Instance, m: nat)
    requires JoinsInRange(perm) && |d| >= |perm| + 2 && m < |perm|
    ensures SeqCost(perm, d, m + 1) == SeqCost(perm, d, m) + StepCost(perm, d, m)
  {
  }

  /** The multiplication the s-th join performs, in terms of the range of the node it creates. */
  lemma {:induction false} StepCostOfNode(perm: Permutation, d: Instance, n: nat)
    requires JoinsInRange(perm) && |d| >= |perm| + 2 && |perm| < n <= 2 * |perm|
    ensures StepCost(perm, d, n - |perm| - 1) ==
      CostMult(d[NodeLo(perm, n)], d[perm[n - |perm| - 1]], d[NodeHi(perm, n) + 1])
  {
  }

  /** Giving node n the size of its product extends Sized by one node. */
  lemma {:induction false} SizedExtend(tree: seq<Node>, perm: Permutation, d: Instance, n: nat, rows: nat, cols: nat)
    requires JoinsInRange(perm) && |d| >= |perm| + 2 && Sized(tree, perm, d, n)
    requires n < |tree| && n <= 2 * |perm|
    requires rows == d[NodeLo(perm, n)] && cols == d[NodeHi(perm, n) + 1]
    ensures Sized(tree[n := tree[n].(rows := rows, cols := cols)], perm, d, n + 1)
  {
    var next := tree[n := tree[n].(rows := rows, cols := cols)];
    forall m | 0 <= m < n + 1 ensures NodeSized(next, perm, d, m) {
      if m < n {
        assert NodeSized(tree, perm, d, m);
      }
    }
  }

  lemma {:induction false} SizedAt(tree: seq<Node>, perm: Permutation, d: Instance, i: nat, m: nat)
    requires JoinsInRange(perm) && |d| >= |perm| + 2 && Sized(tree, perm, d, i) && m < i
    ensures m <= 2 * |perm| && m < |tree|
    ensures tree[m].rows == d[NodeLo(perm, m)] && tree[m].cols == d[NodeHi(perm, m) + 1]
  {
    assert NodeSized(tree, perm, d, m);
  }

  /** Once every join is performed, every matrix lies below the last node, 2L. */
  lemma {:induction false} OneRoot(perm: Permutation, x: nat)
    requires IsPermutation(perm, |perm|) && 1 <= |perm| && x <= |perm|
    ensures GroupNode(perm, x, |perm|) == 2 * |perm|
  {
    var L := |perm|;
    PermutationCovers(perm, L);
    LoBoundUnique(perm, x, 0);
    HiBoundUnique(perm, x, L, L);
  }

  /* ---------------------------------------------------------------------------------------- */
  /* The class                                                                                 */

  class Algorithm {
    const permutation: Permutation
    var tree: seq<Node>

    /** The array holds the whole merge order. */
    ghost predicate Valid()
      reads this
    {
      IsPermutation(permutation, |permutation|) && |permutation| <= MaxJoins &&
      Linked(tree, permutation, |permutation|) && Rooted(tree, permutation)
    }

    /** The array is a single tree: node 2L, the last one, is the only node without a parent. */
    lemma OneTree()
      requires Valid()
      ensures forall n :: 0 <= n < 2 * |permutation| ==> tree[n].parent != -1
      ensures tree[2 * |permutation|].parent == -1
    {
      var L := |permutation|;
      assert permutation[..L] == permutation;
      forall n | 0 <= n < 2 * L ensures tree[n].parent != -1 {
        var x := NodeLo(permutation, n);
        OneRoot(permutation, x);
        assert RootOf(tree, x) == 2 * L;
        assert TopOfGroup(tree, permutation, n);
      }
    }

    /** src/algorithm.cpp:10-13. */
    constructor (permutation: Permutation)
      requires IsPermutation(permutation, |permutation|) && |permutation| <= MaxJoins
      ensures this.permutation == permutation && Valid()
    {
      this.permutation := permutation;
      tree := [];
      new;
      BuildTree();
    }

    /** src/algorithm.cpp:28-42. */
    method BuildTree()
      requires IsPermutation(permutation, |permutation|) && |permutation| <= MaxJoins && tree == []
      modifies this
      ensures Valid()
    {
      CreateInputNodes();
      InputsLinked(tree, permutation);
      InputsRooted(tree, permutation);
      for t := 0 to |permutation|
        invariant Linked(tree, permutation, t) && Rooted(tree, permutation)
      {
        JoinIsNew(permutation, t);
        AddJoin(t);
      }
    }

    /** One iteration of buildTree (src/algorithm.cpp:33-41): the node of the t-th join p gets as
        children the topmost nodes above matrices p-1 and p and becomes their parent. */
    method AddJoin(t: nat)
      requires Linked(tree, permutation, t) && Rooted(tree, permutation)
      requires t < |permutation| && permutation[t] !in permutation[..t]
      modifies this
      ensures var p := permutation[t];
        tree == Link(old(tree), RootOf(old(tree), p - 1), RootOf(old(tree), p))
      ensures Linked(tree, permutation, t + 1) && Rooted(tree, permutation)
    {
      var p := permutation[t];
      var left := RootOf(tree, p - 1);
      var right := RootOf(tree, p);
      LinkPreserves(tree, permutation, t, left, right);
      LinkParentOfChildren(tree, permutation, left, right);
      LinkTops(tree, permutation, t, left, right, Link(tree, left, right));
      var nodes := tree + [InputNode.(left := left, right := right)];
      nodes := nodes[left := nodes[left].(parent := |nodes| - 1)];
      nodes := nodes[right := nodes[right].(parent := |nodes| - 1)];
      tree := nodes;
    }

    /** One input node per matrix (src/algorithm.cpp:44-46). */
    method CreateInputNodes()
      requires tree == []
      modifies this
      ensures |tree| == |permutation| + 1
      ensures forall i :: 0 <= i < |tree| ==> tree[i] == InputNode
    {
      for i := 0 to |permutation| + 1
        invariant |tree| == i
        invariant forall m :: 0 <= m < i ==> tree[m] == InputNode
      {
        tree := tree + [InputNode];
      }
    }

    /** Input node i gets the size d[i] x d[i+1] of matrix i (src/algorithm.cpp:52-57). */
    method AssignSizes(instance: Instance)
      requires Valid() && |instance| >= |permutation| + 2
      modifies this
      ensures tree == InputsSized(old(tree), instance, |permutation| + 1)
      ensures Valid() && SameLinks(old(tree), tree) && Sized(tree, permutation, instance, |permutation| + 1)
    {
      ghost var t0 := tree;
      for i := 0 to |permutation| + 1
        invariant tree == InputsSized(t0, instance, i)
      {
        InputsSizedAt(t0, instance, i, i);
        tree := tree[i := tree[i].(rows := instance[i], cols := instance[i + 1])];
      }
      forall n | 0 <= n < |t0|
        ensures t0[n].left == tree[n].left && t0[n].right == tree[n].right && t0[n].parent == tree[n].parent
      {
        InputsSizedAt(t0, instance, |permutation| + 1, n);
      }
      LinkedSameLinks(t0, tree, permutation, |permutation|);
      RootedSameLinks(t0, tree, permutation);
      assert Sized(tree, permutation, instance, |permutation| + 1) by {
        forall n | 0 <= n < |permutation| + 1 ensures NodeSized(tree, permutation, instance, n) {
          InputsSizedAt(t0, instance, |permutation| + 1, n);
        }
      }
    }

    /** An internal node takes its rows from its left child and its columns from its right child
        (src/algorithm.cpp:59-62). */
    method PropagateSizes(id: nat)
      requires id < |tree| && 0 <= tree[id].left < |tree| && 0 <= tree[id].right < |tree|
      modifies this
      ensures tree == Propagate(old(tree), id)
    {
      tree := tree[id := tree[id].(rows := tree[tree[id].left].rows, cols := tree[tree[id].right].cols)];
    }

    /** src/algorithm.cpp:15-26: what the multiplications of the tree cost on the instance, which
        is the FLOP count of the merge order; afterwards every node carries the size of its
        product. */
    method ComputeFlops(instance: Instance) returns (flops: nat)
      requires Valid() && |instance| >= |permutation| + 2
      modifies this
      ensures Valid() && flops == Flops(permutation, instance)
      ensures SameLinks(old(tree), tree) && Sized(tree, permutation, instance, |tree|)
    {
      ghost var t0 := tree;
      AssignSizes(instance);
      ghost var t1 := tree;
      flops := AddProducts(instance);
      LinkedSameLinks(t1, tree, permutation, |permutation|);
      RootedSameLinks(t1, tree, permutation);
      SameLinksTrans(t0, t1, tree);
    }

    /** The loop of computeFlops (src/algorithm.cpp:19-23): every internal node, in creation
        order, takes its size from its children, and the multiplication it stands for is
        counted. */
    method AddProducts(instance: Instance) returns (flops: nat)
      requires IsPermutation(permutation, |permutation|) && Linked(tree, permutation, |permutation|)
      requires |instance| >= |permutation| + 2 && Sized(tree, permutation, instance, |permutation| + 1)
      modifies this
      ensures SameLinks(old(tree), tree) && Sized(tree, permutation, instance, |tree|)
      ensures flops == Flops(permutation, instance)
    {
      ghost var t0 := tree;
      var L := |permutation|;
      flops := 0;
      for i := L + 1 to |tree|
        invariant SameLinks(t0, tree) && |tree| == 2 * L + 1
        invariant Sized(tree, permutation, instance, i)
        invariant flops == SeqCost(permutation, instance, i - L - 1)
      {
        FlopsStep(t0, tree, permutation, instance, i);
        PropagateSizes(i);
        flops := flops + CostMult(tree[tree[i].left].rows, tree[tree[i].left].cols, tree[tree[i].right].cols);
      }
    }
  }
}

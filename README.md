# Matrix chain merge orders, verified

This project is a Dafny model of the core of *essential*, a toolkit for the Matrix Chain
Ordering Problem. A chain of L+1 matrices A0 ... AL with dimensions d0 ... d(L+1) is
parenthesised by a *merge order*: a permutation of the join identifiers 1..L. Join j
multiplies the product that ends with matrix j-1 by the product that starts with matrix j.

The model covers four parts of the system.

- **The canonicaliser** (`PermutationTransformer::canonicalize`)
  - It replays a merge order into a dependency table.
  - It walks the table from the last join, right branch first, and reverses the walk.
  - This yields one representative merge order per parenthesisation.
- **The `Algorithm` class**
  - It builds the merge tree as an index-addressed node array with parent links.
  - It propagates matrix sizes up the array.
  - It adds up the FLOPs of every multiplication.
- **The generator utilities**
  - Enumerating the canonical merge orders.
  - The essential (fan-out) merge orders.
  - Lookup by equality.
  - `factorial`, `catalanNumber` and `isCanonical`.
- **The approximation heuristics**
  - Chandra's fan-out from the smallest dimension.
  - `minEssential`.
  - F.Y. Chin's deque heuristic (CACM 1978).
  - `reduceMin`.
  - `chin2Canonical`.

All are proved against one algebra.

- **Merge trees** (`merge_trees.dfy`)
  - A merge order determines a merge tree: the last join of a range is its root.
  - The canonical order is the tree's post-order.
- **Groups** (`groups.dfy`)
  - These are the products that exist after a prefix of the order.
  - They are what the node array and the dependency table track.
- **Costs** (`costs.dfy`)
  - The FLOPs of an order are the sum of its steps.
  - They equal the cost of its tree, so canonicalisation keeps them.

The imperative code stays imperative. The table is an `array`. `Algorithm` is a class whose
`tree` field its methods reassign. The loops of `minEssential`, `chin` and `reduceMin` are
`while`/`for` loops over sequences with invariants. Each method is proved against a function
of its inputs.

## Model

| member | source | states |
|---|---|---|
| PermutationTransformer.Canonicalize | src/permutation.cpp:13-18 | the result is the post-order of the merge tree of perm, computed on a fresh table of exactly \|perm\| cleared entries (empty input gives empty output) |
| PermutationTransformer.ClearTable | src/permutation.cpp:66-72 | every entry becomes computed = false, left = right = -1 |
| PermutationTransformer.BuildRepresentation | src/permutation.cpp:20-25 | after replaying a valid permutation the table represents its merge tree and every entry is marked computed |
| PermutationTransformer.AddDependencies | src/permutation.cpp:27-45 | the new table is the old one with the two dependency updates of join p and nothing else changed |
| PermutationTransformer.AddDepsEffect | src/permutation.cpp:27-45 | only the nearest uncomputed entry below p changes (its right := p) and only the nearest uncomputed entry above p changes (its left := p) |
| PermutationTransformer.StepEffect | src/permutation.cpp:20-25 | marking p computed and adding its dependencies links p to the groups LoBound/HiBound it merges and keeps the flags equal to the replayed prefix |
| PermutationTransformer.BuildRecursive | src/permutation.cpp:55-64 | the walk from the root join of a delimited sub-tree appends exactly its root, right-first, left-last preorder |
| PermutationTransformer.BuildPermutation | src/permutation.cpp:47-53 | walking from the last join and reversing yields Canonical(perm) |
| PermutationTransformer.ReversedWalkIsPost | src/permutation.cpp:51-64 | the reversed root-right-left preorder of a tree is its post-order, so each join comes after its left and right dependents |
| MergeTrees.BuildPost | src/permutation.cpp:13-18 | the post-order of a well-formed tree rebuilds that same tree: canonicalisation is a bijection between trees and canonical orders |
| MergeTrees.MergeTreeWellFormed | src/algorithm.cpp:28-42 | the merge tree of a permutation of 1..L parenthesises exactly matrices 0..L |
| MergeTrees.CanonicalIsPermutation | src/permutation.cpp:47-64 | the canonical form has the input's length and holds every identifier 1..\|perm\| exactly once |
| MergeTrees.CanonicalKeepsLast | src/permutation.cpp:50-51 | the canonical form ends with the input's last join |
| MergeTrees.CanonicalKeepsTree | src/permutation.cpp:13-18 | the canonical form has the same merge tree as the input |
| MergeTrees.CanonicalIdempotent | src/generator.cpp:79-81 | canonicalising a canonical form returns it unchanged |
| MergeTrees.SameTreeIffSameCanonical | src/permutation.cpp:13-18 | two orders have the same canonical form if and only if they have the same merge tree |
| Costs.FlopsIsTreeCost | src/algorithm.cpp:15-26 | the FLOPs summed step by step in merge order equal the sum over the tree's nodes of d[lo]·d[j]·d[hi+1] |
| Costs.SameTreeSameFlops | src/algorithm.cpp:15-26 | two orders with the same merge tree cost the same on every instance |
| Costs.CanonicalSameFlops | src/permutation.cpp:13-18 | canonicalising an order keeps its FLOP count on every instance |
| Costs.FlopsExample | src/algorithm.cpp:15-26 | on dimensions [10, 20, 30, 5] the order [1, 2] costs 7500 and [2, 1] costs 4000 |
| Algorithms.RootOf | src/algorithm.cpp:48-50 | following parent links from id ends at a node at or above id that has no parent |
| Algorithms.Algorithm.constructor | src/algorithm.cpp:10-13 | the object keeps the permutation and holds its whole merge tree |
| Algorithms.Algorithm.BuildTree | src/algorithm.cpp:28-42 | afterwards the array has \|perm\|+1 input nodes and \|perm\| internal nodes linked as the merge order's groups, every parent above its child |
| Algorithms.Algorithm.AddJoin | src/algorithm.cpp:33-41 | the node of join p gets children RootOf(p-1) and RootOf(p) as found before it is added, and both get it as parent |
| Algorithms.Algorithm.CreateInputNodes | src/algorithm.cpp:44-46 | exactly \|perm\|+1 default nodes are created |
| Algorithms.Algorithm.AssignSizes | src/algorithm.cpp:52-57 | input node i gets rows = d[i] and cols = d[i+1]; nothing else changes |
| Algorithms.Algorithm.PropagateSizes | src/algorithm.cpp:59-62 | node id takes its rows from its left child and its columns from its right child |
| Algorithms.Algorithm.AddProducts | src/algorithm.cpp:19-23 | the loop keeps every link, sizes each internal node to the d[lo] x d[hi+1] of its matrix range, and sums the step costs of the merge order |
| Algorithms.Algorithm.ComputeFlops | src/algorithm.cpp:15-26 | the result is the FLOP count of the merge order on the instance, every node ends sized by its matrix range, and no child or parent link changes |
| Algorithms.OneRoot | src/algorithm.cpp:33-41 | after all joins every matrix belongs to the group of the last node |
| Algorithms.Algorithm.OneTree | src/algorithm.cpp:28-42 | after construction node 2L, the last one, is the only node without a parent, so the array is a single tree; Valid also makes every internal node the parent of both its children |
| Generator.IsCanonical | src/generator.cpp:79-81 | true exactly when canonicalising the permutation returns it unchanged |
| Generator.CanonicalFormIsImage | src/generator.cpp:79-81 | a permutation is canonical if and only if it is the canonical form of some permutation of the same joins |
| Generator.OrderingsSound | src/generator.cpp:21-25 | every enumerated ordering of a sequence of distinct values is a rearrangement of it |
| Generator.OrderingsComplete | src/generator.cpp:21-25 | every rearrangement of an increasing sequence is enumerated |
| Generator.OrderingsSorted | src/generator.cpp:21-25 | the orderings of an increasing sequence are enumerated in strictly increasing lexicographic order, as std::next_permutation visits them |
| Generator.PermutationIsOrdering | src/generator.cpp:18-19 | a sequence is a permutation of 1..n if and only if it is a rearrangement of iota(1..n) |
| Generator.CanonicalPermsExact | src/generator.cpp:13-28 | q is among the generated orders if and only if q is a permutation of 1..n-1 in canonical form |
| Generator.CanonicalPermsSorted | src/generator.cpp:13-28 | the generated orders are in strictly increasing lexicographic order, hence without duplicates |
| Generator.GenerateAlgorithms | src/generator.cpp:13-28 | the algorithms built are exactly the canonical permutations of 1..n-1 in lexicographic order, each with its tree built |
| Generator.EssentialOrderIsFanOut | src/generator.cpp:40-48 | the essential order for h is a canonical permutation of 1..n-1 whose tree multiplies through dimension h at every node |
| Generator.GetEssentialPerm | src/generator.cpp:40-48 | h = 0 gives 1..n-1 (the unsigned wrap of h - 1 skips the descending loop), h = n gives n-1..1, otherwise h-1..1, h+1..n-1, h; a canonical permutation, except for h = n = 2^32-1, where h + 1 wraps to 0 and the result is n-1..1, 0..n-1, no permutation |
| Generator.GetEssentialPerms | src/generator.cpp:30-38 | (n+1) mod 2^32 entries, entry i being the essential order for i |
| Generator.GetID | src/generator.cpp:50-55 | the index of the first algorithm with that permutation, or the list's size when there is none |
| Generator.GetIDs | src/generator.cpp:57-65 | one lookup per permutation, in order |
| Generator.EssentialsFound | src/generator.cpp:50-55 | every essential order is found among the generated algorithms |
| Generator.Factorial | src/generator.cpp:67-73 | the product 2·3·…·n, 1 for n ≤ 1 |
| Generator.CatalanNumber | src/generator.cpp:75-77 | (2n)! / ((n+1)!·n!) over exact naturals |
| Generator.CatalanValues | src/generator.cpp:67-77 | 0! = 1! = 1, 5! = 120, the Catalan numbers 1, 1, 2, 5, 14, …, 132, 429, and 12! < 2^32 ≤ 13! |
| Generator.CanonicalPermsOfThree | src/generator.cpp:13-28 | for three matrices generateAlgorithms keeps both merge orders [1, 2] and [2, 1], which is catalanNumber(2) = 2 algorithms |
| Generator.CatalanU32Wrong | src/generator.cpp:75-77 | with 32-bit arithmetic catalanNumber(6) is still right, catalanNumber(7) is 6 instead of 429, and catalanNumber(18) divides by zero |
| Approximations.MinIndex | src/apprx_algorithms.cpp:14-15 | the first position of a smallest dimension |
| Approximations.Chandra | src/apprx_algorithms.cpp:13-17 | the essential order of the first smallest dimension, a canonical permutation; for 2^32 dimensions with the only smallest one last, getEssentialPerm's h + 1 wraps and the result is no permutation |
| Approximations.LeftCombCost | src/apprx_algorithms.cpp:30-32 | ((A_lo A_lo+1) …) A_hi costs d[lo] times the sum of the neighbour products z[lo+2..hi+1] |
| Approximations.RightCombCost | src/apprx_algorithms.cpp:30-32 | A_lo (… (A_hi-1 A_hi)) costs d[hi+1] times z[lo+1..hi] |
| Approximations.FanOutCost | src/apprx_algorithms.cpp:30-33 | the fan-out tree for h costs t[h] = d[h]·(x - z[h] - z[h+1]), read cyclically for h = n |
| Approximations.EssentialCostIsFlops | src/apprx_algorithms.cpp:19-33 | t[h] is the FLOP count of getEssentialPerm(n, h) on the instance |
| Approximations.EssentialCosts | src/apprx_algorithms.cpp:20-33 | the z, x and t loops give t[h] = EssentialCost(k, h) for every h |
| Approximations.MinEssential | src/apprx_algorithms.cpp:19-44 | h ≤ n, t[h] is minimal, and every earlier index costs strictly more (first minimum wins) |
| Approximations.MinEssentialCheapest | src/apprx_algorithms.cpp:19-44 | the chosen essential order has the fewest FLOPs among all essential orders |
| Approximations.Reciprocals | src/apprx_algorithms.cpp:53-55 | r[i] = 1 / d[i] exactly |
| Approximations.MinIndexDominant | src/apprx_algorithms.cpp:49-55 | the smallest dimension has the largest reciprocal |
| Approximations.ScanForward | src/apprx_algorithms.cpp:57-73 | the deque is strictly increasing from 0 to n and still holds m; popped joins carry distinct labels 1..a-1; exactly the deque's interior is unlabelled |
| Approximations.ScanStep | src/apprx_algorithms.cpp:64-72 | one push and the pops after it keep the deque increasing with front 0, never pop m, and label each popped join once |
| Approximations.Nibble | src/apprx_algorithms.cpp:75-89 | the deque stays increasing and keeps m; each removed end labels the new end from above; with 3 or more entries left, neither removal test holds |
| Approximations.PopBack | src/apprx_algorithms.cpp:78-81 | the back of the deque is not m, and the new back is a free join that may take label b |
| Approximations.PopFront | src/apprx_algorithms.cpp:82-85 | the front of the deque is not m, and the new front is a free join that may take label b |
| Approximations.AssociateOut | src/apprx_algorithms.cpp:91-108 | after the two interior loops and the final write, v holds each label 1..n-1 exactly once |
| Approximations.AssociateLeft | src/apprx_algorithms.cpp:92-97 | the free joins strictly between the deque's front and h are labelled, each once |
| Approximations.AssociateRight | src/apprx_algorithms.cpp:98-103 | the free joins strictly between h and the deque's back are labelled, each once |
| Approximations.LabelsComplete | src/apprx_algorithms.cpp:195-197 | a label vector with no empty slot, which uses distinct labels from 1..n-1, is a permutation, as chin2Canonical's indexing needs |
| Approximations.InverseIsPermutation | src/apprx_algorithms.cpp:195-197 | the inverse of a permutation is a permutation that sends v[i]-1 to i+1 |
| Approximations.InverseInvolution | src/apprx_algorithms.cpp:195-197 | inverting twice gives the permutation back |
| Approximations.ChinToCanonical | src/apprx_algorithms.cpp:193-200 | the canonical form of the inverse of Chin's labels, of the same length and canonical |
| Approximations.Chin | src/apprx_algorithms.cpp:46-113 | for positive dimensions, a canonical permutation of 1..n-1 |
| Approximations.AscendingLength | src/apprx_algorithms.cpp:162-163 | an increasing deque of positions 0..n has at most n+1 entries, so the reduced instance fits minEssential's index type |
| Approximations.ReducedInstance | src/apprx_algorithms.cpp:162-164 | \|q\| = \|Q\| and q[i] = d[Q[i]] |
| Approximations.ReduceMin | src/apprx_algorithms.cpp:115-191 | for positive dimensions, a canonical permutation of 1..n-1 |

## Left out

- The dimensions, FLOP counts and `minEssential`'s z, x and t are exact integers, and Chin's reciprocals are exact reals. IEEE-754 rounding of the `double` computations is not modelled. On near-ties the source may pick a different index than the model.
- PermutationTransformer.Canonicalize: `canonicalize` on an empty permutation reads `perm.back()` of an empty vector, which is undefined behaviour. The model returns the empty permutation, as a chain of one matrix needs.
- The static `table_info` is a fresh array local to each call, so the model has no state shared between calls.
- Algorithms.Algorithm.constructor: node ids are `int8_t`. The model requires at most 63 joins (2·63+1 nodes fit) instead of modelling the overflow.
- Algorithms.RootOf: `getRoot` reads the object's `tree`. The model passes the array explicitly, because it is a function of the array.
- Algorithms.Algorithm.ComputeFlops: `|instance| = |perm| + 2` is not checked by the source. The model requires at least that many dimensions.
- Algorithms.Algorithm.AddJoin, Algorithms.Algorithm.AddProducts, Generator.AddIfCanonical, Approximations.ScanStep, Approximations.AssociateLeft and Approximations.AssociateRight are the bodies of source loops, taken out as methods of their own.
- Generator.GenerateAlgorithms: `std::next_permutation` is modelled by Orderings. Orderings enumerates the rearrangements of an increasing sequence in lexicographic order, which is the order the do/while visits them.
- Generator.GenerateAlgorithms: as written, the `reserve` evaluates catalanNumber(n-1) in 32-bit arithmetic, which divides by zero for 19 ≤ n (Generator.CatalanU32Wrong, see Findings), so the source traps there before it builds anything. The model follows the corrected Generator.CatalanNumber, with which the `reserve` only preallocates memory; it is not modelled, and neither is the trap.
- Generator.GenerateAlgorithms: that the count equals catalanNumber(n-1) is not proved for every n. The model proves the generated list is exactly the canonical permutations without duplicates. That these are in bijection with the parenthesisations is MergeTrees.BuildPost and MergeTrees.SameTreeIffSameCanonical. Counting the parenthesisations against Catalan's closed form is done only for three matrices (Generator.CanonicalPermsOfThree).
- Generator.GenerateAlgorithms: `n - 1U` wraps for n = 0. The model requires n ≥ 1.
- Generator.Factorial and Generator.CatalanNumber compute over exact naturals. The 32-bit behaviour is modelled separately by Generator.FactU32 and Generator.CatalanU32 (see Findings). `factorial(2^32 - 1)` never terminates in the source because `i <= n` always holds; this is not modelled.
- Generator.GetEssentialPerm and Generator.GetEssentialPerms: n is `unsigned`, so the model requires n < 2^32. The wraps of `h - 1` for h = 0, of `h + 1` for h = 2^32 - 1 and of `n + 1` are modelled explicitly.
- Generator.GetEssentialPerm: requires n ≥ 1. For n = 0 the test `perm.size() < n - 1` wraps, so getEssentialPerm(0, 0) returns [0]; a chain needs at least one matrix, so this input is excluded rather than modelled.
- Generator.GetEssentialPerms: requires n ≥ 1 for the same reason; for n = 0 the source returns [[0]].
- Approximations.Chandra: requires at least two dimensions (one matrix). On a one-entry instance the source returns getEssentialPerm(0, 0) = [0], and on an empty one `k.size() - 1U` wraps; neither is modelled.
- Approximations.Chin and Approximations.ReduceMin:
  - They require every dimension to be positive, since the source's `1.0 / 0` is infinity.
  - They require 2 ≤ |k| ≤ 2^31, since n is an `int`.
- Approximations.Chin: its `ensures` states that the result is a canonical permutation, which is what callers rely on. It does not state which one; that is given only by the code of the model. The same holds for Approximations.ReduceMin.
- Approximations.MinEssential: requires 1 ≤ |k| < 2^32. The upper bound is there because its loop counters are `unsigned`. The lower bound is there because on an empty instance the source reads z[0] and k[n] of empty vectors, which is undefined behaviour.

## Findings

| source | as written | input that shows it | evidently intended | confidence | as-written member | corrected member |
|---|---|---|---|---|---|---|
| src/generator.cpp:67-77 | `factorial` and `catalanNumber`'s product of two factorials are computed in 32-bit `unsigned`, modulo 2^32 | catalanNumber(7) is 6, not 429. catalanNumber(18) divides by zero, and generateAlgorithms(19) evaluates it | the n-th Catalan number (2n)! / ((n+1)!·n!) | not executed; high (the arithmetic is fixed by the C++ standard) | Generator.CatalanU32Wrong | Generator.CatalanNumber |

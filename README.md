# PythonAlgorithms in Dafny

A Dafny model of the algorithm modules of `tommyod/PythonAlgorithms`, with proofs of what each algorithm promises. The modules are:

- `unionfind`: a disjoint-set forest with path compression and union by rank.
- `range_query_tree`: a segment tree stored in a flat list.
- `graph_undirected`: an undirected graph with BFS/DFS, Kruskal's algorithm and Prim's algorithm.
- `knapsack`: the 0/1 knapsack table and its walk back.
- `strings`: the longest common subsequence, which the source calls "longest common substring".
- `mathematics`: trial-division prime factors and the Sieve of Eratosthenes.
- `sandbox/sandbox_primes`: two trial-division prime generators.
- `geometry`: the closest pair of points on a line.
- `sequences`: Fibonacci numbers.

Each source module becomes one Dafny module, in one file:

- `wrappers.dfy` (`Wrappers`): `Option`, and `Result` with the Python exception kinds `ValueError`, `IndexError`, `KeyError` and `TypeError`. An operation that raises becomes a `Failure` carrying the exception kind.
- `builtins.dfy` (`Builtins`): the Python built-ins the algorithms use, `sorted` as `Sort` and `reversed` as `Reverse`.
- `sequences.dfy` (`Sequences`): `fib`, as a function.
- `mathematics.dfy` (`Mathematics`): `prime_factors` and `prime_sieve` as methods with loops. The sieve works on an `array<bool>` in place.
- `sandbox_primes.dfy` (`SandboxPrimes`): `primes_naive` and `primes_odds_sqrt` as methods with nested loops.
- `geometry.dfy` (`Geometry`): `closest_pair_line`, as a function, since the source is pure.
- `strings.dfy` (`Strings`): `longest_common_substring`, which fills two `array2` tables and walks back. The method is proved equal to the recursive specification `LcsTrace`.
- `knapsack.dfy` (`Knapsack`): `knapsack_without_repetition`, which fills `array2` tables and walks back. The method is proved equal to the specification `Solution`.
- `unionfind.dfy` (`Unionfind`): class `UnionFind` with `parent` and `rank` maps that its methods reassign.
- `range_query_tree.dfy` (`RangeQueryTree`): class `RQT` over an `array<T>`.
- `graph_undirected.dfy` (`GraphUndirected`): class `UndirectedGraph`. Its state is:
  - a neighbour map;
  - the key insertion order of the `defaultdict`;
  - a weight map keyed by the unordered pair.

Behaviours of the source that the model keeps as written:

- **Union by rank:** on a rank tie, `union(x, y)` increments the rank of the argument `x`, not of `root_x`.
- **`union(iterable)`:** it is a `functools.reduce`:
  - an empty iterable is a TypeError;
  - a single element is returned without any lookup.
- **Reads insert keys:** reading a `defaultdict` inserts the key. This covers `weight`, `neighbors`, `edges(and_weights=True)`, `copy`, `_search` and `minimum_spanning_tree`.
- **`remove`:** it never touches the weights.
- **`copy`:** it loses isolated vertices and weights of non-edges, so `g.copy() == g` holds exactly when there are none.
- **Both spanning-tree loops:** they raise IndexError from `heappop` when the heap runs dry.
  - Kruskal raises it when the graph is empty or disconnected.
  - Prim raises it also when the start vertex is not in the graph: `all_vertices` is read before `neighbors(start_vertex)` inserts the start vertex.
- **RQT build loop:** it also writes node 0, whose children are nodes 0 and 1. `update` never repairs node 0.
- **`rqt[index]`:** it has no range check (see Findings).
- **`prime_sieve(n)` with negative `n`:** `int(n**0.5 + 1)` fails on a complex number, which is modelled as a TypeError.
- **Knapsack errors:**
  - lists of different lengths raise ValueError;
  - a negative capacity raises KeyError, or IndexError when there are no items;
  - a negative weight raises IndexError once the capacity is at least 1.

## Model

| member | source | states |
|---|---|---|
| Sequences.Fib | algorithms/sequences.py:7-18 | every Fibonacci value is at least 1 |
| Sequences.FibPairIsFib | algorithms/sequences.py:7-18 | the double recursion agrees with a single walk that carries two neighbouring values from (1, 1) |
| Sequences.FibAtLeastIndex | algorithms/sequences.py:7-18 | fib(n) is at least n |
| Sequences.FibExamples | algorithms/tests/test_sequences.py:12-13 | fib(2) == 2 and fib(5) == 8, as the doctest and the test expect |
| Mathematics.PrimesUpTo | algorithms/mathematics.py:59-61 | the reference list of primes: p is in it iff 2 <= p <= m and p is prime, and it is strictly increasing |
| Mathematics.NoSmallDivisorMeansPrime | algorithms/mathematics.py:47-57 | a number with no divisor d >= 2 with d*d <= n is prime (why the `for ... else` may yield `number`) |
| Mathematics.PrimeHasNoSmallDivisor | algorithms/mathematics.py:47-57 | the converse: a prime has no divisor d >= 2 with d*d <= n |
| Mathematics.LeastDivisorStep | algorithms/mathematics.py:38-53 | the least divisor above 1 is prime, the quotient is smaller and still has no divisor below it, so the loop terminates and factors come out non-decreasing |
| Mathematics.OddTrialDivision | algorithms/mathematics.py:47-57 | the `for` loop either finds the least odd divisor or stops with divisor*divisor > n and no divisor below it |
| Mathematics.PrimeFactors | algorithms/mathematics.py:8-57 | ValueError iff number <= 1; otherwise the factors multiply to number, every factor is prime, and they are sorted |
| Mathematics.InitialSieve | algorithms/mathematics.py:83-85 | after the slice assignment the list has n + 1 entries (2 for n = 0), entries 0 and 1 are false and the rest true |
| Mathematics.SurvivesMeansNoSmallFactor | algorithms/mathematics.py:87-97 | surviving the rounds 2..i-1 of crossing out means having no factor d < i with d*d <= k, and back |
| Mathematics.CompositeRoundIsRedundant | algorithms/mathematics.py:90-91 | skipping the round of a crossed-out i changes nothing |
| Mathematics.SieveSurvivorIsPrime | algorithms/mathematics.py:87-100 | once i*i > k, surviving every round is the same as being prime |
| Mathematics.CrossOutMultiples | algorithms/mathematics.py:94-97 | exactly the multiples of i from i*i up to n are cleared; every index written is <= n |
| Mathematics.MarkedIndices | algorithms/mathematics.py:100 | the indices still marked are exactly the primes up to n, in order |
| Mathematics.PrimeSieve | algorithms/mathematics.py:59-100 | TypeError iff n < 0; otherwise exactly the primes <= n in increasing order |
| SandboxPrimes.PrimesNaive | algorithms/sandbox/sandbox_primes.py:10-27 | the output is exactly the primes up to n, in increasing order |
| SandboxPrimes.HasOddDivisor | algorithms/sandbox/sandbox_primes.py:45-51 | the flag is set iff some odd j >= 3 with j*j <= i divides i |
| SandboxPrimes.OddTrialSurvivorIsPrime | algorithms/sandbox/sandbox_primes.py:42-55 | for odd i >= 3, passing the odd trial division is the same as being prime |
| SandboxPrimes.OddSurvivorsStep | algorithms/sandbox/sandbox_primes.py:42 | the step-2 range adds i exactly when i survives, nothing for the even number after it |
| SandboxPrimes.PrimesOddsSqrt | algorithms/sandbox/sandbox_primes.py:30-55 | the output is 2 when n >= 2, then the odd survivors in increasing order |
| SandboxPrimes.OddsSqrtYieldsPrimes | algorithms/sandbox/sandbox_primes.py:39-55 | that output is exactly the primes up to n, in increasing order |
| SandboxPrimes.GeneratorsAgree | algorithms/sandbox/sandbox_primes.py:73 | the two generators produce the same list for every n |
| Geometry.MinGapIndex | algorithms/geometry.py:47-51 | the index of the least gap between sorted neighbours, the earliest one on ties, as `min` over `(gap, (i, i - 1))` picks |
| Geometry.ClosestPairLine | algorithms/geometry.py:12-55 | ValueError iff fewer than two points; otherwise the pair comes smaller first |
| Geometry.ClosestPairFromInput | algorithms/geometry.py:43-55 | both values of the pair sit at two distinct positions of the input |
| Geometry.ClosestPairIsClosest | algorithms/geometry.py:14-15 | no two distinct positions of the input are closer than the returned pair |
| Geometry.ClosestPairIsEarliestNeighbours | algorithms/geometry.py:47-51 | the pair is the two ends of the earliest least gap between sorted neighbours |
| Geometry.ClosestPairFromSortedCopy | algorithms/geometry.py:43-44 | any sorted permutation of the input determines the result, as `sorted` returns it |
| Geometry.ExampleDoc1 | algorithms/geometry.py:25-26 | the sorted first doctest input gives (22, 25); `ClosestPairFromSortedCopy` carries this to the input as written |
| Geometry.ExampleDoc2 | algorithms/geometry.py:28-29 | the sorted second doctest input gives (-100, -98) |
| Geometry.ExampleTest1 | algorithms/tests/test_geometry.py:18 | the sorted test input gives (2, 3) |
| Geometry.ExampleTest2 | algorithms/tests/test_geometry.py:19 | the sorted test input gives (5, 8) |
| Geometry.ExampleTest3 | algorithms/tests/test_geometry.py:20 | the sorted test input gives (57, 60) |
| Geometry.ExampleTest4 | algorithms/tests/test_geometry.py:21 | the sorted test input gives (28, 30) |
| Geometry.ExampleTest5 | algorithms/tests/test_geometry.py:22 | the sorted test input gives (-10, -6) |
| Strings.TraceLength | algorithms/strings.py:79-102 | the walk back collects exactly as many characters as the table entry says |
| Strings.TraceIsCommonSubsequence | algorithms/strings.py:97-105 | what the walk back collects is a subsequence of both prefixes |
| Strings.LcsSteps | algorithms/strings.py:79-91 | dropping one character from either string lowers the table entry by at most one and never raises it |
| Strings.LcsIsLongest | algorithms/strings.py:74-91 | no common subsequence of the prefixes is longer than the table entry |
| Strings.FillRow | algorithms/strings.py:75-91 | one row of both tables follows the recurrence (diagonal + 1 on a match, else up or left, up on ties), other rows unchanged |
| Strings.FillTables | algorithms/strings.py:74-91 | both tables hold the recurrence's values everywhere |
| Strings.LongestCommonSubstring | algorithms/strings.py:21-105 | the result is the reversed walk back, and "" when either string is empty |
| Strings.LongestCommonSubstringIsLcs | algorithms/strings.py:21-26 | the result is a common subsequence of both strings and no common subsequence is longer |
| Strings.ExampleDoc1 | algorithms/strings.py:48-49 | 'aabkc', 'afbcg' gives 'abc' |
| Strings.ExampleDoc2 | algorithms/strings.py:51-52 | 'abc', 'auboc' gives 'abc' |
| Strings.ExampleTest2 | algorithms/tests/test_strings.py:20 | 'AGGTAB', 'GXTXAYB' gives 'GTAB' |
| Strings.ExampleTest8 | algorithms/tests/test_strings.py:26 | an empty second string gives '' |
| Knapsack.WalkIsDecreasing | algorithms/knapsack.py:99-108 | the walk back records items in strictly decreasing order, all below the item count |
| Knapsack.Solution | algorithms/knapsack.py:53-113 | fails iff the lengths differ, the capacity is negative, or a weight is negative with capacity >= 1; ValueError, KeyError or IndexError as the code raises; items form a selection |
| Knapsack.FillColumn | algorithms/knapsack.py:72-96 | one item's column follows the table recurrence (take the item only when it fits and strictly improves); stops where the code raises IndexError |
| Knapsack.FillTable | algorithms/knapsack.py:62-96 | the whole value table and its `previous` entries follow the recurrence; fails iff a negative weight meets capacity >= 1 |
| Knapsack.WalkBack | algorithms/knapsack.py:98-108 | the `while` loop collects exactly the specified walk |
| Knapsack.KnapsackWithoutRepetition | algorithms/knapsack.py:10-113 | the method returns exactly `Solution` |
| Knapsack.ItemsAreSortedIndices | algorithms/knapsack.py:99-113 | the returned items are sorted, distinct and within [0, n) |
| Knapsack.KnapsackIsOptimal | algorithms/knapsack.py:12-16 | with positive weights no selection within capacity is worth more than the returned value |
| Knapsack.KnapsackPacksItsValue | algorithms/knapsack.py:101-111 | with positive weights the returned items fit the capacity and are worth exactly the returned value |
| Knapsack.EmptyKnapsackOrNoItems | algorithms/tests/test_knapsack.py:19-21 | capacity 0 or no items gives (0, []) |
| Knapsack.IntendedTableIsOptimal | algorithms/knapsack.py:12-16 | the corrected table is an upper bound on every selection within capacity, for weights >= 0 |
| Knapsack.IntendedPicksAchieve | algorithms/knapsack.py:98-113 | the corrected walk packs a selection within capacity worth exactly the corrected table |
| Knapsack.AsWrittenIsIntendedForPositiveWeights | algorithms/knapsack.py:72-108 | with positive weights the table and walk as written equal the corrected ones |
| Knapsack.NothingFitsInEmptyKnapsack | algorithms/knapsack.py:64-65 | with positive weights row 0 of the corrected table is 0 and picks nothing, as the unfilled row 0 of the code |
| Knapsack.ExampleDoc1 | algorithms/knapsack.py:40-41 | capacity 5 gives (1, [2]) |
| Knapsack.ExampleDoc2 | algorithms/knapsack.py:43-44 | capacity 20 gives (200, [0, 1]) |
| Knapsack.ExampleTest4 | algorithms/tests/test_knapsack.py:24 | the Dasgupta example gives (46, [1, 3]) |
| Knapsack.ExampleTest5 | algorithms/tests/test_knapsack.py:25 | the reordered Dasgupta example gives (46, [2, 3]) |
| Knapsack.ZeroWeightMissesOptimum | algorithms/knapsack.py:69-72 | capacity 1, values [3, 5], weights [0, 1] gives (5, [1]) although items 0 and 1 fit and are worth 8 |
| Knapsack.ZeroWeightItemNotReported | algorithms/knapsack.py:105-106 | capacity 1, values [3], weights [0] gives (3, []): the value counts an item the list omits |
| Knapsack.IntendedZeroWeightExample | algorithms/knapsack.py:12-16 | the corrected definitions give 8 and items [0, 1] on that input |
| Builtins.Sort | algorithms/geometry.py:43-44 | `sorted`: the result is sorted and a permutation of the input |
| Builtins.SortedPermutationsAreEqual | algorithms/knapsack.py:113 | two sorted permutations of each other are equal, so `sorted` is determined by the multiset |
| Builtins.Reverse | algorithms/strings.py:105 | `reversed`: element k of the result is element n-1-k of the input |
| Unionfind.RootOf | algorithms/unionfind.py:112-118 | following parents from x ends at a root, higher up unless x is the root |
| Unionfind.PathOf | algorithms/unionfind.py:109-118 | the chain `get_root` collects: exactly the non-roots on the way, all with x's root |
| Unionfind.Compress | algorithms/unionfind.py:121-122 | pointing one element at its root keeps the forest and every element's root |
| Unionfind.LinkKeepsForest | algorithms/unionfind.py:173-179 | attaching one root under another keeps the parent map a forest |
| Unionfind.LinkAt | algorithms/unionfind.py:173-185 | attaching root a under root b sends exactly the elements rooted at a to b |
| Unionfind.UnionFind.constructor | algorithms/unionfind.py:13-46 | every item its own parent with rank 0 |
| Unionfind.UnionFind.Register | algorithms/unionfind.py:44-46 | one item becomes a root of rank 0, nothing else changes |
| Unionfind.UnionFind.Contains | algorithms/unionfind.py:48-67 | `item in uf` iff the item is registered, and nothing changes |
| Unionfind.UnionFind.Add | algorithms/unionfind.py:69-84 | the items become roots of rank 0, the other entries stay as they were |
| Unionfind.UnionFind.Climb | algorithms/unionfind.py:109-118 | the `while` loop finds the root and the chain of elements passed |
| Unionfind.UnionFind.PointOne | algorithms/unionfind.py:122 | pointing one element at its root changes only its parent and no element's root |
| Unionfind.UnionFind.PointAt | algorithms/unionfind.py:121-122 | every element of the chain now points at the root, others unchanged, every root preserved |
| Unionfind.UnionFind.GetRoot | algorithms/unionfind.py:86-123 | KeyError iff x is unregistered; otherwise the root of x, the chain points at it, nothing else moves, every root preserved |
| Unionfind.UnionFind.InSameSet | algorithms/unionfind.py:125-139 | KeyError iff either is unregistered; otherwise whether the roots agree, with the partition unchanged |
| Unionfind.UnionFind.BothRoots | algorithms/unionfind.py:164-165 | the two roots, or KeyError, with the partition unchanged |
| Unionfind.UnionFind.Merge | algorithms/unionfind.py:167-185 | the lower-rank root goes under the other, the tie increments the rank of the argument x, and exactly the two classes merge |
| Unionfind.UnionFind.Attach | algorithms/unionfind.py:174 | `_parent[a] = b` sends the class of a to b |
| Unionfind.UnionFind.Union | algorithms/unionfind.py:141-185 | KeyError iff either is unregistered; otherwise the returned root, the rank change of the tie quirk, and exactly the two classes merged |
| Unionfind.UnionFind.UnionAll | algorithms/unionfind.py:159-161 | the reduce: TypeError on no items with nothing changed, the single item unchecked, KeyError iff an item is unregistered, else all items share the returned root and exactly their classes merge; on a KeyError at the first unregistered item k, the classes of the k items before it are merged when k >= 2 and the partition stands when k < 2; ranks outside the merged classes are untouched |
| Unionfind.UnionFind.Begin | algorithms/unionfind.py:161 | the first union of the reduce, seen from the roots before it |
| Unionfind.UnionFind.Absorb | algorithms/unionfind.py:161 | one later union of the reduce: the class of the item joins the merged classes |
| Unionfind.UnionFind.Reduce | algorithms/unionfind.py:161 | the rest of the reduce merges the classes of all items, or stops with KeyError at the first unregistered one having merged the classes of the items before it |
| Unionfind.UnionFind.Fold | algorithms/unionfind.py:161 | the loop of the reduce stops at the first unregistered item or at the end, with the classes of the items before it merged under one root and the other ranks untouched |
| Unionfind.UnionFind.Roots | algorithms/unionfind.py:86-123 | the map from each registered element to its root |
| Unionfind.UnionFind.SameRoot | algorithms/tests/test_unionfind.py:18-25 | `in_same_set` compares the roots and leaves the root map unchanged |
| Unionfind.UnionFind.Join | algorithms/tests/test_unionfind.py:45-57 | `union` sends exactly the two roots' elements to one of those roots |
| Unionfind.UnionFind.SameGroup | algorithms/tests/test_unionfind.py:49-54 | `in_same_set` answers whether the two labels agree |
| Unionfind.UnionFind.JoinGroups | algorithms/tests/test_unionfind.py:56-57 | after `union` the labelling with y's label merged into x's describes the partition |
| Unionfind.MergedLabels | algorithms/unionfind.py:164-185 | a union that sends both roots to one of them merges exactly their labels |
| Unionfind.Merged | algorithms/unionfind.py:164-185 | the relabelling: elements labelled `moved` get `into`, others keep theirs |
| RangeQueryTree.LeafSlots | algorithms/range_query_tree.py:46 | `tree_size // 2` is 2^ceil(log2 n), the power of two with n <= half < 2n |
| RangeQueryTree.CeilLog2Bounds | algorithms/range_query_tree.py:46 | 2^ceil(log2 n) is the least power of two at least n |
| RangeQueryTree.Parent | algorithms/range_query_tree.py:58-62 | i is child 2p or 2p + 1 of its parent p |
| RangeQueryTree.InternalIndex | algorithms/range_query_tree.py:172-173 | leaf k of [0, half) sits at position half + k, in the leaf half of the list |
| RangeQueryTree.FoldAppend | algorithms/range_query_tree.py:126 | for a monoid the fold of a concatenation combines the folds of its parts |
| RangeQueryTree.BuildStep | algorithms/range_query_tree.py:55-56 | combining node i from its children extends the built nodes down to i |
| RangeQueryTree.RepairStep | algorithms/range_query_tree.py:91-94 | recombining the one stale node leaves only its parent stale |
| RangeQueryTree.LeafStep | algorithms/range_query_tree.py:87-88 | writing a leaf leaves only its parent stale |
| RangeQueryTree.RangeAt | algorithms/range_query_tree.py:134-145 | the node num places from the left of level L covers 2^(h-L) leaves from num*2^(h-L), inside the leaf slots |
| RangeQueryTree.NodeInfo | algorithms/range_query_tree.py:128-145 | `_node_info`: the level is floor(log2 node) and the range lies within the leaf slots |
| RangeQueryTree.NodeInfoOnLevel | algorithms/range_query_tree.py:132-145 | for a node on level L, `_node_info` finds level L and the range that node covers |
| RangeQueryTree.NodeValue | algorithms/range_query_tree.py:54-56 | in a built tree every node holds the fold of the leaves in its range |
| RangeQueryTree.RangeAtChildren | algorithms/range_query_tree.py:165-166 | the two children split their parent's range in half, left first |
| RangeQueryTree.QueryNodeIsFold | algorithms/range_query_tree.py:147-167 | for a monoid, `_query_node` folds the leaves where the node's range meets [i, j] |
| RangeQueryTree.QueryRootIsFold | algorithms/range_query_tree.py:126 | the query from root node 1 folds exactly leaves i..j |
| RangeQueryTree.QueryFromRoot | algorithms/range_query_tree.py:102-126 | that fold is the fold of the input window's entries i..j |
| RangeQueryTree.BuildNodes | algorithms/range_query_tree.py:54-56 | the loop makes every internal node combine its children, leaves untouched, node 0 written from nodes 0 and 1 |
| RangeQueryTree.RQT.constructor | algorithms/range_query_tree.py:14-56 | valid tree whose leaf window is the input, padding the identity |
| RangeQueryTree.RQT.Leaves | algorithms/range_query_tree.py:175-179 | the leaf window `__repr__` shows |
| RangeQueryTree.RQT.Update | algorithms/range_query_tree.py:64-97 | IndexError and nothing changed outside [0, n); otherwise leaf k replaced, other leaves kept, the tree valid again, node 0 untouched |
| RangeQueryTree.RQT.Get | algorithms/range_query_tree.py:99-100 | as written: the leaf inside [0, n), padding up to half, internal nodes for negative indices, IndexError only beyond the list |
| RangeQueryTree.RQT.GetChecked | algorithms/range_query_tree.py:82-83 | the range-checked read: IndexError iff outside [0, n), else the leaf |
| RangeQueryTree.RQT.Query | algorithms/range_query_tree.py:102-126 | IndexError iff not 0 <= i <= j < n |
| RangeQueryTree.RQT.QueryIsFold | algorithms/range_query_tree.py:102-167 | for a monoid, `query(i, j)` is the fold over leaves i..j |
| RangeQueryTree.RQT.QueryOfOne | algorithms/tests/test_range_query_tree.py:23 | for a monoid, `query(i, i)` equals the checked read of element i, failures included |
| RangeQueryTree.Build | algorithms/range_query_tree.py:41-46 | ValueError iff the sequence is empty (`log2(0)`), else a valid tree over it |
| RangeQueryTree.AddIsMonoid | algorithms/range_query_tree.py:14 | the default `operator.add` with 0 is a monoid |
| RangeQueryTree.MulIsMonoid | algorithms/tests/test_range_query_tree.py:37 | `operator.mul` with 1 is a monoid |
| RangeQueryTree.SumDoctests | algorithms/range_query_tree.py:23-29 | sums 8, 13 and 6 over RQT([6, 2, 4, 9]) |
| RangeQueryTree.GetWrapsToInternalNode | algorithms/range_query_tree.py:99-100 | `rqt[-1]` on RQT([6, 2, 4, 9]) reads internal node 3 (13), where the checked read fails |
| RangeQueryTree.GetReadsPadding | algorithms/range_query_tree.py:99-100 | `rqt[3]` on RQT([6, 2, 4]) reads the padding slot (0), where the checked read fails |
| RangeQueryTree.MiddleSum | algorithms/tests/test_range_query_tree.py:24-29 | query(1, 3) sums to a + 7 |
| RangeQueryTree.MiddleProduct | algorithms/tests/test_range_query_tree.py:41-46 | query(1, 3) multiplies to a * 12 |
| RangeQueryTree.RangeSumsTest | algorithms/tests/test_range_query_tree.py:15-29 | query(1, 3) is 9, and 10 after `rqt[1] = 3` |
| RangeQueryTree.RangeProductsTest | algorithms/tests/test_range_query_tree.py:31-46 | query(1, 3) is 24, and 36 after `rqt[1] = 3` |
| GraphUndirected.AdjacencyHas | algorithms/graph_undirected.py:86-90 | v is a neighbour of u iff u != v and some edge joins them either way round |
| GraphUndirected.AdjacencyKeys | algorithms/graph_undirected.py:89-90 | the constructor creates no isolated vertex |
| GraphUndirected.KeyOrderMatches | algorithms/graph_undirected.py:77-90 | the key order lists each key exactly once |
| GraphUndirected.AdjacencyIsSymmetric | algorithms/graph_undirected.py:86-90 | no self-loops, and b is a neighbour of a iff a is a neighbour of b |
| GraphUndirected.SameEdgesSameNeighbours | algorithms/graph_undirected.py:77-90 | the same unordered edges give each vertex the same neighbours |
| GraphUndirected.SameEdgesSameAdjacency | algorithms/tests/test_graph_undirected.py:19-21 | edge lists with the same unordered edges build the same neighbour map |
| GraphUndirected.WeightMapKeys | algorithms/graph_undirected.py:92-94 | one weight per unordered non-loop edge |
| GraphUndirected.LastWeightWins | algorithms/graph_undirected.py:94 | an edge no later edge repeats keeps its own weight: the last one wins |
| GraphUndirected.RepeatedWeight | algorithms/tests/test_graph_undirected.py:27-28 | the repeated edge B-C weighted 2 twice has weight 2 |
| GraphUndirected.Without | algorithms/graph_undirected.py:298 | deleting a key keeps the other keys in order, each once |
| GraphUndirected.RemoveKeepsAdjacency | algorithms/graph_undirected.py:296-309 | removing a vertex keeps the map loop-free and symmetric |
| GraphUndirected.Enumerate | algorithms/graph_undirected.py:138-139 | set iteration: each element once, in an order left open |
| GraphUndirected.UndirectedGraph.constructor | algorithms/graph_undirected.py:31-94 | the neighbour map, key order and last-wins weight map of the edge list |
| GraphUndirected.New | algorithms/graph_undirected.py:68-71 | ValueError iff weights are given and their count differs from the edges' |
| GraphUndirected.UndirectedGraph.Weight | algorithms/graph_undirected.py:96-101 | the stored weight or None, which is then inserted |
| GraphUndirected.UndirectedGraph.Neighbors | algorithms/graph_undirected.py:258-282 | each neighbour once; a missing vertex is inserted as a key with no neighbours |
| GraphUndirected.UndirectedGraph.NeighborsAndWeights | algorithms/graph_undirected.py:278-280 | each neighbour with its weight; missing pairs inserted with None |
| GraphUndirected.UndirectedGraph.Edges | algorithms/graph_undirected.py:103-156 | every unordered edge exactly once, from the key that comes first, listed key by key in the dict's key order |
| GraphUndirected.EdgesOfPath | algorithms/graph_undirected.py:117-123 | the doctest: the path 0-1-2-3 lists (0, 1), (1, 2), (2, 3) |
| GraphUndirected.EdgesAndWeightsOfPath | algorithms/graph_undirected.py:125-130 | the doctest: the path weighted 0, 1, 2 lists (0, 1) -> 0, (1, 2) -> 1, (2, 3) -> 2 |
| GraphUndirected.UndirectedGraph.EdgesAndWeights | algorithms/graph_undirected.py:153-154 | the same edges in the same key-by-key order, with their weights; unweighted edges inserted with None |
| GraphUndirected.YieldFrom | algorithms/graph_undirected.py:139-156 | the inner loop lists each not-yet-listed edge at one key, after the edges of the earlier keys, and remembers its pair |
| GraphUndirected.NotYetMet | algorithms/graph_undirected.py:143-150 | an edge not met at an earlier key leads to a later key |
| GraphUndirected.ListOneMore | algorithms/graph_undirected.py:146-150 | listing one new forward edge keeps the listing free of repeats |
| GraphUndirected.LookupAll | algorithms/graph_undirected.py:154 | each weight read, and None inserted for each missing pair |
| GraphUndirected.IncidentPairs | algorithms/graph_undirected.py:279-280 | the pairs read by `neighbors(v, and_weights=True)` are exactly the edges at v |
| GraphUndirected.AdjacencyOfList | algorithms/graph_undirected.py:217-221 | rebuilding from the edge listing gives the neighbour map without isolated keys |
| GraphUndirected.WeightMapOfLookups | algorithms/graph_undirected.py:217-221 | rebuilding from the weighted listing keeps each edge's weight read |
| GraphUndirected.UndirectedGraph.Copy | algorithms/graph_undirected.py:195-221 | the copy drops isolated keys and stale weights; equal to the original iff there are none; its key order is that of the `edges()` listing it is built from |
| GraphUndirected.PrunedIsSame | algorithms/graph_undirected.py:189 | dropping keys without neighbours changes nothing iff there are none |
| GraphUndirected.DefaultsAreRestrict | algorithms/graph_undirected.py:190 | reading the edges' weights leaves exactly those weights iff no other pair was stored |
| GraphUndirected.UndirectedGraph.Equals | algorithms/graph_undirected.py:158-193 | `g == h` compares the neighbour dicts and the weight dicts: true iff both have the same keys and the same value at each key |
| GraphUndirected.SameEdgesEqual | algorithms/graph_undirected.py:158-193 | unweighted graphs from edge lists with the same unordered edges compare equal |
| GraphUndirected.PermutedEdges | algorithms/graph_undirected.py:170-174 | permuting the edges gives the same graph |
| GraphUndirected.RepeatedEdge | algorithms/graph_undirected.py:176-180 | repeating an edge gives the same graph |
| GraphUndirected.FlippedEdge | algorithms/graph_undirected.py:182-186 | listing edge (1, 2) as (2, 1) gives the same graph |
| GraphUndirected.ReorderedStar | algorithms/graph_undirected.py:188-191 | the star listed in another order, one edge twice, is the same graph |
| GraphUndirected.ReorderedPath | algorithms/tests/test_graph_undirected.py:19-21 | the test's path listed in two orders is the same graph |
| GraphUndirected.DropNeighbour | algorithms/graph_undirected.py:305-309 | the `finally` loop removes x from every neighbour set |
| GraphUndirected.UndirectedGraph.Remove | algorithms/graph_undirected.py:284-309 | the key deleted (silently if missing), x out of every neighbour set, weights untouched |
| GraphUndirected.RemoveMatches | algorithms/graph_undirected.py:284-309 | removing x gives the graph of the edges avoiding x, if no other vertex is left isolated |
| GraphUndirected.RemoveNeighbours | algorithms/graph_undirected.py:305-309 | after removing x, each other vertex keeps exactly its neighbours along edges avoiding x |
| GraphUndirected.RemoveEnd | algorithms/graph_undirected.py:289-293 | removing vertex 0 from the path 0-1-2-3 leaves the path 1-2-3 |
| GraphUndirected.Push | algorithms/graph_undirected.py:406-408 | unvisited neighbours pushed at the left end for BFS, at the right end for DFS |
| GraphUndirected.Traverse | algorithms/graph_undirected.py:391-408 | the start first, each vertex once, exactly the vertices reachable from the start |
| GraphUndirected.SearchDone | algorithms/graph_undirected.py:396 | when the deque is empty every reachable vertex has been visited |
| GraphUndirected.UndirectedGraph.Search | algorithms/graph_undirected.py:378-422 | BFS/DFS: the start first, each vertex once, exactly the reachable ones; a missing start is inserted as a key |
| GraphUndirected.LeastUnique | algorithms/graph_undirected.py:352 | the tuple order is antisymmetric, so the heap's least entry is unique |
| GraphUndirected.PopLeast | algorithms/graph_undirected.py:352 | `heappop`: the least entry, and the heap without it |
| GraphUndirected.KruskalSkip | algorithms/graph_undirected.py:517-518 | skipping an entry whose ends share a set keeps the loop invariant |
| GraphUndirected.KruskalTake | algorithms/graph_undirected.py:519-523 | taking an entry across two sets and merging them keeps the loop invariant |
| GraphUndirected.KruskalStuck | algorithms/graph_undirected.py:514 | a heap that runs dry before the vertex count minus one edges are taken means a disconnected graph |
| GraphUndirected.KruskalOutcome | algorithms/graph_undirected.py:511-523 | the loop takes the vertex count minus one edges joining every two vertices, or fails with IndexError only when the graph is empty or disconnected |
| GraphUndirected.KruskalStart | algorithms/graph_undirected.py:501-509 | the initial heap and singleton sets meet the loop invariant |
| GraphUndirected.QueueIsHeap | algorithms/graph_undirected.py:508 | the heap holds each weighted edge once, oriented as `edges` lists it |
| GraphUndirected.PairsCount | algorithms/graph_undirected.py:526-529 | distinct listed edges have as many pairs as entries |
| GraphUndirected.TreeOfTaken | algorithms/graph_undirected.py:525-529 | the vertex count minus one distinct edges joining every two vertices form a spanning tree |
| GraphUndirected.KruskalTree | algorithms/graph_undirected.py:466-529 | IndexError iff the graph is empty or disconnected, otherwise a spanning tree |
| GraphUndirected.Consider | algorithms/graph_undirected.py:517-519 | takes the entry iff its ends are in different sets, merging them |
| GraphUndirected.KruskalPop | algorithms/graph_undirected.py:514-523 | one pass of the loop moves the run one step without changing its outcome |
| GraphUndirected.KruskalRunStep | algorithms/graph_undirected.py:511-523 | the run unfolds at the least entry: skip within a set, else merge and take |
| GraphUndirected.KruskalLoop | algorithms/graph_undirected.py:511-523 | the loop returns exactly the specified run |
| GraphUndirected.KruskalTaken | algorithms/graph_undirected.py:506 | the run from one set per vertex |
| GraphUndirected.KruskalQueue | algorithms/graph_undirected.py:508-509 | the heap is the multiset of weighted edge entries |
| GraphUndirected.TreeGraph | algorithms/graph_undirected.py:526-529 | the returned graph is built from the taken edges and their weights |
| GraphUndirected.KruskalFrom | algorithms/graph_undirected.py:501-529 | the loop's outcome as a graph: IndexError iff disconnected, else a spanning tree |
| GraphUndirected.UndirectedGraph.Kruskal | algorithms/graph_undirected.py:466-529 | `kruskal()`: IndexError iff the graph is empty or disconnected; otherwise a spanning tree with the original weights |
| GraphUndirected.KruskalListed | algorithms/graph_undirected.py:511-523 | a heap whose entries are listed in order is popped in that order: the loop is a pass over the list |
| GraphUndirected.KruskalHalim | algorithms/graph_undirected.py:472-479 | the Halim example: the loop takes (1, 2), (0, 1), (0, 3) and (0, 4) with weights 2, 4, 6 and 6 |
| GraphUndirected.WithVertex | algorithms/graph_undirected.py:343-344 | reading a missing start adds it as a key with no neighbours |
| GraphUndirected.Pushes | algorithms/graph_undirected.py:363-369 | the entries pushed for v: one per weighted neighbour not yet taken |
| GraphUndirected.PushUntaken | algorithms/graph_undirected.py:363-369 | the inner loop adds exactly those entries to the heap |
| GraphUndirected.PrimSkip | algorithms/graph_undirected.py:355-356 | skipping an entry whose far end is taken keeps the loop invariant |
| GraphUndirected.PrimTake | algorithms/graph_undirected.py:359-369 | taking a new vertex and its edge, then pushing its edges, keeps the loop invariant |
| GraphUndirected.PrimStuck | algorithms/graph_undirected.py:352 | a heap that runs dry before every vertex is taken means an unreachable vertex |
| GraphUndirected.PrimRunStep | algorithms/graph_undirected.py:349-369 | the run unfolds at the least entry: skip a taken far end, else take it and push its edges |
| GraphUndirected.PrimOutcome | algorithms/graph_undirected.py:349-369 | the loop takes one edge per new vertex until all are taken, or fails only when a vertex is unreachable |
| GraphUndirected.PrimStart | algorithms/graph_undirected.py:338-346 | the start state meets the loop invariant |
| GraphUndirected.PrimTree | algorithms/graph_undirected.py:311-376 | IndexError iff the start is not a vertex or the graph is disconnected, otherwise a spanning tree |
| GraphUndirected.PrimQueue | algorithms/graph_undirected.py:343-346 | the initial heap: one entry per weighted neighbour of the start |
| GraphUndirected.PrimPop | algorithms/graph_undirected.py:352-369 | one pass of the loop moves the run one step without changing its outcome |
| GraphUndirected.PrimLoop | algorithms/graph_undirected.py:349-369 | the loop returns exactly the specified run |
| GraphUndirected.PrimFrom | algorithms/graph_undirected.py:338-376 | the loop's outcome as a graph: IndexError iff start missing or disconnected, else a spanning tree |
| GraphUndirected.PrimPopsFirst | algorithms/graph_undirected.py:349-369 | one pass of the loop on a heap listed least first: its first entry is skipped when its far end is taken, otherwise taken with the pushes from its far end added to the heap |
| GraphUndirected.PrimHalim | algorithms/graph_undirected.py:317-324 | the Halim example from vertex 0: the loop takes (0, 1), (1, 2), (0, 3) and (0, 4) with weights 4, 2, 6 and 6 |
| GraphUndirected.UndirectedGraph.MinimumSpanningTree | algorithms/graph_undirected.py:311-376 | Prim: the start inserted as a key, IndexError iff the start is not a vertex or the graph is disconnected, otherwise a spanning tree with the original weights |

## Left out

- Python's dynamic type checks are not modelled; Dafny's static types take their place. These are the `isinstance` TypeError in `longest_common_substring` and the non-integer ValueError in `prime_factors`.
- The generators (`prime_factors`, the two sandbox generators, `edges`, `neighbors`, `_search`, `BFS`, `DFS`) are modelled as whole lists. Their laziness is lost: `prime_factors` raises its ValueError only when first advanced.
- Floating point is replaced by exact integer arithmetic:
  - `n**0.5` bounds become `d*d <= n`;
  - `math.log2`, `math.ceil` and `math.floor` become integer logarithms;
  - the RQT maximum doctest with `-float('inf')` and the `float('inf')` minimum test are not modelled.
- `__repr__` output formatting, `pprint`, the `__main__` blocks and the timing code of the sandbox primes are left out. They are I/O only. The RQT leaf window that `__repr__` shows is modelled as `Leaves`.
- Complexity claims, including the amortised cost of union-find, are left out. They are about performance, not behaviour.
- `is_connected` is left out: it indexes `dict_keys`, which fails in Python 3.
- `vertices()` is left out: it never records what it yielded, so it repeats vertices. The vertex set is taken to be the keys of the neighbour map.
- The points of `closest_pair_line` and the values and weights of `knapsack_without_repetition` are integers. The source accepts any ordered numbers, but its doctests and tests use only integers.
- Graph vertices and weights are integers; the union-find is generic over its element type.
- The iteration order of Python sets and of `heapq`'s list is left open:
  - `Enumerate` yields each element once in an unspecified order;
  - `edges()` is stated to go key by key, but the edges at one key follow the set order;
  - the heap is a multiset that pops its least `(weight, (u, v))` entry;
  - the key order of the graphs returned by `kruskal` and `minimum_spanning_tree` is not stated.
- GraphUndirected.UndirectedGraph.Kruskal: proved only for graphs whose every edge carries a weight. Python also runs it on a graph with no weights at all, where the `None` weights tie and the vertex pairs decide; that case is not modelled. It states that the result is a spanning tree, not that it is of minimum weight: minimality rests on the cut property, an exchange argument over every spanning tree of the graph, which this model does not formalise. `KruskalHalim` fixes the outcome on the Halim graph instead.
- GraphUndirected.UndirectedGraph.MinimumSpanningTree: proved only for graphs whose every edge carries a weight. The graph with no weights at all is not modelled either. It states that the result is a spanning tree, not that it is of minimum weight, for the same reason as Kruskal. `PrimHalim` fixes the outcome on the Halim graph instead.
- GraphUndirected.UndirectedGraph.Search: states which vertices are visited, the start first and each once, but not the exact BFS or DFS visiting order. The deque discipline is modelled in `Push`.
- GraphUndirected.KruskalHalim: starts from the Halim graph's heap written out, and PrimHalim from its neighbour sets and weights written out. That the constructor builds these from the docstring's edge list is not derived, and the result is stated as the taken edges rather than as `==` on a built graph: evaluating the constructor's set-valued maps is too costly for the solver.
- The Wikipedia and four-vertex Kruskal doctests, the Wikipedia Prim doctest and the Prim tests in `test_graph_undirected.py` are not evaluated as examples, for the same cost.
- The geometry examples are stated on the sorted copy of each input, because the solver does not evaluate `Sort` on a concrete list.
- The `prime_sieve` and `prime_factors` doctest values are not evaluated as examples.
- The longer `longest_common_substring` tests are not evaluated as examples; evaluating them is too costly for the solver.
- Unionfind.UnionFind.UnionAll: states that ranks outside the merged classes are untouched, but not which ranks inside them the chain of unions raises. `Union` states the rank change of each single union.
- Sequences.Fib: defined on natural numbers only. Python recurses without end for a negative argument.
- Knapsack.KnapsackIsOptimal: proved for positive weights only. For weights of 0 the source is not optimal (see Findings).
- Knapsack.KnapsackPacksItsValue: proved for positive weights only. For weights of 0 the returned items can miss a counted item (see Findings).
- RangeQueryTree.RQT.QueryIsFold: the query is shown to be the fold only when the function is associative with a two-sided identity. Other functions, such as the floating-point maximum, are not covered.

## Findings

| source | as written | input that shows it | evidently intended | confidence | as-written member | corrected member |
|---|---|---|---|---|---|---|
| algorithms/knapsack.py:69-72 | the table loop runs over knapsack weights 1..capacity only, so row 0 stays 0 and a weight-0 item adds nothing to it | `knapsack_without_repetition(1, [3, 5], [0, 1])` gives `(5, [1])`, while items 0 and 1 fit and are worth 8 | the optimum over all selections, as the docstring states | medium, not executed | Knapsack.ZeroWeightMissesOptimum | Knapsack.IntendedTableIsOptimal |
| algorithms/knapsack.py:105-106 | the walk back records an item only when the weight drops, so a taken weight-0 item is counted in the value but left out of the items | `knapsack_without_repetition(1, [3], [0])` gives `(3, [])` | the items returned are worth the value returned | medium, not executed | Knapsack.ZeroWeightItemNotReported | Knapsack.IntendedPicksAchieve |
| algorithms/range_query_tree.py:99-100 | `rqt[index]` reads `seq[index + tree_size // 2]` without the range check `update` makes, so a negative index reads an internal node | on `RQT([6, 2, 4, 9])`, `rqt[-1]` gives 13 (internal node 3) | IndexError outside [0, n), as `update` raises | low, not executed | RangeQueryTree.GetWrapsToInternalNode | RangeQueryTree.RQT.GetChecked |
| algorithms/range_query_tree.py:99-100 | the same missing range check lets an index in [n, tree_size // 2) read a padding slot | on `RQT([6, 2, 4])`, `rqt[3]` gives the padding 0 | IndexError outside [0, n), as `update` raises | low, not executed | RangeQueryTree.GetReadsPadding | RangeQueryTree.RQT.GetChecked |

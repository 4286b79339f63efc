/**
 * The `RQT` class of range_query_tree.py: a segment tree kept in one flat
 * list in 1-indexed heap layout. The leaves sit at `tree_size / 2 ..`, node
 * k combines its children 2k and 2k + 1 with the user's function, and a
 * range query descends from node 1 using the leaf range each node covers.
 *
 * The combining function and its identity are parameters; the query equals
 * the fold of the function over the range whenever the two form a monoid.
 * The floating-point `log2`, `ceil` and `floor` of the source are replaced
 * by their exact integer counterparts.
 */
module RangeQueryTree {
  import opened Wrappers

  function Pow2(k: nat): (r: nat)
    ensures r >= 1
  {
    if k == 0 then 1 else 2 * Pow2(k - 1)
  }

  lemma {:induction false} Pow2Add(a: nat, b: nat)
    ensures Pow2(a + b) == Pow2(a) * Pow2(b)
  {
    if a > 0 {
      Pow2Add(a - 1, b);
      assert Pow2(a + b) == 2 * Pow2(a - 1 + b);
    }
  }

  lemma Pow2Monotone(a: nat, b: nat)
    requires a <= b
    ensures Pow2(a) <= Pow2(b)
  {
    Pow2Add(a, b - a);
  }

  /** `math.ceil(math.log2(n))`, computed on integers. */
  function CeilLog2(n: nat): (h: nat)
    requires n >= 1
    decreases n
  {
    if n == 1 then 0 else 1 + CeilLog2((n + 1) / 2)
  }

  /** `math.floor(math.log2(i))`, computed on integers. */
  function FloorLog2(i: nat): (l: nat)
    requires i >= 1
  {
    if i == 1 then 0 else 1 + FloorLog2(i / 2)
  }

  /** ceil(log2 n) is the least h with n <= 2^h. */
  lemma {:induction false} CeilLog2Bounds(n: nat)
    requires n >= 1
    ensures n <= Pow2(CeilLog2(n))
    ensures CeilLog2(n) == 0 || Pow2(CeilLog2(n) - 1) < n
    decreases n
  {
    if n > 1 {
      CeilLog2Bounds((n + 1) / 2);
    }
  }

  /**
   * `tree_size // 2`, the number of leaf slots: 2^ceil(log2 n), the power of
   * two with n <= half < 2n.
   */
  function LeafSlots(n: nat): (half: nat)
    requires n >= 1
    ensures half == Pow2(CeilLog2(n))
    ensures n <= half < 2 * n
  {
    CeilLog2Bounds(n);
    Pow2(CeilLog2(n))
  }

  /** floor(log2 i) is the level l of node i: 2^l <= i < 2^(l + 1). */
  lemma {:induction false} FloorLog2Bounds(i: nat)
    requires i >= 1
    ensures Pow2(FloorLog2(i)) <= i < Pow2(FloorLog2(i) + 1)
  {
    if i > 1 {
      FloorLog2Bounds(i / 2);
    }
  }

  /** The children 2i and 2i + 1 of node i sit one level below it. */
  lemma FloorLog2OfChildren(i: nat)
    requires i >= 1
    ensures FloorLog2(2 * i) == FloorLog2(i) + 1
    ensures FloorLog2(2 * i + 1) == FloorLog2(i) + 1
  {
    assert (2 * i) / 2 == i && (2 * i + 1) / 2 == i;
  }

  /** `_parent(i)`: the node whose children include i. */
  function Parent(i: nat): (p: nat)
    ensures i == 2 * p || i == 2 * p + 1
  {
    i / 2
  }

  /** `_internal_index(k)`: the position of leaf k in the flat list. */
  function InternalIndex(half: nat, k: int): (i: int)
    ensures 0 <= k < half ==> half <= i < 2 * half
    ensures i - half == k
  {
    k + half
  }

  function Min(a: int, b: int): int {
    if a <= b then a else b
  }

  function Max(a: int, b: int): int {
    if a <= b then b else a
  }

  /** The combining function is associative and `e` is its two-sided identity. */
  ghost predicate IsMonoid<T(!new)>(f: (T, T) -> T, e: T) {
    (forall a, b, c {:trigger f(f(a, b), c)} :: f(f(a, b), c) == f(a, f(b, c))) &&
    (forall a :: f(e, a) == a && f(a, e) == a)
  }

  /** The combining function over a whole sequence, from the left, starting at the identity. */
  function Fold<T(!new)>(f: (T, T) -> T, e: T, s: seq<T>): T {
    if s == [] then e else f(Fold(f, e, s[..|s| - 1]), s[|s| - 1])
  }

  /** Folding a concatenation combines the folds of the parts. */
  lemma {:induction false} FoldAppend<T(!new)>(f: (T, T) -> T, e: T, a: seq<T>, b: seq<T>)
    requires IsMonoid(f, e)
    ensures Fold(f, e, a + b) == f(Fold(f, e, a), Fold(f, e, b))
    decreases |b|
  {
    if b == [] {
      assert a + b == a;
    } else {
      var b' := b[..|b| - 1];
      assert (a + b)[..|a + b| - 1] == a + b';
      FoldAppend(f, e, a, b');
    }
  }

  lemma FoldSingle<T(!new)>(f: (T, T) -> T, e: T, x: T)
    requires IsMonoid(f, e)
    ensures Fold(f, e, [x]) == x
  {
    assert [x][..0] == [];
  }

  /** `_children(k)`: the values of nodes 2k and 2k + 1. */
  function Children<T>(s: seq<T>, k: nat): (T, T)
    requires 2 * k + 1 < |s|
  {
    (s[2 * k], s[2 * k + 1])
  }

  /** `self._function(*self._children(k))`: what node k should hold. */
  function Combine<T>(f: (T, T) -> T, s: seq<T>, k: nat): T
    requires 2 * k + 1 < |s|
  {
    f(Children(s, k).0, Children(s, k).1)
  }

  /** Every internal node k in [lo, half), except `broken`, combines its two children. */
  ghost predicate CombinesFrom<T>(f: (T, T) -> T, s: seq<T>, half: nat, lo: nat, broken: int)
    requires |s| == 2 * half
  {
    forall k {:trigger Combine(f, s, k)} :: lo <= k < half && k != broken ==> s[k] == Combine(f, s, k)
  }

  /** Every internal node 1 <= k < half combines its two children. */
  ghost predicate IsTree<T>(f: (T, T) -> T, s: seq<T>, half: nat) {
    |s| == 2 * half && CombinesFrom(f, s, half, 1, 0)
  }

  /** Combining node i, with every node above i already combined, extends the combined nodes to i. */
  lemma BuildStep<T>(f: (T, T) -> T, s: seq<T>, half: nat, i: nat)
    requires |s| == 2 * half && i < half && CombinesFrom(f, s, half, i + 1, 0)
    ensures CombinesFrom(f, s[i := Combine(f, s, i)], half, i, 0)
  {
    var t := s[i := Combine(f, s, i)];
    forall k | i <= k < half && k != 0
      ensures t[k] == Combine(f, t, k)
    {
      if k != i {
        assert Combine(f, t, k) == Combine(f, s, k);
      }
    }
  }

  /** Recombining the one node p that is out of date leaves only its parent out of date. */
  lemma RepairStep<T>(f: (T, T) -> T, s: seq<T>, half: nat, p: nat)
    requires |s| == 2 * half && 1 <= p < half && CombinesFrom(f, s, half, 1, p)
    ensures CombinesFrom(f, s[p := Combine(f, s, p)], half, 1, Parent(p))
  {
    var t := s[p := Combine(f, s, p)];
    forall k | 1 <= k < half && k != Parent(p)
      ensures t[k] == Combine(f, t, k)
    {
      if k != p {
        assert Combine(f, t, k) == Combine(f, s, k);
      }
    }
  }

  /** Writing one leaf leaves only its parent out of date. */
  lemma LeafStep<T>(f: (T, T) -> T, s: seq<T>, half: nat, i: nat, v: T)
    requires IsTree(f, s, half) && half <= i < 2 * half
    ensures CombinesFrom(f, s[i := v], half, 1, Parent(i))
  {
    var t := s[i := v];
    forall k | 1 <= k < half && k != Parent(i)
      ensures t[k] == Combine(f, t, k)
    {
      assert Combine(f, t, k) == Combine(f, s, k);
    }
  }

  /** What `_node_info` returns: the level, the covered leaf range [lo, hi], and the position in the level. */
  datatype NodeRange = NodeRange(level: nat, lo: int, hi: int, num: int)

  /** A product num * p with num below a stays below a * p by at least p. */
  lemma ProductBound(num: int, a: int, p: int)
    requires 0 <= num < a && p >= 1
    ensures 0 <= num * p && num * p + p <= a * p
  {
    assert (a - 1) * p == a * p - p;
    assert num * p <= (a - 1) * p;
  }

  /** Node `node` lies on level `level` of a tree of height h: 2^level <= node < 2^(level + 1). */
  ghost predicate OnLevel(h: nat, level: nat, node: int) {
    level <= h && Pow2(level) <= node < Pow2(level + 1)
  }

  /**
   * `_node_info` for a node at level `level` of a tree of height h: the node
   * `num` places from the left of its level covers the 2^(h - level) leaves
   * from num * 2^(h - level), all of them inside [0, 2^h).
   */
  function RangeAt(h: nat, level: nat, node: int): (r: NodeRange)
    requires OnLevel(h, level, node)
    ensures r.hi - r.lo + 1 == Pow2(h - level)
    ensures 0 <= r.lo <= r.hi < Pow2(h) && node < 2 * Pow2(h)
  {
    var rm := Pow2(h - level) - 1;
    var num := node - Pow2(level);
    Pow2Add(level, h - level);
    ProductBound(num, Pow2(level), rm + 1);
    Pow2Monotone(level + 1, h + 1);
    NodeRange(level, num * (rm + 1), rm + num * (rm + 1), num)
  }

  /**
   * `_node_info(node)` for a tree over n leaves, with h = ceil(log2 n) and
   * the level floor(log2 node): the range lies inside the leaf slots and
   * the node inside the list.
   */
  function NodeInfo(n: nat, node: nat): (r: NodeRange)
    requires n >= 1 && node >= 1 && FloorLog2(node) <= CeilLog2(n)
    ensures r.level == FloorLog2(node)
    ensures 0 <= r.lo <= r.hi < LeafSlots(n) && node < 2 * LeafSlots(n)
  {
    FloorLog2Bounds(node);
    RangeAt(CeilLog2(n), FloorLog2(node), node)
  }

  /** A node's two children, one level down, split its range in half, left half first. */
  lemma RangeAtChildren(h: nat, level: nat, node: int)
    requires level < h && OnLevel(h, level, node)
    ensures OnLevel(h, level + 1, 2 * node) && OnLevel(h, level + 1, 2 * node + 1)
    ensures RangeAt(h, level + 1, 2 * node).lo == RangeAt(h, level, node).lo
    ensures RangeAt(h, level + 1, 2 * node).hi + 1 == RangeAt(h, level + 1, 2 * node + 1).lo
    ensures RangeAt(h, level + 1, 2 * node + 1).hi == RangeAt(h, level, node).hi
  {
    var p := Pow2(h - level - 1);
    var num := node - Pow2(level);
    assert Pow2(h - level) == 2 * p;
    assert Pow2(level + 1) == 2 * Pow2(level);
    assert Pow2(level + 2) == 2 * Pow2(level + 1);
    assert (2 * num) * p == num * (2 * p);
    assert (2 * num + 1) * p == num * (2 * p) + p;
  }

  /**
   * A node on level `level` of the tree over n leaves has floor(log2(node))
   * == level, so `_node_info(node)` is the range of that level.
   */
  lemma NodeInfoOnLevel(n: nat, level: nat, node: nat)
    requires n >= 1 && OnLevel(CeilLog2(n), level, node)
    ensures FloorLog2(node) == level
    ensures NodeInfo(n, node) == RangeAt(CeilLog2(n), level, node)
  {
    FloorLog2Bounds(node);
    var l := FloorLog2(node);
    if l < level {
      Pow2Monotone(l + 1, level);
    } else if l > level {
      Pow2Monotone(level + 1, l);
    }
  }

  /** The fold of the leaves in [a, b], or the identity when the range is empty. */
  function FoldRange<T(!new)>(f: (T, T) -> T, e: T, s: seq<T>, half: nat, a: int, b: int): T
    requires 0 <= a && b < half && |s| == 2 * half
  {
    if a <= b then Fold(f, e, s[half + a .. half + b + 1]) else e
  }

  /** The fold of the leaves in [a, b] combines the folds of [a, m] and [m', b], where m' = m + 1. */
  lemma FoldRangeSplit<T(!new)>(f: (T, T) -> T, e: T, s: seq<T>, half: nat, a: int, m: int, m': int, b: int)
    requires IsMonoid(f, e) && 0 <= a <= m < m' <= b < half && m' == m + 1 && |s| == 2 * half
    ensures FoldRange(f, e, s, half, a, b) == f(FoldRange(f, e, s, half, a, m), FoldRange(f, e, s, half, m', b))
  {
    var x, y := s[half + a .. half + m'], s[half + m' .. half + b + 1];
    assert s[half + a .. half + b + 1] == x + y;
    FoldAppend(f, e, x, y);
  }

  /**
   * Where [i, j] meets [lo, hi] only partly, its fold combines the parts of
   * [i, j] inside [lo, m] and inside [m', hi], where m' = m + 1; an empty part adds the identity.
   */
  lemma QueryJoin<T(!new)>(f: (T, T) -> T, e: T, s: seq<T>, half: nat, lo: int, m: int, m': int, hi: int, i: int, j: int)
    requires IsMonoid(f, e) && |s| == 2 * half
    requires 0 <= lo <= m < m' <= hi < half && m' == m + 1 && i <= j && i <= hi && lo <= j
    ensures FoldRange(f, e, s, half, Max(lo, i), Min(hi, j)) ==
      f(FoldRange(f, e, s, half, Max(lo, i), Min(m, j)), FoldRange(f, e, s, half, Max(m', i), Min(hi, j)))
  {
    var a, b := Max(lo, i), Min(hi, j);
    var bl, ar := Min(m, j), Max(m', i);
    if a > bl {
      assert ar == a;
    } else if ar > b {
      assert bl == b;
    } else {
      assert ar == bl + 1;
      FoldRangeSplit(f, e, s, half, a, bl, ar, b);
    }
  }

  /** An inner node whose children hold the folds of [lo, m] and [m', hi], with m' = m + 1, holds the fold of [lo, hi]. */
  lemma JoinChildren<T(!new)>(f: (T, T) -> T, e: T, s: seq<T>, half: nat, node: nat, lo: int, m: int, m': int, hi: int)
    requires IsMonoid(f, e) && IsTree(f, s, half) && 1 <= node < half
    requires 0 <= lo <= m < m' <= hi < half && m' == m + 1
    requires FoldRange(f, e, s, half, lo, m) == s[2 * node]
    requires FoldRange(f, e, s, half, m', hi) == s[2 * node + 1]
    ensures FoldRange(f, e, s, half, lo, hi) == s[node]
  {
    assert s[node] == Combine(f, s, node);
    FoldRangeSplit(f, e, s, half, lo, m, m', hi);
  }

  /** A node on the last level of a tree of height h is the leaf it covers. */
  lemma LeafValue<T(!new)>(f: (T, T) -> T, e: T, h: nat, s: seq<T>, node: nat)
    requires IsMonoid(f, e) && |s| == 2 * Pow2(h) && OnLevel(h, h, node)
    ensures FoldRange(f, e, s, Pow2(h), RangeAt(h, h, node).lo, RangeAt(h, h, node).hi) == s[node]
  {
    var half, r := Pow2(h), RangeAt(h, h, node);
    assert s[half + r.lo .. half + r.hi + 1] == [s[node]];
    FoldSingle(f, e, s[node]);
  }

  /** Every node on level `level` of the tree s of height h holds the fold of the leaves in its range. */
  ghost predicate LevelHolds<T(!new)>(f: (T, T) -> T, e: T, h: nat, s: seq<T>, level: nat)
    requires |s| == 2 * Pow2(h)
  {
    forall node: nat {:trigger RangeAt(h, level, node)} :: OnLevel(h, level, node) ==>
      FoldRange(f, e, s, Pow2(h), RangeAt(h, level, node).lo, RangeAt(h, level, node).hi) == s[node]
  }

  /** An inner node whose children's level holds the folds of their ranges holds the fold of its own. */
  lemma InnerValue<T(!new)>(f: (T, T) -> T, e: T, h: nat, s: seq<T>, level: nat, node: nat)
    requires IsMonoid(f, e) && IsTree(f, s, Pow2(h))
    requires level < h && OnLevel(h, level, node) && LevelHolds(f, e, h, s, level + 1)
    ensures FoldRange(f, e, s, Pow2(h), RangeAt(h, level, node).lo, RangeAt(h, level, node).hi) == s[node]
  {
    Pow2Monotone(level + 1, h);
    RangeAtChildren(h, level, node);
    var r, left, right := RangeAt(h, level, node), RangeAt(h, level + 1, 2 * node), RangeAt(h, level + 1, 2 * node + 1);
    JoinChildren(f, e, s, Pow2(h), node, r.lo, left.hi, right.lo, r.hi);
  }

  /** In a tree of height h, every node on level `level` or below holds the fold of the leaves in its range. */
  lemma {:induction false} LevelValues<T(!new)>(f: (T, T) -> T, e: T, h: nat, s: seq<T>, level: nat)
    requires IsMonoid(f, e) && IsTree(f, s, Pow2(h)) && level <= h
    ensures LevelHolds(f, e, h, s, level)
    decreases h - level
  {
    if level == h {
      forall node: nat | OnLevel(h, level, node)
        ensures FoldRange(f, e, s, Pow2(h), RangeAt(h, level, node).lo, RangeAt(h, level, node).hi) == s[node]
      {
        LeafValue(f, e, h, s, node);
      }
    } else {
      LevelValues(f, e, h, s, level + 1);
      forall node: nat | OnLevel(h, level, node)
        ensures FoldRange(f, e, s, Pow2(h), RangeAt(h, level, node).lo, RangeAt(h, level, node).hi) == s[node]
      {
        InnerValue(f, e, h, s, level, node);
      }
    }
  }

  /** In a tree of height h, every node holds the fold of the leaves in its range. */
  lemma NodeValue<T(!new)>(f: (T, T) -> T, e: T, h: nat, s: seq<T>, level: nat, node: nat)
    requires IsMonoid(f, e) && IsTree(f, s, Pow2(h))
    requires OnLevel(h, level, node)
    ensures FoldRange(f, e, s, Pow2(h), RangeAt(h, level, node).lo, RangeAt(h, level, node).hi) == s[node]
  {
    LevelValues(f, e, h, s, level);
  }

  /**
   * `_query_node(node, i, j)` on the flat list s of a tree of height h: the
   * node's value when its range lies inside [i, j], the identity when the two
   * are disjoint, and otherwise the combination of the answers of its two
   * children. The node's level, which `_node_info` recomputes as
   * floor(log2(node)), is carried along; `NodeInfoOnLevel` shows the two agree.
   */
  function QueryNode<T(!new)>(f: (T, T) -> T, e: T, h: nat, s: seq<T>, level: nat, node: nat, i: int, j: int): T
    requires |s| == 2 * Pow2(h) && OnLevel(h, level, node)
    decreases h - level
  {
    var r := RangeAt(h, level, node);
    if i <= r.lo && j >= r.hi then s[node]
    else if (i > r.lo && i > r.hi) || (j < r.lo && j < r.hi) then e
    else
      assert Pow2(level + 2) == 2 * Pow2(level + 1);
      f(QueryNode(f, e, h, s, level + 1, 2 * node, i, j), QueryNode(f, e, h, s, level + 1, 2 * node + 1, i, j))
  }

  /** On level `level` of the tree s of height h, `_query_node(node, i, j)` folds the leaves where the node's range meets [i, j]. */
  ghost predicate LevelQueries<T(!new)>(f: (T, T) -> T, e: T, h: nat, s: seq<T>, level: nat, i: int, j: int)
    requires |s| == 2 * Pow2(h)
  {
    forall node: nat {:trigger QueryNode(f, e, h, s, level, node, i, j)} :: OnLevel(h, level, node) ==>
      QueryNode(f, e, h, s, level, node, i, j) ==
        FoldRange(f, e, s, Pow2(h), Max(RangeAt(h, level, node).lo, i), Min(RangeAt(h, level, node).hi, j))
  }

  /** One node's query, given the queries of the level below it. */
  lemma QueryStep<T(!new)>(f: (T, T) -> T, e: T, h: nat, s: seq<T>, level: nat, node: nat, i: int, j: int)
    requires IsMonoid(f, e) && IsTree(f, s, Pow2(h)) && i <= j && OnLevel(h, level, node)
    requires level < h ==> LevelQueries(f, e, h, s, level + 1, i, j)
    ensures QueryNode(f, e, h, s, level, node, i, j) ==
      FoldRange(f, e, s, Pow2(h), Max(RangeAt(h, level, node).lo, i), Min(RangeAt(h, level, node).hi, j))
  {
    var r := RangeAt(h, level, node);
    if i <= r.lo && j >= r.hi {
      NodeValue(f, e, h, s, level, node);
    } else if (i > r.lo && i > r.hi) || (j < r.lo && j < r.hi) {
    } else {
      RangeAtChildren(h, level, node);
      var left, right := RangeAt(h, level + 1, 2 * node), RangeAt(h, level + 1, 2 * node + 1);
      QueryJoin(f, e, s, Pow2(h), r.lo, left.hi, right.lo, r.hi, i, j);
    }
  }

  /** `_query_node(node, i, j)` folds the leaves where the node's range meets [i, j], on every level. */
  lemma {:induction false} LevelQueriesHold<T(!new)>(f: (T, T) -> T, e: T, h: nat, s: seq<T>, level: nat, i: int, j: int)
    requires IsMonoid(f, e) && IsTree(f, s, Pow2(h)) && i <= j && level <= h
    ensures LevelQueries(f, e, h, s, level, i, j)
    decreases h - level
  {
    if level < h {
      LevelQueriesHold(f, e, h, s, level + 1, i, j);
    }
    forall node: nat | OnLevel(h, level, node)
      ensures QueryNode(f, e, h, s, level, node, i, j) ==
        FoldRange(f, e, s, Pow2(h), Max(RangeAt(h, level, node).lo, i), Min(RangeAt(h, level, node).hi, j))
    {
      QueryStep(f, e, h, s, level, node, i, j);
    }
  }

  /** `_query_node(node, i, j)` folds the leaves where the node's range meets [i, j]. */
  lemma QueryNodeIsFold<T(!new)>(f: (T, T) -> T, e: T, h: nat, s: seq<T>, level: nat, node: nat, i: int, j: int)
    requires IsMonoid(f, e) && IsTree(f, s, Pow2(h)) && i <= j
    requires OnLevel(h, level, node)
    ensures QueryNode(f, e, h, s, level, node, i, j) ==
      FoldRange(f, e, s, Pow2(h), Max(RangeAt(h, level, node).lo, i), Min(RangeAt(h, level, node).hi, j))
  {
    LevelQueriesHold(f, e, h, s, level, i, j);
  }

  /** A query from the root node 1 (level 0) folds exactly the leaves i..j. */
  lemma QueryRootIsFold<T(!new)>(f: (T, T) -> T, e: T, h: nat, s: seq<T>, i: int, j: int)
    requires IsMonoid(f, e) && IsTree(f, s, Pow2(h))
    requires 0 <= i <= j < Pow2(h)
    ensures QueryNode(f, e, h, s, 0, 1, i, j) == FoldRange(f, e, s, Pow2(h), i, j)
  {
    QueryNodeIsFold(f, e, h, s, 0, 1, i, j);
  }

  /** Leaves i..j of the window of n leaves from `half` are the list entries from half + i to half + j. */
  lemma LeafWindow<T>(s: seq<T>, half: nat, n: nat, i: int, j: int)
    requires half + n <= |s| && 0 <= i <= j < n
    ensures s[half .. half + n][i .. j + 1] == s[half + i .. half + j + 1]
  {
    var w, v := s[half .. half + n][i .. j + 1], s[half + i .. half + j + 1];
    assert |w| == |v|;
    assert forall k :: 0 <= k < |w| ==> w[k] == v[k];
  }

  /** The query from the root of the tree over n leaves folds leaves i..j of the leaf window. */
  lemma QueryFromRoot<T(!new)>(f: (T, T) -> T, e: T, n: nat, half: nat, s: seq<T>, i: int, j: int)
    requires IsMonoid(f, e) && n >= 1 && half == LeafSlots(n) && IsTree(f, s, half) && 0 <= i <= j < n
    ensures QueryNode(f, e, CeilLog2(n), s, 0, 1, i, j) == Fold(f, e, s[half .. half + n][i .. j + 1])
  {
    QueryRootIsFold(f, e, CeilLog2(n), s, i, j);
    LeafWindow(s, half, n, i, j);
  }

  /**
   * The loop of `__init__`: from k = half - 1 down to 0, node k becomes the
   * combination of its children 2k and 2k + 1. The leaves are untouched;
   * node 0, whose children are nodes 0 and 1, is written last.
   */
  method BuildNodes<T>(a: array<T>, f: (T, T) -> T, half: nat)
    requires a.Length == 2 * half && half >= 1
    modifies a
    ensures a[half..] == old(a[half..])
    ensures IsTree(f, a[..], half)
    ensures a[0] == f(old(a[0]), a[1])
  {
    ghost var leaves := a[half..];
    ghost var zero := a[0];
    for i := half downto 0
      invariant a[half..] == leaves
      invariant CombinesFrom(f, a[..], half, i, 0)
      invariant i >= 1 ==> a[0] == zero
      invariant i == 0 ==> a[0] == f(zero, a[1])
    {
      BuildStep(f, a[..], half, i);
      var children := Children(a[..], i);
      a[i] := f(children.0, children.1);
    }
  }

  class RQT<T(!new)> {
    /** `self._function` and `self._identity`. */
    const f: (T, T) -> T
    const identity: T
    /** `self._original_length`. */
    const originalLength: nat
    /** `self.tree_size`. */
    const treeSize: nat
    /** `self.seq`. */
    const nodes: array<T>

    /**
     * The list has 2^(ceil(log2 n) + 1) entries, every internal node
     * combines its children, and the leaves past the input hold the identity.
     */
    ghost predicate Valid()
      reads nodes
    {
      originalLength >= 1 &&
      treeSize == 2 * LeafSlots(originalLength) &&
      nodes.Length == treeSize &&
      IsTree(f, nodes[..], treeSize / 2) &&
      forall k :: treeSize / 2 + originalLength <= k < treeSize ==> nodes[k] == identity
    }

    /**
     * `RQT(sequence, function, function_identity)` for a non-empty sequence:
     * the input on the leaves, the identity after it, and the internal
     * nodes built bottom-up. The loop also writes node 0, which no query
     * reads, as the combination of the identity and node 1.
     */
    constructor(sequence: seq<T>, func: (T, T) -> T, funcIdentity: T)
      requires |sequence| >= 1
      ensures Valid() && fresh(nodes)
      ensures f == func && identity == funcIdentity && originalLength == |sequence|
      ensures Leaves() == sequence
      ensures nodes[0] == func(funcIdentity, nodes[1])
    {
      var half := LeafSlots(|sequence|);
      f, identity, originalLength := func, funcIdentity, |sequence|;
      treeSize := 2 * half;
      nodes := new T[2 * half](k => if half <= k < half + |sequence| then sequence[k - half] else funcIdentity);
      new;
      ghost var leaves := nodes[half..];
      assert forall k :: 0 <= k < |sequence| ==> leaves[k] == sequence[k];
      assert leaves[..|sequence|] == sequence;
      BuildNodes(nodes, func, half);
      assert nodes[half..half + |sequence|] == leaves[..|sequence|];
    }

    /** The leaf window `tree_size // 2 ..` that `__repr__` shows: the current sequence. */
    function Leaves(): (r: seq<T>)
      reads nodes
      requires Valid()
      ensures |r| == originalLength
      ensures forall k :: 0 <= k < originalLength ==> r[k] == nodes[treeSize / 2 + k]
    {
      nodes[treeSize / 2 .. treeSize / 2 + originalLength]
    }

    /**
     * `update(index, value)`, also `rqt[index] = value`: IndexError outside
     * [0, n); otherwise write the leaf and recombine each ancestor up to
     * node 1. Node 0 is left as it was.
     */
    method Update(index: int, value: T) returns (r: Result<()>)
      requires Valid()
      modifies nodes
      ensures Valid()
      ensures r.Failure? <==> !(0 <= index < originalLength)
      ensures r.Failure? ==> r.error == IndexError && nodes[..] == old(nodes[..])
      ensures r.Success? ==> Leaves() == old(Leaves())[index := value]
      ensures r.Success? ==> nodes[treeSize / 2 ..] == old(nodes[treeSize / 2 ..])[index := value]
      ensures nodes[0] == old(nodes[0])
    {
      if !(0 <= index < originalLength) {
        return Failure(IndexError);
      }
      var half := treeSize / 2;
      var i := InternalIndex(half, index);
      LeafStep(f, nodes[..], half, i, value);
      nodes[i] := value;
      var p := Parent(i);
      while p != 0
        invariant 0 <= p < half
        invariant nodes[half..] == old(nodes[half..])[index := value]
        invariant nodes[0] == old(nodes[0])
        invariant CombinesFrom(f, nodes[..], half, 1, p)
        decreases p
      {
        RepairStep(f, nodes[..], half, p);
        var children := Children(nodes[..], p);
        nodes[p] := f(children.0, children.1);
        p := Parent(p);
      }
      assert nodes[half..half + originalLength] == old(nodes[half..half + originalLength])[index := value];
      return Success(());
    }

    /**
     * `rqt[index]`, as written: the list entry `index + tree_size // 2`,
     * with no range check. An index in [n, tree_size // 2) reads padding,
     * and Python's negative indexing lets a negative index read internal
     * nodes, or wrap once more round the whole list.
     */
    function Get(index: int): (r: Result<T>)
      reads nodes
      requires Valid()
      ensures 0 <= index < originalLength ==> r == Success(Leaves()[index])
      ensures originalLength <= index < treeSize / 2 ==> r == Success(identity)
      ensures -(treeSize / 2) <= index < 0 ==> r == Success(nodes[treeSize / 2 + index])
      ensures r.Failure? <==> !(-3 * (treeSize / 2) <= index < treeSize / 2)
      ensures r.Failure? ==> r.error == IndexError
    {
      var k := InternalIndex(treeSize / 2, index);
      if 0 <= k < nodes.Length then Success(nodes[k])
      else if -nodes.Length <= k < 0 then Success(nodes[k + nodes.Length])
      else Failure(IndexError)
    }

    /** `rqt[index]` with the range check of `update`: IndexError outside [0, n). */
    function GetChecked(index: int): (r: Result<T>)
      reads nodes
      requires Valid()
      ensures r.Failure? <==> !(0 <= index < originalLength)
      ensures r.Failure? ==> r.error == IndexError
      ensures r.Success? ==> r.value == Leaves()[index]
    {
      if 0 <= index < originalLength then Get(index) else Failure(IndexError)
    }

    /**
     * `query(i, j)`: IndexError unless 0 <= i <= j < n; otherwise the
     * answer of `_query_node` from the root node 1.
     */
    function Query(i: int, j: int): (r: Result<T>)
      reads nodes
      requires Valid()
      ensures r.Failure? <==> !(0 <= i <= j < originalLength)
      ensures r.Failure? ==> r.error == IndexError
    {
      if !(0 <= i < originalLength) then Failure(IndexError)
      else if !(0 <= j < originalLength) then Failure(IndexError)
      else if j < i then Failure(IndexError)
      else Success(QueryNode(f, identity, CeilLog2(originalLength), nodes[..], 0, 1, i, j))
    }

    /** For a monoid, `query(i, j)` is the fold of the function over the current leaves i..j. */
    lemma QueryIsFold(i: int, j: int)
      requires Valid() && IsMonoid(f, identity) && 0 <= i <= j < originalLength
      ensures Query(i, j) == Success(Fold(f, identity, Leaves()[i..j + 1]))
    {
      QueryFromRoot(f, identity, originalLength, treeSize / 2, nodes[..], i, j);
      assert Leaves() == nodes[..][treeSize / 2 .. treeSize / 2 + originalLength];
    }

    /** For a monoid, `query(i, i)` is the element at i, and both fail together outside [0, n). */
    lemma QueryOfOne(i: int)
      requires Valid() && IsMonoid(f, identity)
      ensures Query(i, i) == GetChecked(i)
    {
      if 0 <= i < originalLength {
        QueryIsFold(i, i);
        FoldSingle(f, identity, Leaves()[i]);
        assert Leaves()[i..i + 1] == [Leaves()[i]];
      }
    }
  }

  /**
   * `RQT(sequence, function, function_identity)` with the empty-sequence
   * case: `math.log2(0)` raises ValueError.
   */
  method Build<T(!new)>(sequence: seq<T>, func: (T, T) -> T, funcIdentity: T) returns (r: Result<RQT<T>>)
    ensures r.Failure? <==> |sequence| == 0
    ensures r.Failure? ==> r.error == ValueError
    ensures r.Success? ==> r.value.Valid() && fresh(r.value.nodes) && r.value.Leaves() == sequence
    ensures r.Success? ==> r.value.f == func && r.value.identity == funcIdentity
  {
    if |sequence| == 0 {
      return Failure(ValueError);
    }
    var t := new RQT(sequence, func, funcIdentity);
    return Success(t);
  }

  function Add(a: int, b: int): int {
    a + b
  }

  function Mul(a: int, b: int): int {
    a * b
  }

  /** Integer addition with 0, the default of the constructor, is a monoid. */
  lemma AddIsMonoid()
    ensures IsMonoid(Add, 0)
  {
  }

  /** Integer multiplication with 1 is a monoid. */
  lemma MulIsMonoid()
    ensures IsMonoid(Mul, 1)
  {
    forall a: int, b: int, c: int
      ensures Mul(Mul(a, b), c) == Mul(a, Mul(b, c))
    {
      assert (a * b) * c == a * (b * c);
    }
  }

  /** The sums the doctests expect, over the leaves [6, 2, 4, 9]. */
  lemma SumsOf(v: seq<int>)
    requires v == [6, 2, 4, 9]
    ensures Fold(Add, 0, v[0..2]) == 8 && Fold(Add, 0, v[2..4]) == 13 && Fold(Add, 0, v[1..3]) == 6
  {
    assert v[0..2] == [6, 2] && v[2..4] == [4, 9] && v[1..3] == [2, 4];
    assert Fold(Add, 0, [6, 2]) == 8 && Fold(Add, 0, [4, 9]) == 13 && Fold(Add, 0, [2, 4]) == 6;
  }

  /** The doctests of `__init__` and `query`: sums over RQT([6, 2, 4, 9]). */
  lemma SumDoctests(t: RQT<int>)
    requires t.Valid() && t.f == Add && t.identity == 0 && t.Leaves() == [6, 2, 4, 9]
    ensures t.Query(0, 1) == Success(8)
    ensures t.Query(2, 3) == Success(13)
    ensures t.Query(1, 2) == Success(6)
  {
    AddIsMonoid();
    t.QueryIsFold(0, 1);
    t.QueryIsFold(2, 3);
    t.QueryIsFold(1, 2);
    SumsOf(t.Leaves());
  }

  /**
   * `rqt[-1]` on RQT([6, 2, 4, 9]) reads internal node 3, the sum 4 + 9 of
   * the last two leaves, where a range check would raise IndexError.
   */
  lemma GetWrapsToInternalNode(t: RQT<int>)
    requires t.Valid() && t.f == Add && t.identity == 0 && t.Leaves() == [6, 2, 4, 9]
    ensures t.Get(-1) == Success(13)
    ensures t.GetChecked(-1) == Failure(IndexError)
  {
    assert CeilLog2(4) == 2;
    assert t.treeSize == 8;
    assert t.nodes[..][3] == Combine(t.f, t.nodes[..], 3);
    assert t.nodes[6] == t.Leaves()[2] && t.nodes[7] == t.Leaves()[3];
  }

  /**
   * `rqt[3]` on the sum tree RQT([6, 2, 4]) reads the padding slot after the
   * three leaves and gives the identity 0, where a range check would raise
   * IndexError.
   */
  lemma GetReadsPadding(t: RQT<int>)
    requires t.Valid() && t.f == Add && t.identity == 0 && t.Leaves() == [6, 2, 4]
    ensures t.Get(3) == Success(0)
    ensures t.GetChecked(3) == Failure(IndexError)
  {
    assert CeilLog2(3) == 2;
  }

  /** The sum and the product of leaves 1..3 when they are a, 3 and 4. */
  lemma MiddleFolds(v: seq<int>, a: int)
    requires |v| == 5 && v[1] == a && v[2] == 3 && v[3] == 4
    ensures Fold(Add, 0, v[1..4]) == a + 7 && Fold(Mul, 1, v[1..4]) == a * 12
  {
    var m := v[1..4];
    assert m == [a, 3, 4] && m[..2] == [a, 3] && [a, 3][..1] == [a] && [a][..0] == [];
    assert Fold(Add, 0, [a]) == a && Fold(Mul, 1, [a]) == a;
    assert Fold(Add, 0, [a, 3]) == a + 3 && Fold(Mul, 1, [a, 3]) == a * 3;
  }

  /** On five leaves whose entries 1..3 are a, 3 and 4, summing leaves 1..3 gives a + 7. */
  lemma MiddleSum(t: RQT<int>, a: int)
    requires t.Valid() && t.f == Add && t.identity == 0 && |t.Leaves()| == 5 && t.Leaves()[1] == a && t.Leaves()[2] == 3 && t.Leaves()[3] == 4
    ensures t.Query(1, 3) == Success(a + 7)
  {
    AddIsMonoid();
    t.QueryIsFold(1, 3);
    MiddleFolds(t.Leaves(), a);
  }

  /** On five leaves whose entries 1..3 are a, 3 and 4, multiplying leaves 1..3 gives a * 12. */
  lemma MiddleProduct(t: RQT<int>, a: int)
    requires t.Valid() && t.f == Mul && t.identity == 1 && |t.Leaves()| == 5 && t.Leaves()[1] == a && t.Leaves()[2] == 3 && t.Leaves()[3] == 4
    ensures t.Query(1, 3) == Success(a * 12)
  {
    MulIsMonoid();
    t.QueryIsFold(1, 3);
    MiddleFolds(t.Leaves(), a);
  }

  /**
   * The range-sum test: on [1, 2, 3, 4, 5], query(1, 3) is 2 + 3 + 4, and
   * after `rqt[1] = 3` it is 3 + 3 + 4.
   */
  method RangeSumsTest() returns (before: Result<int>, after: Result<int>)
    ensures before == Success(9) && after == Success(10)
  {
    var t := new RQT([1, 2, 3, 4, 5], Add, 0);
    MiddleSum(t, 2);
    before := t.Query(1, 3);
    var u := t.Update(1, 3);
    MiddleSum(t, 3);
    after := t.Query(1, 3);
  }

  /**
   * The range-product test: on [1, 2, 3, 4, 5] with multiplication,
   * query(1, 3) is 2 * 3 * 4, and after `rqt[1] = 3` it is 3 * 3 * 4.
   */
  method RangeProductsTest() returns (before: Result<int>, after: Result<int>)
    ensures before == Success(24) && after == Success(36)
  {
    var t := new RQT([1, 2, 3, 4, 5], Mul, 1);
    MiddleProduct(t, 2);
    before := t.Query(1, 3);
    var u := t.Update(1, 3);
    MiddleProduct(t, 3);
    after := t.Query(1, 3);
  }
}

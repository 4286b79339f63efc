/**
 * The `UndirectedGraph` class of graph_undirected.py, on integer vertices
 * and integer weights.
 *
 * `_edges` is a defaultdict from a vertex to the set of its neighbours; a
 * Python dict remembers the order its keys were inserted in, and `edges()`
 * walks the keys in that order, so the model keeps the key order `order`
 * beside the map `adj`. `_weights` is a defaultdict keyed by the unordered
 * pair `frozenset((a, b))`, here a `set<int>`, whose missing entries read
 * as None. Reading a missing key of either defaultdict inserts it.
 */
module GraphUndirected {
  import opened Wrappers
  import Builtins
  import Unionfind

  /** `frozenset((a, b))`: the unordered pair, a singleton when a == b. */
  function Pair(a: int, b: int): set<int> {
    {a, b}
  }

  /** `self._edges[v]` without the insertion: the neighbours of v, none when v is not a key. */
  function Succ(adj: map<int, set<int>>, v: int): set<int> {
    if v in adj then adj[v] else {}
  }

  /** Two dicts are equal when they have the same keys and the same value at each key. */
  lemma SameMapsPointwise(a: map<int, set<int>>, b: map<int, set<int>>, w1: map<set<int>, Option<int>>, w2: map<set<int>, Option<int>>)
    ensures a == b <==> (forall v :: v in a <==> v in b) && forall v :: Succ(a, v) == Succ(b, v)
    ensures w1 == w2 <==> (forall e :: e in w1 <==> e in w2) && forall e :: Lookup(w1, e) == Lookup(w2, e)
  {
    if (forall v :: v in a <==> v in b) && forall v :: Succ(a, v) == Succ(b, v) {
      assert a.Keys == b.Keys;
      forall v | v in a
        ensures a[v] == b[v]
      {
        assert Succ(a, v) == Succ(b, v);
      }
      assert a == b;
    }
    if (forall e :: e in w1 <==> e in w2) && forall e :: Lookup(w1, e) == Lookup(w2, e) {
      assert w1.Keys == w2.Keys;
      forall e | e in w1
        ensures w1[e] == w2[e]
      {
        assert Lookup(w1, e) == Lookup(w2, e);
      }
      assert w1 == w2;
    }
  }

  /** `self._edges[a].add(b)`. */
  function Link(adj: map<int, set<int>>, a: int, b: int): map<int, set<int>> {
    adj[a := Succ(adj, a) + {b}]
  }

  /** The key order after reading `self._edges[x]`: a new key goes last. */
  function Append(order: seq<int>, x: int): seq<int> {
    if x in order then order else order + [x]
  }

  predicate Distinct<X(==)>(s: seq<X>) {
    forall i, j :: 0 <= i < j < |s| ==> s[i] != s[j]
  }

  /** The neighbour map the constructor builds from an edge list: self-loops are skipped. */
  function Adjacency(edges: seq<(int, int)>): map<int, set<int>> {
    if edges == [] then map[]
    else
      var adj, a, b := Adjacency(edges[..|edges| - 1]), edges[|edges| - 1].0, edges[|edges| - 1].1;
      if a == b then adj else Link(Link(adj, a, b), b, a)
  }

  /** The key order the constructor leaves: each vertex where it first occurs in a kept edge. */
  function KeyOrder(edges: seq<(int, int)>): seq<int> {
    if edges == [] then []
    else
      var order, a, b := KeyOrder(edges[..|edges| - 1]), edges[|edges| - 1].0, edges[|edges| - 1].1;
      if a == b then order else Append(Append(order, a), b)
  }

  /** The unordered pairs of the edges that are not self-loops. */
  function EdgeSet(edges: seq<(int, int)>): set<set<int>> {
    set k | 0 <= k < |edges| && edges[k].0 != edges[k].1 :: Pair(edges[k].0, edges[k].1)
  }

  /** The weight map the constructor builds: one entry per kept edge, a later edge overwriting an earlier one. */
  function WeightMap(edges: seq<(int, int)>, ws: seq<Option<int>>): map<set<int>, Option<int>>
    requires |ws| == |edges|
  {
    if edges == [] then map[]
    else
      var w, a, b := WeightMap(edges[..|edges| - 1], ws[..|ws| - 1]), edges[|edges| - 1].0, edges[|edges| - 1].1;
      if a == b then w else w[Pair(a, b) := ws[|ws| - 1]]
  }

  /** The unordered pairs of a prefix and of one more edge. */
  lemma EdgeSetSnoc(edges: seq<(int, int)>)
    requires edges != []
    ensures var n, a, b := |edges| - 1, edges[|edges| - 1].0, edges[|edges| - 1].1;
      EdgeSet(edges) == EdgeSet(edges[..n]) + (if a == b then {} else {Pair(a, b)})
  {
    var n := |edges| - 1;
    var p := edges[..n];
    forall k | 0 <= k < n
      ensures p[k] == edges[k]
    {
    }
  }

  /** Edge b of u in the built graph iff u and b differ and some kept edge joins them, either way round. */
  lemma {:induction false} AdjacencyHas(edges: seq<(int, int)>, u: int, v: int)
    ensures v in Succ(Adjacency(edges), u) <==> u != v && Pair(u, v) in EdgeSet(edges)
  {
    if edges != [] {
      EdgeSetSnoc(edges);
      AdjacencyHas(edges[..|edges| - 1], u, v);
      var a, b := edges[|edges| - 1].0, edges[|edges| - 1].1;
      if a != b && Pair(u, v) == Pair(a, b) {
        assert (u == a && v == b) || (u == b && v == a);
      }
    }
  }

  /** Every key of the built graph has a neighbour: the constructor makes no isolated vertex. */
  lemma {:induction false} AdjacencyKeys(edges: seq<(int, int)>, u: int)
    ensures u in Adjacency(edges) <==> Succ(Adjacency(edges), u) != {}
  {
    if edges != [] {
      AdjacencyKeys(edges[..|edges| - 1], u);
    }
  }

  /** The key order lists each key of the built graph exactly once. */
  lemma {:induction false} KeyOrderMatches(edges: seq<(int, int)>)
    ensures Distinct(KeyOrder(edges))
    ensures forall v :: v in KeyOrder(edges) <==> v in Adjacency(edges)
  {
    if edges != [] {
      KeyOrderMatches(edges[..|edges| - 1]);
    }
  }
  /** No self-loops, every neighbour is a key, and adjacency is symmetric. */
  ghost predicate IsAdjacency(adj: map<int, set<int>>) {
    forall u, v :: u in adj && v in adj[u] ==> u != v && v in adj && u in adj[v]
  }

  /** The built graph has no self-loops and b is a neighbour of a iff a is a neighbour of b. */
  lemma AdjacencyIsSymmetric(edges: seq<(int, int)>)
    ensures IsAdjacency(Adjacency(edges))
  {
    var adj := Adjacency(edges);
    forall u, v | u in adj && v in adj[u]
      ensures u != v && v in adj && u in adj[v]
    {
      AdjacencyHas(edges, u, v);
      AdjacencyHas(edges, v, u);
      assert Pair(u, v) == Pair(v, u);
      AdjacencyKeys(edges, v);
    }
  }

  /** Two edge lists with the same unordered non-loop edges give each vertex the same neighbours. */
  lemma SameEdgesSameNeighbours(e1: seq<(int, int)>, e2: seq<(int, int)>, u: int)
    requires EdgeSet(e1) == EdgeSet(e2)
    ensures Succ(Adjacency(e1), u) == Succ(Adjacency(e2), u)
  {
    forall v
      ensures v in Succ(Adjacency(e1), u) <==> v in Succ(Adjacency(e2), u)
    {
      AdjacencyHas(e1, u, v);
      AdjacencyHas(e2, u, v);
    }
  }

  /**
   * Two edge lists with the same unordered non-loop edges build the same
   * neighbour map, whatever their order, orientation or repetitions.
   */
  lemma SameEdgesSameAdjacency(e1: seq<(int, int)>, e2: seq<(int, int)>)
    requires EdgeSet(e1) == EdgeSet(e2)
    ensures Adjacency(e1) == Adjacency(e2)
  {
    var a1, a2 := Adjacency(e1), Adjacency(e2);
    forall u
      ensures u in a1 <==> u in a2
    {
      SameEdgesSameNeighbours(e1, e2, u);
      AdjacencyKeys(e1, u);
      AdjacencyKeys(e2, u);
    }
    forall u | u in a1
      ensures a1[u] == a2[u]
    {
      SameEdgesSameNeighbours(e1, e2, u);
    }
  }

  /** The weight map has one key per unordered non-loop edge. */
  lemma {:induction false} WeightMapKeys(edges: seq<(int, int)>, ws: seq<Option<int>>)
    requires |ws| == |edges|
    ensures WeightMap(edges, ws).Keys == EdgeSet(edges)
  {
    if edges != [] {
      EdgeSetSnoc(edges);
      WeightMapKeys(edges[..|edges| - 1], ws[..|ws| - 1]);
    }
  }

  /** A kept edge that no later kept edge repeats, either way round, keeps its own weight. */
  lemma {:induction false} LastWeightWins(edges: seq<(int, int)>, ws: seq<Option<int>>, k: nat)
    requires |ws| == |edges| && k < |edges| && edges[k].0 != edges[k].1
    requires forall l :: k < l < |edges| && edges[l].0 != edges[l].1 ==>
      Pair(edges[l].0, edges[l].1) != Pair(edges[k].0, edges[k].1)
    ensures Pair(edges[k].0, edges[k].1) in WeightMap(edges, ws)
    ensures WeightMap(edges, ws)[Pair(edges[k].0, edges[k].1)] == ws[k]
  {
    var n := |edges| - 1;
    if k < n {
      LastWeightWins(edges[..n], ws[..n], k);
    }
  }
  /** A defaultdict read of `_weights`: the stored weight, None when the pair is missing. */
  function Lookup(weights: map<set<int>, Option<int>>, e: set<int>): Option<int> {
    if e in weights then weights[e] else None
  }

  /** `_weights` after reading each pair of `keys`: missing pairs are inserted with None. */
  function WithDefaults(weights: map<set<int>, Option<int>>, keys: set<set<int>>): map<set<int>, Option<int>> {
    map e | e in weights.Keys + keys :: Lookup(weights, e)
  }

  /** `del self._edges[x]` followed by removing x from every remaining neighbour set. */
  function RemoveVertex(adj: map<int, set<int>>, x: int): map<int, set<int>> {
    map v | v in adj && v != x :: adj[v] - {x}
  }

  /** The key order once key x is deleted. */
  function Without(order: seq<int>, x: int): (r: seq<int>)
    ensures forall v :: v in r <==> v in order && v != x
    ensures Distinct(order) ==> Distinct(r)
  {
    if order == [] then []
    else if order[0] == x then Without(order[1..], x)
    else
      var rest := Without(order[1..], x);
      assert Distinct(order) ==> Distinct(order[1..]) && order[0] !in rest by {
        if Distinct(order) {
          forall i, j | 0 <= i < j < |order[1..]|
            ensures order[1..][i] != order[1..][j]
          {
            assert order[1..][i] == order[i + 1] && order[1..][j] == order[j + 1];
          }
        }
      }
      [order[0]] + rest
  }

  /** Removing a vertex keeps the graph loop-free and symmetric. */
  lemma RemoveKeepsAdjacency(adj: map<int, set<int>>, x: int)
    requires IsAdjacency(adj)
    ensures IsAdjacency(RemoveVertex(adj, x))
  {
  }

  /** A non-empty set has an element. */
  lemma Inhabited(s: set<int>)
    ensures s != {} ==> exists x :: x in s
  {
    if forall x :: x !in s {
      assert s == {};
    }
  }

  /**
   * The elements of a set in some order, each once: the iteration order of
   * a Python set, which the model leaves open.
   */
  method Enumerate(s: set<int>) returns (r: seq<int>)
    ensures Distinct(r)
    ensures forall v :: v in r <==> v in s
  {
    r := [];
    var rest := s;
    while rest != {}
      invariant rest <= s && Distinct(r)
      invariant forall v :: v in r <==> v in s - rest
      decreases |rest|
    {
      Inhabited(rest);
      var v :| v in rest;
      assert v !in r;
      r, rest := r + [v], rest - {v};
    }
  }

  class UndirectedGraph {
    /** `self._edges`: the neighbours of each vertex. */
    var adj: map<int, set<int>>
    /** The keys of `self._edges` in insertion order, the order `items()` walks them in. */
    var order: seq<int>
    /** `self._weights`, keyed by the unordered pair. */
    var weights: map<set<int>, Option<int>>

    /** The key order lists the keys once each, and the neighbour map is loop-free and symmetric. */
    ghost predicate Valid()
      reads this
    {
      Distinct(order) && (forall v :: v in order <==> v in adj) && IsAdjacency(adj)
    }

    /**
     * `UndirectedGraph(edges, weights)` when the weights are absent (None or
     * empty, both falsy) or as many as the edges: each edge other than a
     * self-loop links its two ends, and with weights it also sets the
     * weight of its unordered pair.
     */
    constructor(edgeList: seq<(int, int)>, weightList: seq<Option<int>>)
      requires |weightList| == 0 || |weightList| == |edgeList|
      ensures Valid()
      ensures adj == Adjacency(edgeList) && order == KeyOrder(edgeList)
      ensures weights == if |weightList| == 0 then map[] else WeightMap(edgeList, weightList)
    {
      var e: map<int, set<int>>, o: seq<int>, w: map<set<int>, Option<int>> := map[], [], map[];
      for i := 0 to |edgeList|
        invariant e == Adjacency(edgeList[..i]) && o == KeyOrder(edgeList[..i])
        invariant |weightList| > 0 ==> w == WeightMap(edgeList[..i], weightList[..i])
        invariant |weightList| == 0 ==> w == map[]
      {
        var a, b := edgeList[i].0, edgeList[i].1;
        assert edgeList[..i + 1][..i] == edgeList[..i];
        if |weightList| > 0 {
          assert weightList[..i + 1][..i] == weightList[..i];
        }
        if a == b {
          continue;
        }
        e, o := Link(e, a, b), Append(o, a);
        e, o := Link(e, b, a), Append(o, b);
        if |weightList| > 0 {
          w := w[Pair(a, b) := weightList[i]];
        }
      }
      assert edgeList[..|edgeList|] == edgeList;
      assert weightList[..|weightList|] == weightList;
      adj, order, weights := e, o, w;
      KeyOrderMatches(edgeList);
      AdjacencyIsSymmetric(edgeList);
    }

    /** `weight(edge)`: the weight of the unordered pair, inserting None when it is missing. */
    method Weight(a: int, b: int) returns (w: Option<int>)
      requires Valid()
      modifies this
      ensures Valid()
      ensures w == Lookup(old(weights), Pair(a, b))
      ensures weights == old(weights)[Pair(a, b) := w]
      ensures adj == old(adj) && order == old(order)
    {
      var key := Pair(a, b);
      if key !in weights {
        weights := weights[key := None];
      }
      w := weights[key];
    }

    /**
     * `neighbors(vertex)`: the neighbours of the vertex, each once, in the
     * set's order. Reading `self._edges[vertex]` inserts a missing vertex
     * as a key with no neighbours.
     */
    method Neighbors(vertex: int) returns (r: seq<int>)
      requires Valid()
      modifies this
      ensures Valid()
      ensures adj == if vertex in old(adj) then old(adj) else old(adj)[vertex := {}]
      ensures order == Append(old(order), vertex) && weights == old(weights)
      ensures Distinct(r) && forall v :: v in r <==> v in Succ(old(adj), vertex)
    {
      if vertex !in adj {
        adj, order := adj[vertex := {}], order + [vertex];
      }
      r := Enumerate(adj[vertex]);
    }

    /**
     * `neighbors(vertex, and_weights=True)`: each neighbour with the weight
     * of its edge; reading `self._weights` inserts None for a missing pair.
     */
    method NeighborsAndWeights(vertex: int) returns (r: seq<(int, Option<int>)>)
      requires Valid()
      modifies this
      ensures Valid()
      ensures adj == if vertex in old(adj) then old(adj) else old(adj)[vertex := {}]
      ensures order == Append(old(order), vertex)
      ensures weights == WithDefaults(old(weights), Incident(old(adj), vertex))
      ensures Distinct(Firsts(r)) && forall v :: v in Firsts(r) <==> v in Succ(old(adj), vertex)
      ensures forall k :: 0 <= k < |r| ==> r[k].1 == Lookup(old(weights), Pair(vertex, r[k].0))
    {
      var vs := Neighbors(vertex);
      var es := seq(|vs|, k requires 0 <= k < |vs| => (vertex, vs[k]));
      var ws, w := LookupAll(weights, es);
      weights := w;
      r := seq(|vs|, k requires 0 <= k < |vs| => (vs[k], ws[k]));
      assert Firsts(r) == vs;
      IncidentPairs(old(adj), vertex, vs);
    }

    /**
     * `edges()`: walking the keys in order and each key's neighbours in
     * set order, every unordered edge is listed once, from the key that
     * comes first in the key order; the set `yielded` holds the pairs
     * already listed.
     */
    method Edges() returns (r: seq<(int, int)>)
      requires Valid()
      ensures Forward(adj, order, r) && DistinctPairs(r) && KeyByKey(order, r)
      ensures PairsOf(r) == EdgePairs(adj)
    {
      var a, o := adj, order;
      var yielded: set<set<int>> := {};
      r := [];
      for i := 0 to |o|
        invariant yielded == PairsOf(r) == PairsFrom(a, o[..i])
        invariant Forward(a, o, r) && DistinctPairs(r)
        invariant KeyByKey(o, r) && forall k :: 0 <= k < |r| ==> r[k].0 in o[..i]
      {
        var nbs := Enumerate(Succ(a, o[i]));
        r, yielded := YieldFrom(a, o, i, nbs, r, yielded);
      }
      assert o[..|o|] == o;
      PairsFromAll(a, o);
    }

    /**
     * `edges(and_weights=True)`: the edges of `edges()`, each with the
     * weight of its pair; reading `self._weights` inserts None for every
     * edge that has no weight.
     */
    method EdgesAndWeights() returns (r: seq<((int, int), Option<int>)>)
      requires Valid()
      modifies this
      ensures Valid() && adj == old(adj) && order == old(order)
      ensures weights == WithDefaults(old(weights), EdgePairs(adj))
      ensures Forward(adj, order, Firsts(r)) && DistinctPairs(Firsts(r)) && PairsOf(Firsts(r)) == EdgePairs(adj)
      ensures KeyByKey(order, Firsts(r))
      ensures forall k :: 0 <= k < |r| ==> r[k].1 == Lookup(old(weights), Pair(r[k].0.0, r[k].0.1))
    {
      var es := Edges();
      var ws, w := LookupAll(weights, es);
      weights := w;
      r := seq(|es|, k requires 0 <= k < |es| => (es[k], ws[k]));
      assert Firsts(r) == es;
    }

    /**
     * `g == other`: the same neighbour map, isolated keys included, and
     * the same weight map. The key order plays no part.
     */
    predicate Equals(other: UndirectedGraph): (same: bool)
      reads this, other
      ensures same <==>
        (forall v :: v in adj <==> v in other.adj) && (forall v :: Succ(adj, v) == Succ(other.adj, v)) &&
        (forall e :: e in weights <==> e in other.weights) && (forall e :: Lookup(weights, e) == Lookup(other.weights, e))
    {
      SameMapsPointwise(adj, other.adj, weights, other.weights);
      adj == other.adj && weights == other.weights
    }

    /**
     * `copy()`: a new graph built from `edges(and_weights=True)`. It keeps
     * the vertices that have a neighbour and the weights of the edges,
     * None for an edge without one; reading the weights inserts those
     * None entries into this graph as well. The copy's key order is the
     * order in which its vertices first occur in that listing.
     */
    method Copy() returns (g: UndirectedGraph)
      requires Valid()
      modifies this
      ensures Valid() && adj == old(adj) && order == old(order)
      ensures weights == WithDefaults(old(weights), EdgePairs(adj))
      ensures fresh(g) && g.Valid()
      ensures g.adj == map v | v in adj && adj[v] != {} :: adj[v]
      ensures g.weights == Restrict(old(weights), EdgePairs(adj))
      ensures Equals(g) <==> (forall v :: v in adj ==> adj[v] != {}) && old(weights).Keys <= EdgePairs(adj)
      ensures exists es ::
                g.order == KeyOrder(es) && Forward(adj, order, es) && DistinctPairs(es) &&
                KeyByKey(order, es) && PairsOf(es) == EdgePairs(adj)
    {
      var r := EdgesAndWeights();
      var es := Firsts(r);
      var ws := seq(|r|, k requires 0 <= k < |r| => r[k].1);
      g := new UndirectedGraph(es, ws);
      AdjacencyOfList(es, adj, order);
      ForwardIsLoopFree(es, adj, order);
      WeightMapOfLookups(es, ws, old(weights));
      PrunedIsSame(adj);
      DefaultsAreRestrict(old(weights), EdgePairs(adj));
    }

    /**
     * `_search(start_vertex, kind)`, `BFS` and `DFS`: every vertex
     * reachable from the start, the start first and each vertex once. The
     * first `neighbors` call inserts a missing start vertex as a key with
     * no neighbours.
     */
    method Search(start: int, kind: SearchKind) returns (r: seq<int>)
      requires Valid()
      modifies this
      ensures Valid()
      ensures adj == if start in old(adj) then old(adj) else old(adj)[start := {}]
      ensures order == Append(old(order), start) && weights == old(weights)
      ensures |r| > 0 && r[0] == start && Distinct(r)
      ensures forall v :: v in r <==> Reaches(old(adj), start, v)
    {
      r := Traverse(adj, start, kind);
      if start !in adj {
        adj, order := adj[start := {}], order + [start];
      }
    }

    /**
     * `remove(vertex)`: delete the vertex's key (silently when it is
     * missing), then remove the vertex from every remaining neighbour set.
     * The weights are left as they were.
     */
    method Remove(vertex: int)
      requires Valid()
      modifies this
      ensures Valid()
      ensures adj == RemoveVertex(old(adj), vertex)
      ensures order == Without(old(order), vertex) && weights == old(weights)
    {
      var m, o := adj, order;
      if vertex in m {
        m, o := map v | v in m && v != vertex :: m[v], Without(o, vertex);
      } else {
        WithoutAbsent(o, vertex);
      }
      m := DropNeighbour(m, o, vertex);
      assert m == RemoveVertex(adj, vertex);
      RemoveKeepsAdjacency(adj, vertex);
      adj, order := m, o;
    }

    /**
     * `kruskal()`: pop heap entries `(w, (u, v))` in increasing order, take
     * each whose ends the union-find keeps apart and merge their sets, until
     * one edge fewer than there are vertices is taken; popping an empty heap
     * raises IndexError. The taken edges with their weights make a new graph.
     */
    method Kruskal() returns (r: Result<UndirectedGraph>)
      requires Valid() && AllWeighted(adj, weights)
      modifies this
      ensures Valid() && adj == old(adj) && order == old(order) && weights == old(weights)
      ensures var run := KruskalRun(multiset(HeapEntries(adj, order, weights)), Singletons(adj), [], |adj| - 1);
        (r.Failure? <==> run.Failure?) && (r.Failure? ==> r.error == run.error) &&
        (r.Success? ==>
          fresh(r.value) && r.value.Valid() && r.value.adj == Adjacency(Ends(run.value)) &&
          r.value.weights == WeightMap(Ends(run.value), TakenWeights(run.value)))
      ensures r.Failure? <==> !Connected(adj)
      ensures r.Failure? ==> r.error == IndexError
      ensures r.Success? ==> IsSpanningTree(r.value.adj, r.value.weights, adj, weights)
    {
      DefaultsPresent(adj, weights);
      var listed := EdgesAndWeights();
      r := KruskalFrom(adj, order, weights, listed);
    }

    /**
     * `minimum_spanning_tree(start_vertex)`, Prim's algorithm: `all_vertices`
     * is read before `neighbors(start_vertex)` inserts a missing start; then
     * pop heap entries `(w, (u, v))` in increasing order, skip those whose v
     * is taken, take the others and push the edges from v to untaken
     * neighbours, until every vertex is taken; popping an empty heap raises
     * IndexError. The taken edges with their weights make a new graph.
     */
    method MinimumSpanningTree(start: int) returns (r: Result<UndirectedGraph>)
      requires Valid() && AllWeighted(adj, weights)
      modifies this
      ensures Valid() && adj == WithVertex(old(adj), start) && order == Append(old(order), start) && weights == old(weights)
      ensures PrimReady(WithVertex(old(adj), start), multiset(Pushes(weights, start, Succ(old(adj), start), {})), {start})
      ensures var run := PrimRun(WithVertex(old(adj), start), weights, old(adj).Keys, multiset(Pushes(weights, start, Succ(old(adj), start), {})), {start}, []);
        (r.Failure? <==> run.Failure?) && (r.Failure? ==> r.error == run.error) &&
        (r.Success? ==>
          fresh(r.value) && r.value.Valid() && r.value.adj == Adjacency(Ends(run.value)) &&
          r.value.weights == WeightMap(Ends(run.value), TakenWeights(run.value)))
      ensures r.Failure? <==> start !in old(adj) || !Connected(old(adj))
      ensures r.Failure? ==> r.error == IndexError
      ensures r.Success? ==> IsSpanningTree(r.value.adj, r.value.weights, old(adj), weights)
    {
      var all := adj.Keys;
      var before := adj;
      IncidentDefaults(adj, weights, start);
      var listed := NeighborsAndWeights(start);
      r := PrimFrom(before, weights, start, all, listed);
    }
  }

  /**
   * The `finally` loop of `remove`: walking the keys in order, x is taken
   * out of every neighbour set that holds it.
   */
  method DropNeighbour(m: map<int, set<int>>, keys: seq<int>, x: int) returns (r: map<int, set<int>>)
    requires Distinct(keys) && forall v :: v in keys <==> v in m
    ensures r == map v | v in m :: m[v] - {x}
  {
    r := m;
    forall j | 0 <= j < |keys|
      ensures keys[j] in m
    {
      var v := keys[j];
      assert v in keys;
    }
    for k := 0 to |keys|
      invariant r.Keys == m.Keys
      invariant forall j :: 0 <= j < |keys| ==> keys[j] in m && r[keys[j]] == if j < k then m[keys[j]] - {x} else m[keys[j]]
    {
      var v := keys[k];
      if x in r[v] {
        r := r[v := r[v] - {x}];
      } else {
        assert r[v] == m[v] - {x};
      }
      forall j | 0 <= j < |keys|
        ensures r[keys[j]] == if j < k + 1 then m[keys[j]] - {x} else m[keys[j]]
      {
        if j != k {
          assert keys[j] != v;
        }
      }
    }
    forall v | v in r
      ensures r[v] == m[v] - {x}
    {
      var j :| 0 <= j < |keys| && keys[j] == v;
    }
  }

  /** Deleting a key that is not there leaves the key order as it was. */
  lemma {:induction false} WithoutAbsent(order: seq<int>, x: int)
    requires x !in order
    ensures Without(order, x) == order
  {
    if order != [] {
      WithoutAbsent(order[1..], x);
    }
  }

  /**
   * `UndirectedGraph(edges, weights)`: ValueError when weights are given
   * (a non-empty list) and their count differs from the edges'.
   */
  method New(edgeList: seq<(int, int)>, weightList: seq<Option<int>>) returns (r: Result<UndirectedGraph>)
    ensures r.Failure? <==> |weightList| > 0 && |weightList| != |edgeList|
    ensures r.Failure? ==> r.error == ValueError
    ensures r.Success? ==> fresh(r.value) && r.value.Valid()
    ensures r.Success? ==> r.value.adj == Adjacency(edgeList) && r.value.order == KeyOrder(edgeList)
    ensures r.Success? ==> r.value.weights == if |weightList| == 0 then map[] else WeightMap(edgeList, weightList)
  {
    if |weightList| > 0 && |weightList| != |edgeList| {
      return Failure(ValueError);
    }
    var g := new UndirectedGraph(edgeList, weightList);
    return Success(g);
  }
  /** The first components of a list of pairs. */
  function Firsts<A, B>(r: seq<(A, B)>): (f: seq<A>)
    ensures |f| == |r| && forall k :: 0 <= k < |r| ==> f[k] == r[k].0
  {
    seq(|r|, k requires 0 <= k < |r| => r[k].0)
  }

  /** The unordered pairs of a list of edges. */
  function PairsOf(es: seq<(int, int)>): set<set<int>> {
    set k | 0 <= k < |es| :: Pair(es[k].0, es[k].1)
  }

  /** The pairs `frozenset((x, v))` for the neighbours v of x. */
  function Incident(adj: map<int, set<int>>, x: int): set<set<int>> {
    set v | v in Succ(adj, x) :: Pair(x, v)
  }

  /** The edges from x to a list of its neighbours are the pairs incident to x. */
  lemma IncidentPairs(adj: map<int, set<int>>, x: int, vs: seq<int>)
    requires forall v :: v in vs <==> v in Succ(adj, x)
    ensures PairsOf(seq(|vs|, k requires 0 <= k < |vs| => (x, vs[k]))) == Incident(adj, x)
  {
    var es := seq(|vs|, k requires 0 <= k < |vs| => (x, vs[k]));
    forall e | e in Incident(adj, x)
      ensures e in PairsOf(es)
    {
      var v :| v in Succ(adj, x) && e == Pair(x, v);
      var k :| 0 <= k < |vs| && vs[k] == v;
      assert es[k] == (x, v);
    }
  }

  /** The pairs of the first k + 1 edges: those of the first k and one more. */
  lemma PairsOfSnoc(es: seq<(int, int)>, k: nat)
    requires k < |es|
    ensures PairsOf(es[..k + 1]) == PairsOf(es[..k]) + {Pair(es[k].0, es[k].1)}
  {
    assert es[..k + 1][k] == es[k];
    forall l | 0 <= l < k
      ensures es[..k + 1][l] == es[..k][l]
    {
    }
  }

  /** Reading one more pair inserts it with None when it is missing, and changes nothing else. */
  lemma WithDefaultsAdd(w: map<set<int>, Option<int>>, keys: set<set<int>>, e: set<int>)
    ensures WithDefaults(w, keys + {e}) ==
      var m := WithDefaults(w, keys); if e in m then m else m[e := None]
  {
  }

  /**
   * Reading `_weights[frozenset((u, v))]` for each listed edge in turn: the
   * weights read, and the map with None inserted for each missing pair.
   */
  method LookupAll(w: map<set<int>, Option<int>>, es: seq<(int, int)>) returns (r: seq<Option<int>>, w': map<set<int>, Option<int>>)
    ensures |r| == |es| && forall k :: 0 <= k < |es| ==> r[k] == Lookup(w, Pair(es[k].0, es[k].1))
    ensures w' == WithDefaults(w, PairsOf(es))
  {
    r, w' := [], w;
    for k := 0 to |es|
      invariant |r| == k && forall l :: 0 <= l < k ==> r[l] == Lookup(w, Pair(es[l].0, es[l].1))
      invariant w' == WithDefaults(w, PairsOf(es[..k]))
    {
      var key := Pair(es[k].0, es[k].1);
      if key !in w' {
        w' := w'[key := None];
      }
      r := r + [w'[key]];
      PairsOfSnoc(es, k);
      WithDefaultsAdd(w, PairsOf(es[..k]), key);
    }
    assert es[..|es|] == es;
  }

  /** The position of x in a list that holds it: its first occurrence. */
  function IndexOf(s: seq<int>, x: int): (i: nat)
    requires x in s
    ensures i < |s| && s[i] == x
    ensures forall k :: 0 <= k < i ==> s[k] != x
  {
    if s[0] == x then 0 else 1 + IndexOf(s[1..], x)
  }

  /** u is a key listed before the key v. */
  predicate Earlier(order: seq<int>, u: int, v: int) {
    u in order && v in order && IndexOf(order, u) < IndexOf(order, v)
  }

  /** Every unordered edge of a neighbour map. */
  function EdgePairs(adj: map<int, set<int>>): set<set<int>> {
    set u, v | u in adj && v in adj[u] :: Pair(u, v)
  }

  /** The unordered edges at the vertices of `vs`. */
  function PairsFrom(adj: map<int, set<int>>, vs: seq<int>): set<set<int>> {
    set u, v | u in vs && v in Succ(adj, u) :: Pair(u, v)
  }

  /** The pairs joining u to each vertex of `vs`. */
  function Fan(u: int, vs: seq<int>): set<set<int>> {
    set m | 0 <= m < |vs| :: Pair(u, vs[m])
  }

  /** Each listed edge joins a vertex to a neighbour listed later in the key order. */
  ghost predicate Forward(adj: map<int, set<int>>, order: seq<int>, r: seq<(int, int)>) {
    forall k :: 0 <= k < |r| ==> r[k].1 in Succ(adj, r[k].0) && Earlier(order, r[k].0, r[k].1)
  }

  /** The listing goes key by key: the edges at a key all come before those at any later key. */
  predicate KeyByKey(order: seq<int>, r: seq<(int, int)>) {
    forall i, j :: 0 <= i < j < |r| && r[i].0 != r[j].0 ==> Earlier(order, r[i].0, r[j].0)
  }

  /** A key listed before the i-th key comes earlier in the key order. */
  lemma BeforeKey(order: seq<int>, i: nat, x: int)
    requires Distinct(order) && i < |order| && x in order[..i]
    ensures Earlier(order, x, order[i])
  {
    var m :| 0 <= m < i && order[..i][m] == x;
    assert order[m] == x;
    assert IndexOf(order, order[i]) == i;
  }

  /**
   * Edges at earlier keys listed key by key, followed by edges at the i-th
   * key, are listed key by key, and all at the first i + 1 keys.
   */
  lemma KeyByKeyAppend(order: seq<int>, i: nat, r: seq<(int, int)>, t: seq<(int, int)>)
    requires Distinct(order) && i < |order|
    requires KeyByKey(order, r) && forall k :: 0 <= k < |r| ==> r[k].0 in order[..i]
    requires forall k :: 0 <= k < |t| ==> t[k].0 == order[i]
    ensures KeyByKey(order, r + t) && forall k :: 0 <= k < |r + t| ==> (r + t)[k].0 in order[..i + 1]
  {
    var s := r + t;
    assert order[..i + 1] == order[..i] + [order[i]];
    assert forall k :: 0 <= k < |r| ==> s[k] == r[k];
    assert forall k :: |r| <= k < |s| ==> s[k] == t[k - |r|];
    forall a, b | 0 <= a < |r| <= b < |s|
      ensures Earlier(order, s[a].0, s[b].0)
    {
      BeforeKey(order, i, s[a].0);
    }
  }

  /** No unordered edge is listed twice, either way round. */
  predicate DistinctPairs(r: seq<(int, int)>) {
    forall i, j :: 0 <= i < j < |r| ==> Pair(r[i].0, r[i].1) != Pair(r[j].0, r[j].1)
  }

  /** The edges at one more key are those at the earlier keys and those incident to it. */
  lemma PairsFromSnoc(adj: map<int, set<int>>, order: seq<int>, i: nat)
    requires i < |order|
    ensures PairsFrom(adj, order[..i + 1]) == PairsFrom(adj, order[..i]) + Incident(adj, order[i])
  {
    assert order[..i + 1] == order[..i] + [order[i]];
  }

  /** Joining u to one more vertex adds one pair. */
  lemma FanSnoc(u: int, vs: seq<int>, j: nat)
    requires j < |vs|
    ensures Fan(u, vs[..j + 1]) == Fan(u, vs[..j]) + {Pair(u, vs[j])}
  {
    assert vs[..j + 1][j] == vs[j];
    forall m | 0 <= m < j
      ensures vs[..j + 1][m] == vs[..j][m]
    {
    }
  }

  /** The pairs joining u to a listing of its neighbours are the pairs incident to u. */
  lemma FanIsIncident(adj: map<int, set<int>>, u: int, vs: seq<int>)
    requires forall v :: v in vs <==> v in Succ(adj, u)
    ensures Fan(u, vs) == Incident(adj, u)
  {
    forall e | e in Incident(adj, u)
      ensures e in Fan(u, vs)
    {
      var v :| v in Succ(adj, u) && e == Pair(u, v);
      var m :| 0 <= m < |vs| && vs[m] == v;
    }
  }

  /** The edges at all the keys are all the edges. */
  lemma PairsFromAll(adj: map<int, set<int>>, order: seq<int>)
    requires forall v :: v in order <==> v in adj
    ensures PairsFrom(adj, order) == EdgePairs(adj)
  {
  }

  /**
   * A neighbour v of the i-th key whose edge has not been met at an earlier
   * key is itself a later key: otherwise the edge would have been met at v.
   */
  lemma NotYetMet(adj: map<int, set<int>>, order: seq<int>, i: nat, v: int)
    requires Distinct(order) && (forall x :: x in order <==> x in adj) && IsAdjacency(adj)
    requires i < |order| && v in Succ(adj, order[i])
    requires Pair(order[i], v) !in PairsFrom(adj, order[..i])
    ensures Earlier(order, order[i], v)
  {
    var u := order[i];
    assert v in adj && u in adj[v] && u != v;
    assert Pair(v, u) == Pair(u, v);
    var earlier := order[..i];
    assert v in earlier ==> Pair(v, u) in PairsFrom(adj, earlier);
    assert forall m :: 0 <= m < i ==> earlier[m] == order[m];
    var k := IndexOf(order, v);
    assert IndexOf(order, u) == i;
  }

  /**
   * The inner loop of `edges()` at the i-th key: each neighbour whose pair
   * has not been listed yet is listed, and its pair remembered.
   */
  method YieldFrom(adj: map<int, set<int>>, order: seq<int>, i: nat, nbs: seq<int>, r0: seq<(int, int)>, y0: set<set<int>>)
    returns (r: seq<(int, int)>, yielded: set<set<int>>)
    requires Distinct(order) && (forall x :: x in order <==> x in adj) && IsAdjacency(adj)
    requires i < |order| && forall v :: v in nbs <==> v in Succ(adj, order[i])
    requires y0 == PairsOf(r0) == PairsFrom(adj, order[..i])
    requires Forward(adj, order, r0) && DistinctPairs(r0)
    requires KeyByKey(order, r0) && forall k :: 0 <= k < |r0| ==> r0[k].0 in order[..i]
    ensures yielded == PairsOf(r) == PairsFrom(adj, order[..i + 1])
    ensures Forward(adj, order, r) && DistinctPairs(r)
    ensures KeyByKey(order, r) && forall k :: 0 <= k < |r| ==> r[k].0 in order[..i + 1]
  {
    var u := order[i];
    r, yielded := r0, y0;
    ghost var t: seq<(int, int)> := [];
    for j := 0 to |nbs|
      invariant yielded == PairsOf(r) == PairsFrom(adj, order[..i]) + Fan(u, nbs[..j])
      invariant Forward(adj, order, r) && DistinctPairs(r)
      invariant r == r0 + t && forall k :: 0 <= k < |t| ==> t[k].0 == u
    {
      FanSnoc(u, nbs, j);
      var e := Pair(u, nbs[j]);
      if e in yielded {
        continue;
      }
      NotYetMet(adj, order, i, nbs[j]);
      ListOneMore(adj, order, r, u, nbs[j]);
      AppendAtKey(r0, t, u, nbs[j]);
      yielded, r, t := yielded + {e}, r + [(u, nbs[j])], t + [(u, nbs[j])];
    }
    KeyByKeyAppend(order, i, r0, t);
    assert nbs[..|nbs|] == nbs;
    FanIsIncident(adj, u, nbs);
    PairsFromSnoc(adj, order, i);
  }

  /** One more edge at u after edges at u still follows r0 with edges at u only. */
  lemma AppendAtKey(r0: seq<(int, int)>, t: seq<(int, int)>, u: int, v: int)
    requires forall k :: 0 <= k < |t| ==> t[k].0 == u
    ensures r0 + t + [(u, v)] == r0 + (t + [(u, v)])
    ensures forall k :: 0 <= k < |t + [(u, v)]| ==> (t + [(u, v)])[k].0 == u
  {
  }

  /** Listing one more forward edge whose pair is new keeps the list forward and free of repeats. */
  lemma ListOneMore(adj: map<int, set<int>>, order: seq<int>, r: seq<(int, int)>, u: int, v: int)
    requires Forward(adj, order, r) && DistinctPairs(r)
    requires v in Succ(adj, u) && Earlier(order, u, v) && Pair(u, v) !in PairsOf(r)
    ensures Forward(adj, order, r + [(u, v)]) && DistinctPairs(r + [(u, v)])
    ensures PairsOf(r + [(u, v)]) == PairsOf(r) + {Pair(u, v)}
  {
    var s := r + [(u, v)];
    PairsOfSnoc(s, |r|);
    assert s[..|r|] == r;
    forall i, j | 0 <= i < j < |s|
      ensures Pair(s[i].0, s[i].1) != Pair(s[j].0, s[j].1)
    {
      if j == |r| {
        assert Pair(s[i].0, s[i].1) in PairsOf(r);
      }
    }
  }

  /**
   * An edge list that lists every edge of a neighbour map forward builds
   * that map back, without the keys that have no neighbour.
   */
  lemma AdjacencyOfList(es: seq<(int, int)>, adj: map<int, set<int>>, order: seq<int>)
    requires IsAdjacency(adj) && Forward(adj, order, es) && PairsOf(es) == EdgePairs(adj)
    ensures Adjacency(es) == map v | v in adj && adj[v] != {} :: adj[v]
  {
    var built := Adjacency(es);
    forall u
      ensures u in built <==> u in adj && adj[u] != {}
    {
      NeighboursOfList(es, adj, order, u);
      AdjacencyKeys(es, u);
    }
    forall u | u in built
      ensures built[u] == adj[u]
    {
      NeighboursOfList(es, adj, order, u);
    }
  }

  /** Each vertex gets its neighbours back from a forward listing of all the edges. */
  lemma NeighboursOfList(es: seq<(int, int)>, adj: map<int, set<int>>, order: seq<int>, u: int)
    requires IsAdjacency(adj) && Forward(adj, order, es) && PairsOf(es) == EdgePairs(adj)
    ensures Succ(Adjacency(es), u) == Succ(adj, u)
  {
    ForwardIsLoopFree(es, adj, order);
    forall v
      ensures v in Succ(Adjacency(es), u) <==> v in Succ(adj, u)
    {
      AdjacencyHas(es, u, v);
      EdgeOfPair(adj, u, v);
    }
  }

  /** A forward edge list has no self-loop, so all its pairs are kept. */
  lemma ForwardIsLoopFree(es: seq<(int, int)>, adj: map<int, set<int>>, order: seq<int>)
    requires IsAdjacency(adj) && Forward(adj, order, es)
    ensures forall k :: 0 <= k < |es| ==> es[k].0 != es[k].1
    ensures EdgeSet(es) == PairsOf(es)
  {
    forall k | 0 <= k < |es|
      ensures es[k].0 != es[k].1
    {
      assert es[k].1 in Succ(adj, es[k].0);
    }
  }

  /** In a loop-free symmetric map, v is a neighbour of u iff {u, v} is an edge of two distinct vertices. */
  lemma EdgeOfPair(adj: map<int, set<int>>, u: int, v: int)
    requires IsAdjacency(adj)
    ensures v in Succ(adj, u) <==> u != v && Pair(u, v) in EdgePairs(adj)
  {
    if u != v && Pair(u, v) in EdgePairs(adj) {
      var x, y :| x in adj && y in adj[x] && Pair(u, v) == Pair(x, y);
      assert (u == x && v == y) || (u == y && v == x);
    }
  }

  /**
   * The weights the constructor stores for a loop-free edge list whose
   * weights were read from a map, one unordered pair per edge: each pair
   * keeps the weight read for it.
   */
  lemma {:induction false} WeightMapOfLookups(es: seq<(int, int)>, ws: seq<Option<int>>, w: map<set<int>, Option<int>>)
    requires |ws| == |es| && forall k :: 0 <= k < |es| ==> es[k].0 != es[k].1
    requires forall k :: 0 <= k < |es| ==> ws[k] == Lookup(w, Pair(es[k].0, es[k].1))
    ensures WeightMap(es, ws) == Restrict(w, PairsOf(es))
  {
    if es != [] {
      var n := |es| - 1;
      PairsOfSnoc(es, n);
      assert es[..n + 1] == es;
      WeightMapOfLookups(es[..n], ws[..n], w);
      RestrictAdd(w, PairsOf(es[..n]), Pair(es[n].0, es[n].1));
    }
  }

  /** The weights read for the pairs of `keys`, None for a missing one. */
  function Restrict(w: map<set<int>, Option<int>>, keys: set<set<int>>): map<set<int>, Option<int>> {
    map e | e in keys :: Lookup(w, e)
  }

  /** Reading one more pair adds its entry. */
  lemma RestrictAdd(w: map<set<int>, Option<int>>, keys: set<set<int>>, e: set<int>)
    ensures Restrict(w, keys + {e}) == Restrict(w, keys)[e := Lookup(w, e)]
  {
  }

  /** Dropping the keys without neighbours changes nothing iff there are none. */
  lemma PrunedIsSame(adj: map<int, set<int>>)
    ensures (map v | v in adj && adj[v] != {} :: adj[v]) == adj <==> forall v :: v in adj ==> adj[v] != {}
  {
    var pruned := map v | v in adj && adj[v] != {} :: adj[v];
    if exists v :: v in adj && adj[v] == {} {
      var v :| v in adj && adj[v] == {};
      assert v !in pruned;
    }
  }

  /**
   * Reading the pairs of `keys` from `w` leaves exactly the weights of
   * those pairs iff `w` held no other pair.
   */
  lemma DefaultsAreRestrict(w: map<set<int>, Option<int>>, keys: set<set<int>>)
    ensures WithDefaults(w, keys) == Restrict(w, keys) <==> w.Keys <= keys
  {
    if !(w.Keys <= keys) {
      var e :| e in w && e !in keys;
      assert e in WithDefaults(w, keys) && e !in Restrict(w, keys);
    }
  }

  /**
   * `g == h` for graphs built without weights from edge lists with the
   * same unordered edges: listing order, repetition and orientation do not
   * matter, and both weight maps are empty.
   */
  lemma SameEdgesEqual(g: UndirectedGraph, h: UndirectedGraph, e1: seq<(int, int)>, e2: seq<(int, int)>)
    requires g.adj == Adjacency(e1) && g.weights == map[]
    requires h.adj == Adjacency(e2) && h.weights == map[]
    requires EdgeSet(e1) == EdgeSet(e2)
    ensures g.Equals(h)
  {
    SameEdgesSameAdjacency(e1, e2);
  }

  /** Permuting the edges of the path 0-1-2-3 gives the same neighbour map. */
  lemma PermutedEdges(e1: seq<(int, int)>, e2: seq<(int, int)>)
    requires e1 == [(0, 1), (1, 2), (2, 3)] && e2 == [(1, 2), (2, 3), (0, 1)]
    ensures Adjacency(e1) == Adjacency(e2)
  {
    assert EdgeSet(e1) == {Pair(0, 1), Pair(1, 2), Pair(2, 3)} by {
      assert Pair(e1[0].0, e1[0].1) == Pair(0, 1);
      assert Pair(e1[1].0, e1[1].1) == Pair(1, 2);
      assert Pair(e1[2].0, e1[2].1) == Pair(2, 3);
    }
    assert EdgeSet(e2) == {Pair(0, 1), Pair(1, 2), Pair(2, 3)} by {
      assert Pair(e2[2].0, e2[2].1) == Pair(0, 1);
      assert Pair(e2[0].0, e2[0].1) == Pair(1, 2);
      assert Pair(e2[1].0, e2[1].1) == Pair(2, 3);
    }
    SameEdgesSameAdjacency(e1, e2);
  }

  /** Listing the edge 0-1 twice gives the same neighbour map as listing it once. */
  lemma RepeatedEdge(e1: seq<(int, int)>, e2: seq<(int, int)>)
    requires e1 == [(0, 1), (1, 2), (2, 3)] && e2 == [(0, 1), (0, 1), (1, 2), (2, 3)]
    ensures Adjacency(e1) == Adjacency(e2)
  {
    assert EdgeSet(e1) == {Pair(0, 1), Pair(1, 2), Pair(2, 3)} by {
      assert Pair(e1[0].0, e1[0].1) == Pair(0, 1);
      assert Pair(e1[1].0, e1[1].1) == Pair(1, 2);
      assert Pair(e1[2].0, e1[2].1) == Pair(2, 3);
    }
    assert EdgeSet(e2) == {Pair(0, 1), Pair(1, 2), Pair(2, 3)} by {
      assert Pair(e2[0].0, e2[0].1) == Pair(0, 1);
      assert Pair(e2[2].0, e2[2].1) == Pair(1, 2);
      assert Pair(e2[3].0, e2[3].1) == Pair(2, 3);
    }
    SameEdgesSameAdjacency(e1, e2);
  }

  /** Writing the edge 1-2 the other way round gives the same neighbour map. */
  lemma FlippedEdge(e1: seq<(int, int)>, e2: seq<(int, int)>)
    requires e1 == [(0, 1), (1, 2)] && e2 == [(0, 1), (2, 1)]
    ensures Adjacency(e1) == Adjacency(e2)
  {
    assert EdgeSet(e1) == {Pair(0, 1), Pair(1, 2)} by {
      assert Pair(e1[0].0, e1[0].1) == Pair(0, 1);
      assert Pair(e1[1].0, e1[1].1) == Pair(1, 2);
    }
    assert EdgeSet(e2) == {Pair(0, 1), Pair(1, 2)} by {
      assert Pair(e2[0].0, e2[0].1) == Pair(0, 1);
      assert Pair(e2[1].0, e2[1].1) == Pair(1, 2);
    }
    SameEdgesSameAdjacency(e1, e2);
  }

  /**
   * The star a-b, a-c, a-d (here 0-1, 0-2, 0-3) is the same graph when d
   * is listed before c and twice.
   */
  lemma ReorderedStar(e1: seq<(int, int)>, e2: seq<(int, int)>)
    requires e1 == [(0, 1), (0, 2), (0, 3)] && e2 == [(0, 1), (0, 3), (0, 2), (0, 3)]
    ensures Adjacency(e1) == Adjacency(e2)
  {
    assert EdgeSet(e1) == {Pair(0, 1), Pair(0, 2), Pair(0, 3)} by {
      assert Pair(e1[0].0, e1[0].1) == Pair(0, 1);
      assert Pair(e1[1].0, e1[1].1) == Pair(0, 2);
      assert Pair(e1[2].0, e1[2].1) == Pair(0, 3);
    }
    assert EdgeSet(e2) == {Pair(0, 1), Pair(0, 2), Pair(0, 3)} by {
      assert Pair(e2[0].0, e2[0].1) == Pair(0, 1);
      assert Pair(e2[2].0, e2[2].1) == Pair(0, 2);
      assert Pair(e2[1].0, e2[1].1) == Pair(0, 3);
    }
    SameEdgesSameAdjacency(e1, e2);
  }

  /**
   * The path A-2-B-C (A, B, C as 0, 1, 3) is the same graph whichever of
   * its last two edges is listed first.
   */
  lemma ReorderedPath(e1: seq<(int, int)>, e2: seq<(int, int)>)
    requires e1 == [(0, 2), (2, 1), (1, 3)] && e2 == [(0, 2), (1, 3), (2, 1)]
    ensures Adjacency(e1) == Adjacency(e2)
  {
    assert EdgeSet(e1) == {Pair(0, 2), Pair(2, 1), Pair(1, 3)} by {
      assert Pair(e1[0].0, e1[0].1) == Pair(0, 2);
      assert Pair(e1[1].0, e1[1].1) == Pair(2, 1);
      assert Pair(e1[2].0, e1[2].1) == Pair(1, 3);
    }
    assert EdgeSet(e2) == {Pair(0, 2), Pair(2, 1), Pair(1, 3)} by {
      assert Pair(e2[0].0, e2[0].1) == Pair(0, 2);
      assert Pair(e2[2].0, e2[2].1) == Pair(2, 1);
      assert Pair(e2[1].0, e2[1].1) == Pair(1, 3);
    }
    SameEdgesSameAdjacency(e1, e2);
  }

  /** A repeated edge B-C (as 1-3) weighted 2 both times keeps weight 2. */
  lemma RepeatedWeight(es: seq<(int, int)>, ws: seq<Option<int>>)
    requires es == [(0, 2), (1, 3), (1, 3)] && ws == [Some(1), Some(2), Some(2)]
    ensures Lookup(WeightMap(es, ws), Pair(1, 3)) == Some(2)
  {
    LastWeightWins(es, ws, 2);
  }

  /** The neighbour map after one more edge. */
  lemma AdjacencySnoc(edges: seq<(int, int)>, a: int, b: int)
    ensures Adjacency(edges + [(a, b)]) == if a == b then Adjacency(edges) else Link(Link(Adjacency(edges), a, b), b, a)
  {
    assert (edges + [(a, b)])[..|edges|] == edges;
  }

  /**
   * Removing x from the graph of `e1` gives the graph of any edge list
   * holding exactly the edges of `e1` that avoid x, provided no other
   * vertex loses its last neighbour: such a vertex would stay behind as a
   * key with no neighbours.
   */
  lemma RemoveMatches(e1: seq<(int, int)>, e2: seq<(int, int)>, x: int)
    requires forall p :: p in EdgeSet(e2) <==> p in EdgeSet(e1) && x !in p
    requires forall u :: u in Adjacency(e1) && u != x ==> Succ(Adjacency(e1), u) - {x} != {}
    ensures RemoveVertex(Adjacency(e1), x) == Adjacency(e2)
  {
    var r, a2 := RemoveVertex(Adjacency(e1), x), Adjacency(e2);
    forall u
      ensures u in r <==> u in a2
    {
      RemoveNeighbours(e1, e2, x, u);
      AdjacencyKeys(e1, u);
      AdjacencyKeys(e2, u);
    }
    forall u | u in r
      ensures r[u] == a2[u]
    {
      RemoveNeighbours(e1, e2, x, u);
    }
  }

  /** The neighbours of u once x is removed are its neighbours among the edges avoiding x. */
  lemma RemoveNeighbours(e1: seq<(int, int)>, e2: seq<(int, int)>, x: int, u: int)
    requires forall p :: p in EdgeSet(e2) <==> p in EdgeSet(e1) && x !in p
    ensures u != x ==> Succ(RemoveVertex(Adjacency(e1), x), u) == Succ(Adjacency(e2), u)
    ensures Succ(Adjacency(e2), x) == {}
  {
    var a1, a2 := Adjacency(e1), Adjacency(e2);
    assert u != x ==> Succ(RemoveVertex(a1, x), u) == Succ(a1, u) - {x};
    forall v
      ensures u != x ==> (v in Succ(a1, u) - {x} <==> v in Succ(a2, u))
    {
      AdjacencyHas(e1, u, v);
      AdjacencyHas(e2, u, v);
    }
    forall v
      ensures v !in Succ(a2, x)
    {
      AdjacencyHas(e2, x, v);
    }
  }

  /** Removing vertex 0 from the path 0-1-2-3 leaves the path 1-2-3. */
  lemma RemoveEnd(e1: seq<(int, int)>, e2: seq<(int, int)>)
    requires e1 == [(0, 1), (1, 2), (2, 3)] && e2 == [(1, 2), (2, 3)]
    ensures RemoveVertex(Adjacency(e1), 0) == Adjacency(e2)
  {
    assert EdgeSet(e1) == {Pair(0, 1), Pair(1, 2), Pair(2, 3)} by {
      assert Pair(e1[0].0, e1[0].1) == Pair(0, 1);
      assert Pair(e1[1].0, e1[1].1) == Pair(1, 2);
      assert Pair(e1[2].0, e1[2].1) == Pair(2, 3);
    }
    assert EdgeSet(e2) == {Pair(1, 2), Pair(2, 3)} by {
      assert Pair(e2[0].0, e2[0].1) == Pair(1, 2);
      assert Pair(e2[1].0, e2[1].1) == Pair(2, 3);
    }
    forall u | u in Adjacency(e1) && u != 0
      ensures Succ(Adjacency(e1), u) - {0} != {}
    {
      AdjacencyKeys(e1, u);
      Inhabited(Succ(Adjacency(e1), u));
      var v :| v in Succ(Adjacency(e1), u);
      AdjacencyHas(e1, u, v);
      var w := if u == 1 then 2 else if u == 2 then 3 else 2;
      AdjacencyHas(e1, u, w);
      assert w in Succ(Adjacency(e1), u) - {0};
    }
    RemoveMatches(e1, e2, 0);
  }

  /** The two queue disciplines of `_search`. */
  datatype SearchKind = BFS | DFS

  /** No edge leaves the vertex set C. */
  ghost predicate Closed(adj: map<int, set<int>>, C: iset<int>) {
    forall v, w :: v in C && w in Succ(adj, v) ==> w in C
  }

  /** b lies in every edge-closed vertex set that holds a: a path leads from a to b. */
  ghost predicate Reaches(adj: map<int, set<int>>, a: int, b: int) {
    forall C {:trigger Closed(adj, C)} :: Closed(adj, C) && a in C ==> b in C
  }

  /** A neighbour of a reachable vertex is reachable. */
  lemma ReachesStep(adj: map<int, set<int>>, a: int, u: int, w: int)
    requires Reaches(adj, a, u) && w in Succ(adj, u)
    ensures Reaches(adj, a, w)
  {
  }

  /** The neighbours of a vertex that are not yet visited, in listing order. */
  function Unvisited(nbs: seq<int>, visited: set<int>): seq<int> {
    if nbs == [] then []
    else
      var rest := Unvisited(nbs[..|nbs| - 1], visited);
      var x := nbs[|nbs| - 1];
      if x in visited then rest else rest + [x]
  }

  /** The unvisited neighbours are the neighbours outside the visited set. */
  lemma {:induction false} UnvisitedHas(nbs: seq<int>, visited: set<int>, x: int)
    ensures x in Unvisited(nbs, visited) <==> x in nbs && x !in visited
  {
    if nbs != [] {
      UnvisitedHas(nbs[..|nbs| - 1], visited, x);
      assert nbs == nbs[..|nbs| - 1] + [nbs[|nbs| - 1]];
    }
  }

  /** One more neighbour is appended to the unvisited ones when it is unvisited. */
  lemma UnvisitedSnoc(nbs: seq<int>, visited: set<int>, j: nat)
    requires j < |nbs|
    ensures Unvisited(nbs[..j + 1], visited) ==
      Unvisited(nbs[..j], visited) + if nbs[j] in visited then [] else [nbs[j]]
  {
    assert nbs[..j + 1][..j] == nbs[..j];
  }

  /** A list and its reversal hold the same elements. */
  lemma ReverseHas(s: seq<int>, x: int)
    ensures x in Builtins.Reverse(s) <==> x in s
  {
    var r := Builtins.Reverse(s);
    if x in s {
      var i :| 0 <= i < |s| && s[i] == x;
      assert r[|s| - 1 - i] == x;
    }
  }

  /**
   * The deque after pushing the vertices `f` in order: BFS puts each at
   * the left end (`appendleft`), DFS at the right end (`append`).
   */
  function Pushed(queue: seq<int>, f: seq<int>, kind: SearchKind): seq<int> {
    if kind == BFS then Builtins.Reverse(f) + queue else queue + f
  }

  /** Pushing one more vertex puts it at the end its discipline names. */
  lemma PushedSnoc(queue: seq<int>, f: seq<int>, x: int, kind: SearchKind)
    ensures Pushed(queue, f + [x], kind) == if kind == BFS then [x] + Pushed(queue, f, kind) else Pushed(queue, f, kind) + [x]
  {
    if kind == BFS {
      Builtins.ReverseAppend(f, x);
      assert ([x] + Builtins.Reverse(f)) + queue == [x] + (Builtins.Reverse(f) + queue);
    } else {
      assert queue + (f + [x]) == (queue + f) + [x];
    }
  }

  /** One neighbour more: the deque is unchanged for a visited one, else it gains it at its discipline's end. */
  lemma PushStep(queue: seq<int>, nbs: seq<int>, visited: set<int>, kind: SearchKind, j: nat)
    requires j < |nbs|
    ensures var before := Pushed(queue, Unvisited(nbs[..j], visited), kind);
      Pushed(queue, Unvisited(nbs[..j + 1], visited), kind) ==
        if nbs[j] in visited then before
        else if kind == BFS then [nbs[j]] + before
        else before + [nbs[j]]
  {
    UnvisitedSnoc(nbs, visited, j);
    if nbs[j] !in visited {
      PushedSnoc(queue, Unvisited(nbs[..j], visited), nbs[j], kind);
    }
  }

  /**
   * The inner loop of `_search`: each unvisited neighbour is pushed onto
   * the deque, whose right end `pop` takes from.
   */
  method Push(queue: seq<int>, nbs: seq<int>, visited: set<int>, kind: SearchKind) returns (q: seq<int>)
    ensures q == Pushed(queue, Unvisited(nbs, visited), kind)
    ensures forall x :: x in q <==> x in queue || (x in nbs && x !in visited)
  {
    q := queue;
    for j := 0 to |nbs|
      invariant q == Pushed(queue, Unvisited(nbs[..j], visited), kind)
    {
      PushStep(queue, nbs, visited, kind, j);
      var neighbor := nbs[j];
      if neighbor !in visited {
        if kind == BFS {
          q := [neighbor] + q;
        } else {
          q := q + [neighbor];
        }
      }
    }
    assert nbs[..|nbs|] == nbs;
    PushedHas(queue, nbs, visited, kind);
  }

  /** The deque after the pushes holds what it held and the unvisited neighbours. */
  lemma PushedHas(queue: seq<int>, nbs: seq<int>, visited: set<int>, kind: SearchKind)
    ensures forall x :: x in Pushed(queue, Unvisited(nbs, visited), kind) <==> x in queue || (x in nbs && x !in visited)
  {
    forall x
      ensures x in Pushed(queue, Unvisited(nbs, visited), kind) <==> x in queue || (x in nbs && x !in visited)
    {
      ReverseHas(Unvisited(nbs, visited), x);
      UnvisitedHas(nbs, visited, x);
    }
  }

  /**
   * What `_search` keeps true between pops: the visited vertices are those
   * listed, each once and the start first; everything visited or queued
   * is a key or the start and is reachable from the start; and every
   * neighbour of a visited vertex is visited or queued.
   */
  ghost predicate Searching(adj: map<int, set<int>>, start: int, visited: set<int>, queue: seq<int>, r: seq<int>) {
    (forall v :: v in visited || v in queue ==> v in adj || v == start) &&
    Distinct(r) && (forall v :: v in r <==> v in visited) &&
    (visited == {} ==> queue == [start] && r == []) &&
    (visited != {} ==> |r| > 0 && r[0] == start) &&
    (forall v :: v in visited || v in queue ==> Reaches(adj, start, v)) &&
    (forall v, w :: v in visited && w in Succ(adj, v) ==> w in visited || w in queue)
  }

  /** Popping a visited vertex keeps the search state. */
  lemma SkipStep(adj: map<int, set<int>>, start: int, visited: set<int>, queue: seq<int>, r: seq<int>)
    requires Searching(adj, start, visited, queue, r) && queue != [] && queue[|queue| - 1] in visited
    ensures Searching(adj, start, visited, queue[..|queue| - 1], r)
  {
    var rest := queue[..|queue| - 1];
    assert queue == rest + [queue[|queue| - 1]];
    assert forall v :: v in queue ==> v in rest || v == queue[|queue| - 1];
  }

  /**
   * Visiting the popped vertex, listing it and queueing its unvisited
   * neighbours keeps the search state, with one more vertex visited.
   */
  lemma VisitStep(adj: map<int, set<int>>, start: int, visited: set<int>, queue: seq<int>, r: seq<int>, q: seq<int>)
    requires IsAdjacency(adj) && Searching(adj, start, visited, queue, r) && queue != []
    requires queue[|queue| - 1] !in visited
    requires var x, rest := queue[|queue| - 1], queue[..|queue| - 1];
      forall y :: y in q <==> y in rest || (y in Succ(adj, x) && y !in visited + {x})
    ensures Searching(adj, start, visited + {queue[|queue| - 1]}, q, r + [queue[|queue| - 1]])
  {
    var x, rest := queue[|queue| - 1], queue[..|queue| - 1];
    assert queue == rest + [x];
    assert x in queue;
    forall v | v in visited + {x} || v in q
      ensures (v in adj || v == start) && Reaches(adj, start, v)
    {
      if v in q && v !in rest && v != x {
        ReachesStep(adj, start, x, v);
        assert v in adj[x];
      }
    }
    var r' := r + [x];
    assert r'[..|r|] == r;
    assert visited == {} ==> x == start;
  }

  /**
   * The loop of `_search` on a fixed neighbour map: pop the right end of
   * the deque, skip a visited vertex, otherwise visit it and push its
   * unvisited neighbours.
   */
  method Traverse(adj: map<int, set<int>>, start: int, kind: SearchKind) returns (r: seq<int>)
    requires IsAdjacency(adj)
    ensures |r| > 0 && r[0] == start && Distinct(r)
    ensures forall v :: v in r <==> Reaches(adj, start, v)
  {
    var visited: set<int> := {};
    var queue := [start];
    r := [];
    ghost var universe := adj.Keys + {start};
    while queue != []
      invariant Searching(adj, start, visited, queue, r) && visited <= universe
      decreases |universe - visited|, |queue|
    {
      var vertex := queue[|queue| - 1];
      if vertex in visited {
        SkipStep(adj, start, visited, queue, r);
        queue := queue[..|queue| - 1];
        continue;
      }
      var nbs := Enumerate(Succ(adj, vertex));
      var q := Push(queue[..|queue| - 1], nbs, visited + {vertex}, kind);
      VisitStep(adj, start, visited, queue, r, q);
      assert vertex in universe - visited;
      visited, queue, r := visited + {vertex}, q, r + [vertex];
    }
    SearchDone(adj, start, visited, r);
  }

  /** With the deque empty the visited set is closed, so it holds every reachable vertex. */
  lemma SearchDone(adj: map<int, set<int>>, start: int, visited: set<int>, r: seq<int>)
    requires Searching(adj, start, visited, [], r)
    ensures |r| > 0 && r[0] == start && Distinct(r)
    ensures forall v :: v in r <==> Reaches(adj, start, v)
  {
    assert Closed(adj, iset v | v in visited);
  }

  /** A heap entry `(weight, (u, v))`. */
  datatype Entry = Entry(w: int, u: int, v: int)

  /** Python's order on `(weight, (u, v))` tuples: by weight, then u, then v. */
  predicate Le(a: Entry, b: Entry) {
    a.w < b.w || (a.w == b.w && (a.u < b.u || (a.u == b.u && a.v <= b.v)))
  }

  /** x is an entry of the heap that no other entry precedes. */
  ghost predicate IsLeast(x: Entry, bag: multiset<Entry>) {
    x in bag && forall y :: y in bag ==> Le(x, y)
  }

  /** A non-empty multiset of entries has an element. */
  lemma Occupied(bag: multiset<Entry>)
    ensures bag != multiset{} ==> exists x :: x in bag
  {
    if forall x :: x !in bag {
      assert bag == multiset{};
    }
  }

  /** A non-empty heap has a least entry. */
  lemma {:induction false} LeastExists(bag: multiset<Entry>)
    requires bag != multiset{}
    ensures exists x :: IsLeast(x, bag)
    decreases |bag|
  {
    Occupied(bag);
    var z :| z in bag;
    var rest := bag - multiset{z};
    assert forall y :: y != z ==> rest[y] == bag[y];
    assert forall y :: y in bag ==> y == z || y in rest;
    if rest == multiset{} {
      assert IsLeast(z, bag);
    } else {
      LeastExists(rest);
      var m :| IsLeast(m, rest);
      if Le(z, m) {
        assert IsLeast(z, bag);
      } else {
        assert IsLeast(m, bag);
      }
    }
  }

  /** What `heappop` returns: the least entry. */
  ghost function Least(bag: multiset<Entry>): (x: Entry)
    requires bag != multiset{}
    ensures IsLeast(x, bag)
  {
    LeastExists(bag);
    var x :| IsLeast(x, bag);
    x
  }

  /** The order is antisymmetric, so the least entry is unique. */
  lemma LeastUnique(bag: multiset<Entry>, x: Entry)
    requires IsLeast(x, bag)
    ensures x == Least(bag)
  {
    var m := Least(bag);
    assert Le(x, m) && Le(m, x);
  }

  /**
   * `heappop(queue)`: the least entry and the heap without it. The heap
   * layout is not modelled; the list is scanned for its least entry.
   */
  method PopLeast(queue: seq<Entry>) returns (e: Entry, rest: seq<Entry>)
    requires queue != []
    ensures e == Least(multiset(queue)) && multiset(rest) == multiset(queue) - multiset{e}
  {
    var best := 0;
    for k := 1 to |queue|
      invariant 0 <= best < |queue| && forall l :: 0 <= l < k ==> Le(queue[best], queue[l])
    {
      if !Le(queue[best], queue[k]) {
        best := k;
      }
    }
    e := queue[best];
    rest := queue[..best] + queue[best + 1..];
    assert queue == queue[..best] + [e] + queue[best + 1..];
    forall y | y in multiset(queue)
      ensures Le(e, y)
    {
      var l :| 0 <= l < |queue| && queue[l] == y;
    }
    LeastUnique(multiset(queue), e);
  }

  /** b is a neighbour of a exactly when a is a neighbour of b. */
  ghost predicate Symmetric(adj: map<int, set<int>>) {
    forall a, b :: b in Succ(adj, a) ==> a in Succ(adj, b)
  }

  /** Reachability in a symmetric neighbour map runs both ways. */
  lemma ReachesBack(adj: map<int, set<int>>, a: int, b: int)
    requires Symmetric(adj) && Reaches(adj, a, b)
    ensures Reaches(adj, b, a)
  {
    forall C | Closed(adj, C) && b in C
      ensures a in C
    {
      var D := iset x | x !in C;
      assert Closed(adj, D) by {
        forall v, w | v in D && w in Succ(adj, v)
          ensures w in D
        {
          assert v in Succ(adj, w);
        }
      }
      assert a in D ==> b in D;
    }
  }

  /** Reachability chains. */
  lemma ReachesChain(adj: map<int, set<int>>, a: int, b: int, c: int)
    requires Reaches(adj, a, b) && Reaches(adj, b, c)
    ensures Reaches(adj, a, c)
  {
  }

  /** The edge list of taken heap entries. */
  function Ends(taken: seq<Entry>): (es: seq<(int, int)>)
    ensures |es| == |taken| && forall k :: 0 <= k < |taken| ==> es[k] == (taken[k].u, taken[k].v)
  {
    seq(|taken|, k requires 0 <= k < |taken| => (taken[k].u, taken[k].v))
  }

  /** A built graph is symmetric. */
  lemma BuiltIsSymmetric(edges: seq<(int, int)>)
    ensures Symmetric(Adjacency(edges))
  {
    AdjacencyIsSymmetric(edges);
  }

  /** Taking one more edge keeps every path and joins its two ends. */
  lemma ReachesGrow(taken: seq<Entry>, e: Entry, a: int, b: int)
    ensures Reaches(Adjacency(Ends(taken)), a, b) ==> Reaches(Adjacency(Ends(taken + [e])), a, b)
    ensures Reaches(Adjacency(Ends(taken + [e])), e.u, e.v)
  {
    var s, s' := Ends(taken), Ends(taken + [e]);
    assert s' == s + [(e.u, e.v)];
    AdjacencySnoc(s, e.u, e.v);
    var small, big := Adjacency(s), Adjacency(s');
    assert forall x :: Succ(small, x) <= Succ(big, x);
    forall C | Closed(big, C)
      ensures Closed(small, C)
    {
    }
  }

  /** The classes in use. */
  function Classes(group: map<int, int>): set<int> {
    set x | x in group :: group[x]
  }

  /**
   * The loop of `kruskal` on the heap `bag`, the UnionFind sets given as
   * class labels: pop the least entry; skip it when its ends share a
   * class, otherwise merge the two classes and take the edge. The loop
   * stops once `target` edges are taken, and `heappop` on an empty heap
   * raises IndexError.
   */
  ghost function KruskalRun(bag: multiset<Entry>, group: map<int, int>, taken: seq<Entry>, target: int): Result<seq<Entry>>
    requires forall e :: e in bag ==> e.u in group && e.v in group
    decreases |bag|
  {
    if |taken| == target then Success(taken)
    else if bag == multiset{} then Failure(IndexError)
    else
      var e := Least(bag);
      var rest := bag - multiset{e};
      if group[e.u] == group[e.v] then KruskalRun(rest, group, taken, target)
      else KruskalRun(rest, Unionfind.Merged(group, group[e.v], group[e.u]), taken + [e], target)
  }

  /**
   * What holds between pops of `kruskal` on a graph whose edges are the
   * entries E: the heap holds unpopped entries of E once each; the taken
   * entries come from E, are no longer in the heap and are different
   * edges; every popped entry has both ends in one class; each taken edge
   * merged two classes; and vertices of one class are joined by taken edges.
   */
  ghost predicate KruskalInv(adj: map<int, set<int>>, E: set<Entry>, bag: multiset<Entry>, group: map<int, int>, taken: seq<Entry>) {
    (forall e :: e in bag ==> e in E && bag[e] == 1) &&
    (forall e :: e in E ==> e.u in group && e.v in group && e.v in Succ(adj, e.u)) &&
    (forall k :: 0 <= k < |taken| ==> taken[k] in E && taken[k] !in bag) &&
    DistinctPairs(Ends(taken)) &&
    (forall e :: e in E && e !in bag ==> group[e.u] == group[e.v]) &&
    |Classes(group)| + |taken| == |group| &&
    (forall x, y :: x in group && y in group && group[x] == group[y] ==> Reaches(Adjacency(Ends(taken)), x, y))
  }

  /** Merging two different classes leaves one class fewer. */
  lemma RelabelMerges(group: map<int, int>, a: int, b: int)
    requires a in group && b in group && group[a] != group[b]
    ensures Classes(Unionfind.Merged(group, group[b], group[a])) == Classes(group) - {group[b]}
    ensures |Classes(Unionfind.Merged(group, group[b], group[a]))| == |Classes(group)| - 1
  {
    var merged := Unionfind.Merged(group, group[b], group[a]);
    forall c | c in Classes(group) - {group[b]}
      ensures c in Classes(merged)
    {
      var x :| x in group && group[x] == c;
      assert merged[x] == c;
    }
    forall c | c in Classes(merged)
      ensures c in Classes(group) - {group[b]}
    {
      var x :| x in merged && merged[x] == c;
      if group[x] == group[b] {
        assert c == group[a] == merged[a];
      }
    }
    assert group[b] in Classes(group);
  }

  /** After taking edge e, two vertices of one merged class are joined by taken edges. */
  lemma JoinedAfterTake(group: map<int, int>, taken: seq<Entry>, e: Entry, x: int, y: int)
    requires forall x, y :: x in group && y in group && group[x] == group[y] ==> Reaches(Adjacency(Ends(taken)), x, y)
    requires e.u in group && e.v in group && group[e.u] != group[e.v] && x in group && y in group
    requires var merged := Unionfind.Merged(group, group[e.v], group[e.u]); merged[x] == merged[y]
    ensures Reaches(Adjacency(Ends(taken + [e])), x, y)
  {
    var big := Adjacency(Ends(taken + [e]));
    ReachesGrow(taken, e, x, y);
    if group[x] != group[y] {
      BuiltIsSymmetric(Ends(taken + [e]));
      var a, b := if group[x] == group[e.v] then x else y, if group[x] == group[e.v] then y else x;
      assert group[a] == group[e.v] && group[b] == group[e.u];
      ReachesGrow(taken, e, a, e.v);
      ReachesGrow(taken, e, b, e.u);
      ReachesBack(big, e.u, e.v);
      ReachesBack(big, b, e.u);
      ReachesChain(big, a, e.v, e.u);
      ReachesChain(big, a, e.u, b);
      if a == y {
        ReachesBack(big, a, b);
      }
    }
  }

  /** Popping an entry whose ends share a class keeps the loop invariant. */
  lemma KruskalSkip(adj: map<int, set<int>>, E: set<Entry>, bag: multiset<Entry>, group: map<int, int>, taken: seq<Entry>, e: Entry)
    requires KruskalInv(adj, E, bag, group, taken) && e in bag && group[e.u] == group[e.v]
    ensures KruskalInv(adj, E, bag - multiset{e}, group, taken)
  {
    var rest := bag - multiset{e};
    assert forall f :: f in rest ==> f in bag && f != e;
  }

  /** An entry whose ends lie in two classes is an edge not yet taken. */
  lemma TakeIsNew(E: set<Entry>, bag: multiset<Entry>, group: map<int, int>, taken: seq<Entry>, e: Entry)
    requires DistinctPairs(Ends(taken)) && forall k :: 0 <= k < |taken| ==> taken[k] in E && taken[k] !in bag
    requires forall f :: f in E ==> f.u in group && f.v in group
    requires forall f :: f in E && f !in bag ==> group[f.u] == group[f.v]
    requires e.u in group && e.v in group && group[e.u] != group[e.v]
    ensures DistinctPairs(Ends(taken + [e]))
  {
    var es, es' := Ends(taken), Ends(taken + [e]);
    forall i, j | 0 <= i < j < |es'|
      ensures Pair(es'[i].0, es'[i].1) != Pair(es'[j].0, es'[j].1)
    {
      if j == |taken| {
        var f := taken[i];
        assert group[f.u] == group[f.v];
        assert Pair(f.u, f.v) == Pair(e.u, e.v) ==> (f.u == e.u && f.v == e.v) || (f.u == e.v && f.v == e.u);
      } else {
        assert es'[i] == es[i] && es'[j] == es[j];
      }
    }
  }

  /** Taking an entry whose ends lie in two classes, and merging them, keeps the loop invariant. */
  lemma KruskalTake(adj: map<int, set<int>>, E: set<Entry>, bag: multiset<Entry>, group: map<int, int>, taken: seq<Entry>, e: Entry)
    requires KruskalInv(adj, E, bag, group, taken) && e in bag && group[e.u] != group[e.v]
    ensures KruskalInv(adj, E, bag - multiset{e}, Unionfind.Merged(group, group[e.v], group[e.u]), taken + [e])
  {
    var rest, merged := bag - multiset{e}, Unionfind.Merged(group, group[e.v], group[e.u]);
    assert forall f :: f in rest ==> f in bag && f != e;
    forall f | f in E && f !in rest
      ensures merged[f.u] == merged[f.v]
    {
      if f != e {
        assert f !in bag;
      }
    }
    RelabelMerges(group, e.u, e.v);
    TakeIsNew(E, bag, group, taken, e);
    assert merged.Keys == group.Keys;
    forall x, y | x in merged && y in merged && merged[x] == merged[y]
      ensures Reaches(Adjacency(Ends(taken + [e])), x, y)
    {
      JoinedAfterTake(group, taken, e, x, y);
    }
  }

  /** The unordered pairs of a set of heap entries. */
  function EntryPairs(E: set<Entry>): set<set<int>> {
    set e | e in E :: Pair(e.u, e.v)
  }

  /**
   * What Kruskal's loop delivers over vertices V: either |V| - 1 entries of
   * E joining every two vertices of V, or an IndexError from popping an
   * empty heap, which happens only when V is empty or not connected.
   */
  ghost predicate Spans(adj: map<int, set<int>>, E: set<Entry>, V: set<int>, r: Result<seq<Entry>>) {
    (r.Success? ==>
      |r.value| == |V| - 1 && (forall k :: 0 <= k < |r.value| ==> r.value[k] in E) && DistinctPairs(Ends(r.value)) &&
      forall x, y :: x in V && y in V ==> Reaches(Adjacency(Ends(r.value)), x, y)) &&
    (r.Failure? ==>
      r.error == IndexError && (V == {} || exists x, y :: x in V && y in V && !Reaches(adj, x, y)))
  }

  /** A set with one element holds nothing else. */
  lemma Singleton(S: set<int>, a: int, b: int)
    requires |S| == 1 && a in S && b in S
    ensures a == b
  {
    assert |S - {a}| == 0;
    assert b in S - {a} || b == a;
  }

  /**
   * With every entry popped and the ends of each in one class, two or more
   * classes left mean two vertices that no path joins.
   */
  lemma KruskalStuck(adj: map<int, set<int>>, E: set<Entry>, group: map<int, int>, taken: seq<Entry>)
    requires KruskalInv(adj, E, multiset{}, group, taken) && IsAdjacency(adj) && group.Keys == adj.Keys
    requires EdgePairs(adj) <= EntryPairs(E) && |taken| != |group| - 1
    ensures group.Keys == {} || exists x, y :: x in group && y in group && !Reaches(adj, x, y)
  {
    if group.Keys != {} {
      Inhabited(group.Keys);
      var x0 :| x0 in group.Keys;
      var c0 := group[x0];
      assert c0 in Classes(group);
      assert |Classes(group) - {c0}| == |Classes(group)| - 1;
      Inhabited(Classes(group) - {c0});
      var c1 :| c1 in Classes(group) - {c0};
      var y :| y in group && group[y] == c1;
      var C := iset v | v in group && group[v] == c0;
      forall v, w | v in C && w in Succ(adj, v)
        ensures w in C
      {
        assert Pair(v, w) in EdgePairs(adj);
        assert Pair(v, w) in EntryPairs(E);
        var e :| e in E && Pair(e.u, e.v) == Pair(v, w);
        assert e.u == v || e.u == w;
      }
      assert Closed(adj, C);
      assert !Reaches(adj, x0, y);
    }
  }

  /** Kruskal's loop, run from any state meeting the invariant, spans or fails as `Spans` says. */
  lemma {:induction false} KruskalOutcome(adj: map<int, set<int>>, E: set<Entry>, bag: multiset<Entry>, group: map<int, int>, taken: seq<Entry>, target: int)
    requires KruskalInv(adj, E, bag, group, taken) && IsAdjacency(adj) && group.Keys == adj.Keys
    requires EdgePairs(adj) <= EntryPairs(E) && target == |group| - 1
    ensures Spans(adj, E, group.Keys, KruskalRun(bag, group, taken, target))
    decreases |bag|
  {
    var r := KruskalRun(bag, group, taken, target);
    if |taken| == target {
      forall x, y | x in group.Keys && y in group.Keys
        ensures Reaches(Adjacency(Ends(taken)), x, y)
      {
        assert group[x] in Classes(group) && group[y] in Classes(group);
        Singleton(Classes(group), group[x], group[y]);
      }
    } else if bag == multiset{} {
      KruskalStuck(adj, E, group, taken);
    } else {
      var e := Least(bag);
      var rest := bag - multiset{e};
      if group[e.u] == group[e.v] {
        KruskalSkip(adj, E, bag, group, taken, e);
        KruskalOutcome(adj, E, rest, group, taken, target);
      } else {
        var merged := Unionfind.Merged(group, group[e.v], group[e.u]);
        KruskalTake(adj, E, bag, group, taken, e);
        assert merged.Keys == group.Keys;
        KruskalOutcome(adj, E, rest, merged, taken + [e], target);
      }
    }
  }

  /** The graph of taken entries lies inside the graph they were taken from. */
  lemma {:induction false} TakenWithin(adj: map<int, set<int>>, taken: seq<Entry>, x: int)
    requires IsAdjacency(adj) && forall k :: 0 <= k < |taken| ==> taken[k].v in Succ(adj, taken[k].u)
    ensures Succ(Adjacency(Ends(taken)), x) <= Succ(adj, x)
  {
    if taken != [] {
      var init, e := taken[..|taken| - 1], taken[|taken| - 1];
      TakenWithin(adj, init, x);
      assert e.v in Succ(adj, e.u);
      assert e.u in adj[e.v];
      assert Ends(taken) == Ends(init) + [(e.u, e.v)];
      var small := Adjacency(Ends(init));
      AdjacencySnoc(Ends(init), e.u, e.v);
      var once := Link(small, e.u, e.v);
      assert Succ(once, x) == Succ(small, x) + (if x == e.u then {e.v} else {});
      assert Succ(Link(once, e.v, e.u), x) == Succ(once, x) + (if x == e.v then {e.u} else {});
    }
  }

  /** A path in a sub-graph is a path in the graph. */
  lemma ReachesWithin(small: map<int, set<int>>, big: map<int, set<int>>, a: int, b: int)
    requires forall x :: Succ(small, x) <= Succ(big, x)
    ensures Reaches(small, a, b) ==> Reaches(big, a, b)
  {
    forall C | Closed(big, C)
      ensures Closed(small, C)
    {
    }
  }

  /**
   * Every edge of the graph carries a weight. The model asks this of
   * `kruskal` and `minimum_spanning_tree`; Python also runs them on a graph
   * without any weights, where the `None` weights tie and the vertex pairs
   * decide the order.
   */
  ghost predicate AllWeighted(adj: map<int, set<int>>, weights: map<set<int>, Option<int>>) {
    forall u, v :: u in adj && v in adj[u] ==> Lookup(weights, Pair(u, v)).Some?
  }

  /**
   * The entries `(w, (u, v))` Kruskal's heap starts with: each weighted edge
   * once, listed from the key inserted first, as `edges` lists it.
   */
  function HeapEntries(adj: map<int, set<int>>, order: seq<int>, weights: map<set<int>, Option<int>>): (E: set<Entry>)
    ensures forall e :: e in E ==> e.u in adj && e.v in adj[e.u] && Earlier(order, e.u, e.v)
    ensures forall e :: e in E ==> Lookup(weights, Pair(e.u, e.v)) == Some(e.w)
  {
    set u, v | u in adj && v in adj[u] && Earlier(order, u, v) && Lookup(weights, Pair(u, v)).Some? ::
      Entry(Lookup(weights, Pair(u, v)).value, u, v)
  }

  /** `UnionFind(list(self._edges.keys()))`: every vertex alone in its class. */
  function Singletons(adj: map<int, set<int>>): (group: map<int, int>)
    ensures group.Keys == adj.Keys && forall x :: x in group ==> group[x] == x
  {
    map x | x in adj :: x
  }

  /** The weights of taken entries, in order. */
  function TakenWeights(taken: seq<Entry>): (ws: seq<Option<int>>)
    ensures |ws| == |taken| && forall k :: 0 <= k < |taken| ==> ws[k] == Some(taken[k].w)
  {
    seq(|taken|, k requires 0 <= k < |taken| => Some(taken[k].w))
  }

  /** A graph with at least one key in which every two keys are joined by a path. */
  ghost predicate Connected(adj: map<int, set<int>>) {
    adj != map[] && forall x, y :: x in adj && y in adj ==> Reaches(adj, x, y)
  }

  /**
   * `tree` with weights `treeWeights` is a spanning tree of `adj`: its edges
   * are edges of `adj` with their weights, it has one edge fewer than `adj`
   * has vertices, and it joins every two vertices of `adj`.
   */
  ghost predicate IsSpanningTree(tree: map<int, set<int>>, treeWeights: map<set<int>, Option<int>>, adj: map<int, set<int>>, weights: map<set<int>, Option<int>>) {
    (forall x :: Succ(tree, x) <= Succ(adj, x)) &&
    treeWeights == Restrict(weights, EdgePairs(tree)) &&
    |EdgePairs(tree)| == |adj| - 1 &&
    forall x, y :: x in adj && y in adj ==> Reaches(tree, x, y)
  }

  /** Of two different keys, one is listed before the other. */
  lemma EitherEarlier(order: seq<int>, u: int, v: int)
    requires u in order && v in order && u != v
    ensures Earlier(order, u, v) || Earlier(order, v, u)
  {
    assert order[IndexOf(order, u)] == u && order[IndexOf(order, v)] == v;
  }

  /** An unordered pair is listed from its earlier key in one way only. */
  lemma Oriented(order: seq<int>, a: int, b: int, c: int, d: int)
    requires Earlier(order, a, b) && Earlier(order, c, d) && Pair(a, b) == Pair(c, d)
    ensures a == c && b == d
  {
    assert (a == c && b == d) || (a == d && b == c);
  }

  /** Every edge of the graph is the pair of some heap entry. */
  lemma HeapCovers(adj: map<int, set<int>>, order: seq<int>, weights: map<set<int>, Option<int>>)
    requires (forall v :: v in order <==> v in adj) && IsAdjacency(adj) && AllWeighted(adj, weights)
    ensures EdgePairs(adj) <= EntryPairs(HeapEntries(adj, order, weights))
  {
    var E := HeapEntries(adj, order, weights);
    forall p | p in EdgePairs(adj)
      ensures p in EntryPairs(E)
    {
      var u, v :| u in adj && v in adj[u] && p == Pair(u, v);
      EitherEarlier(order, u, v);
      var a, b := if Earlier(order, u, v) then u else v, if Earlier(order, u, v) then v else u;
      assert Pair(a, b) == p && b in adj[a] && Earlier(order, a, b);
      var e := Entry(Lookup(weights, Pair(a, b)).value, a, b);
      assert e in E;
    }
  }

  /** Kruskal's loop starts in a state meeting its invariant. */
  lemma KruskalStart(adj: map<int, set<int>>, order: seq<int>, weights: map<set<int>, Option<int>>)
    requires IsAdjacency(adj)
    ensures KruskalInv(adj, HeapEntries(adj, order, weights), multiset(HeapEntries(adj, order, weights)), Singletons(adj), [])
  {
    var E, group := HeapEntries(adj, order, weights), Singletons(adj);
    assert Classes(group) == adj.Keys;
    forall x | x in group
      ensures Reaches(Adjacency(Ends([])), x, x)
    {
    }
  }

  /** Each element of a list without repeats occurs once in its multiset. */
  lemma {:induction false} CountOnce(q: seq<Entry>, e: Entry)
    requires Distinct(q)
    ensures multiset(q)[e] == if e in q then 1 else 0
  {
    if q != [] {
      var init := q[..|q| - 1];
      assert q == init + [q[|q| - 1]];
      assert Distinct(init);
      CountOnce(init, e);
    }
  }

  /** The heap `kruskal` builds from a graph's weighted edge listing. */
  function Queued(r: seq<((int, int), Option<int>)>): (q: seq<Entry>)
    requires forall k :: 0 <= k < |r| ==> r[k].1.Some?
    ensures |q| == |r| && forall k :: 0 <= k < |r| ==> q[k] == Entry(r[k].1.value, r[k].0.0, r[k].0.1)
  {
    seq(|r|, k requires 0 <= k < |r| => Entry(r[k].1.value, r[k].0.0, r[k].0.1))
  }

  /**
   * The body of `kruskal` after the edge listing: heap the weighted edges,
   * run the union-find loop, and build the graph of the taken edges.
   */
  method KruskalFrom(adj: map<int, set<int>>, order: seq<int>, weights: map<set<int>, Option<int>>, listed: seq<((int, int), Option<int>)>)
    returns (r: Result<UndirectedGraph>)
    requires Distinct(order) && (forall v :: v in order <==> v in adj) && IsAdjacency(adj) && AllWeighted(adj, weights)
    requires Forward(adj, order, Firsts(listed)) && DistinctPairs(Firsts(listed)) && PairsOf(Firsts(listed)) == EdgePairs(adj)
    requires forall k :: 0 <= k < |listed| ==> listed[k].1 == Lookup(weights, Pair(listed[k].0.0, listed[k].0.1))
    ensures var run := KruskalRun(multiset(HeapEntries(adj, order, weights)), Singletons(adj), [], |adj| - 1);
      (r.Failure? <==> run.Failure?) && (r.Failure? ==> r.error == run.error) &&
      (r.Success? ==>
        fresh(r.value) && r.value.Valid() && r.value.adj == Adjacency(Ends(run.value)) &&
        r.value.weights == WeightMap(Ends(run.value), TakenWeights(run.value)))
    ensures r.Failure? <==> !Connected(adj)
    ensures r.Failure? ==> r.error == IndexError
    ensures r.Success? ==> IsSpanningTree(r.value.adj, r.value.weights, adj, weights)
  {
    ghost var run := KruskalRun(multiset(HeapEntries(adj, order, weights)), Singletons(adj), [], |adj| - 1);
    KruskalTree(adj, order, weights);
    var queue := KruskalQueue(adj, order, weights, listed);
    var result := KruskalTaken(adj, order, queue);
    assert result == run;
    if result.Failure? {
      return Failure(result.error);
    }
    var taken := result.value;
    var tree := TreeGraph(taken);
    r := Success(tree);
  }

  /** The graph `kruskal` returns: the taken edges with their weights. */
  method TreeGraph(taken: seq<Entry>) returns (g: UndirectedGraph)
    ensures fresh(g) && g.Valid() && g.adj == Adjacency(Ends(taken))
    ensures g.weights == WeightMap(Ends(taken), TakenWeights(taken))
  {
    g := new UndirectedGraph(Ends(taken), TakenWeights(taken));
    if taken == [] {
      assert WeightMap(Ends(taken), TakenWeights(taken)) == map[];
    }
  }

  /** The union-find `kruskal` starts from, one set per vertex, and the loop run on it. */
  method KruskalTaken(adj: map<int, set<int>>, order: seq<int>, queue: seq<Entry>) returns (r: Result<seq<Entry>>)
    requires Distinct(order) && (forall v :: v in order <==> v in adj) && EndsIn(multiset(queue), Singletons(adj))
    ensures r == KruskalRun(multiset(queue), Singletons(adj), [], |adj| - 1)
  {
    var uf := new Unionfind.UnionFind(order);
    Fresh(uf, order, adj);
    r := KruskalLoop(uf, queue, |adj| - 1, Singletons(adj));
  }

  /** The heap `kruskal` builds from the weighted edge listing. */
  method KruskalQueue(adj: map<int, set<int>>, order: seq<int>, weights: map<set<int>, Option<int>>, listed: seq<((int, int), Option<int>)>)
    returns (queue: seq<Entry>)
    requires Distinct(order) && (forall v :: v in order <==> v in adj) && IsAdjacency(adj) && AllWeighted(adj, weights)
    requires Forward(adj, order, Firsts(listed)) && DistinctPairs(Firsts(listed)) && PairsOf(Firsts(listed)) == EdgePairs(adj)
    requires forall k :: 0 <= k < |listed| ==> listed[k].1 == Lookup(weights, Pair(listed[k].0.0, listed[k].0.1))
    ensures multiset(queue) == multiset(HeapEntries(adj, order, weights))
    ensures EndsIn(multiset(queue), Singletons(adj))
  {
    forall k | 0 <= k < |listed|
      ensures listed[k].1.Some?
    {
      assert Firsts(listed)[k] == listed[k].0;
    }
    QueueIsHeap(adj, order, weights, listed);
    queue := Queued(listed);
    HeapEndsIn(adj, order, weights);
  }

  /** Every heap entry has both ends among the vertices. */
  lemma HeapEndsIn(adj: map<int, set<int>>, order: seq<int>, weights: map<set<int>, Option<int>>)
    requires IsAdjacency(adj)
    ensures EndsIn(multiset(HeapEntries(adj, order, weights)), Singletons(adj))
  {
  }

  /** The heap built from the edge listing holds exactly the heap entries of the graph, each once. */
  lemma QueueIsHeap(adj: map<int, set<int>>, order: seq<int>, weights: map<set<int>, Option<int>>, r: seq<((int, int), Option<int>)>)
    requires Distinct(order) && (forall v :: v in order <==> v in adj) && IsAdjacency(adj)
    requires Forward(adj, order, Firsts(r)) && DistinctPairs(Firsts(r)) && PairsOf(Firsts(r)) == EdgePairs(adj)
    requires forall k :: 0 <= k < |r| ==> r[k].1 == Lookup(weights, Pair(r[k].0.0, r[k].0.1)) && r[k].1.Some?
    ensures multiset(Queued(r)) == multiset(HeapEntries(adj, order, weights))
  {
    var q, E, es := Queued(r), HeapEntries(adj, order, weights), Firsts(r);
    forall k | 0 <= k < |q|
      ensures q[k] in E
    {
      assert es[k] == r[k].0;
    }
    forall e | e in E
      ensures e in q
    {
      assert Pair(e.u, e.v) in PairsOf(es);
      var k :| 0 <= k < |es| && Pair(es[k].0, es[k].1) == Pair(e.u, e.v);
      Oriented(order, es[k].0, es[k].1, e.u, e.v);
      assert q[k] == e;
    }
    forall i, j | 0 <= i < j < |q|
      ensures q[i] != q[j]
    {
      assert Pair(es[i].0, es[i].1) != Pair(es[j].0, es[j].1);
    }
    forall e
      ensures multiset(q)[e] == multiset(E)[e]
    {
      CountOnce(q, e);
    }
  }

  /** With every edge weighted, reading the weight of every edge inserts nothing. */
  lemma DefaultsPresent(adj: map<int, set<int>>, weights: map<set<int>, Option<int>>)
    requires AllWeighted(adj, weights)
    ensures WithDefaults(weights, EdgePairs(adj)) == weights
  {
    forall p | p in EdgePairs(adj)
      ensures p in weights
    {
      var u, v :| u in adj && v in adj[u] && p == Pair(u, v);
      assert Lookup(weights, Pair(u, v)).Some?;
    }
  }

  /** The unordered edges of a built graph are the pairs of its kept edges. */
  lemma BuiltPairs(edges: seq<(int, int)>)
    ensures EdgePairs(Adjacency(edges)) == EdgeSet(edges)
  {
    var a := Adjacency(edges);
    forall p | p in EdgePairs(a)
      ensures p in EdgeSet(edges)
    {
      var u, v :| u in a && v in a[u] && p == Pair(u, v);
      AdjacencyHas(edges, u, v);
    }
    forall p | p in EdgeSet(edges)
      ensures p in EdgePairs(a)
    {
      var k :| 0 <= k < |edges| && edges[k].0 != edges[k].1 && p == Pair(edges[k].0, edges[k].1);
      AdjacencyHas(edges, edges[k].0, edges[k].1);
    }
  }

  /** The key order of the path 0-1-2-3 built from its edges. */
  lemma PathKeyOrder(es: seq<(int, int)>)
    requires es == [(0, 1), (1, 2), (2, 3)]
    ensures KeyOrder(es) == [0, 1, 2, 3]
    ensures forall x :: x in KeyOrder(es) ==> IndexOf(KeyOrder(es), x) == x
  {
    assert es[..2][..1] == es[..1] == [(0, 1)] && es[..2] == [(0, 1), (1, 2)];
    assert KeyOrder(es[..1]) == [0, 1];
    assert KeyOrder(es[..2]) == [0, 1, 2];
    var order := [0, 1, 2, 3];
    assert IndexOf(order, 0) == 0;
    assert order[1..] == [1, 2, 3] && order[2..] == [2, 3] && order[3..] == [3];
  }

  /**
   * An edge listed forward on the path 0-1-2-3 joins a vertex x to x + 1,
   * for x one of 0, 1 and 2.
   */
  lemma PathEdge(es: seq<(int, int)>, u: int, v: int)
    requires es == [(0, 1), (1, 2), (2, 3)]
    requires v in Succ(Adjacency(es), u) && Earlier(KeyOrder(es), u, v)
    ensures 0 <= u <= 2 && v == u + 1
  {
    PathKeyOrder(es);
    AdjacencyHas(es, u, v);
    PathEdgeSet(es);
    assert u in Pair(u, v) && v in Pair(u, v);
  }

  /** The unordered edges of the path 0-1-2-3. */
  lemma PathEdgeSet(es: seq<(int, int)>)
    requires es == [(0, 1), (1, 2), (2, 3)]
    ensures EdgeSet(es) == EdgePairs(Adjacency(es)) == {Pair(0, 1), Pair(1, 2), Pair(2, 3)}
  {
    assert Pair(es[0].0, es[0].1) == Pair(0, 1);
    assert Pair(es[1].0, es[1].1) == Pair(1, 2);
    assert Pair(es[2].0, es[2].1) == Pair(2, 3);
    BuiltPairs(es);
  }

  /**
   * The `edges()` doctest: on the path 0-1-2-3, a listing that goes key by
   * key, each edge once and from its earlier end, is (0, 1), (1, 2), (2, 3).
   */
  lemma EdgesOfPath(es: seq<(int, int)>, r: seq<(int, int)>)
    requires es == [(0, 1), (1, 2), (2, 3)]
    requires Forward(Adjacency(es), KeyOrder(es), r) && DistinctPairs(r) && KeyByKey(KeyOrder(es), r)
    requires PairsOf(r) == EdgePairs(Adjacency(es))
    ensures r == [(0, 1), (1, 2), (2, 3)]
  {
    PathEdgeSet(es);
    PathSteps(es, r);
    PathKeysRise(es, r);
    PathListing(r);
  }

  /** Each edge of a forward listing on the path 0-1-2-3 goes from some x in 0..2 to x + 1. */
  lemma PathSteps(es: seq<(int, int)>, r: seq<(int, int)>)
    requires es == [(0, 1), (1, 2), (2, 3)] && Forward(Adjacency(es), KeyOrder(es), r)
    ensures forall k :: 0 <= k < |r| ==> 0 <= r[k].0 <= 2 && r[k].1 == r[k].0 + 1
  {
    forall k | 0 <= k < |r|
      ensures 0 <= r[k].0 <= 2 && r[k].1 == r[k].0 + 1
    {
      PathEdge(es, r[k].0, r[k].1);
    }
  }

  /** In a key-by-key listing on the path 0-1-2-3 with no edge twice, the keys rise strictly. */
  lemma PathKeysRise(es: seq<(int, int)>, r: seq<(int, int)>)
    requires es == [(0, 1), (1, 2), (2, 3)] && Forward(Adjacency(es), KeyOrder(es), r)
    requires DistinctPairs(r) && KeyByKey(KeyOrder(es), r)
    ensures forall a, b :: 0 <= a < b < |r| ==> r[a].0 < r[b].0
  {
    PathKeyOrder(es);
    PathSteps(es, r);
    forall a, b | 0 <= a < b < |r|
      ensures r[a].0 < r[b].0
    {
      assert Pair(r[a].0, r[a].1) != Pair(r[b].0, r[b].1);
    }
  }

  /**
   * The `edges(and_weights=True)` doctest: on the path 0-1-2-3 weighted 0,
   * 1 and 2, the listing reads (0, 1) -> 0, (1, 2) -> 1, (2, 3) -> 2.
   */
  lemma EdgesAndWeightsOfPath(es: seq<(int, int)>, ws: seq<Option<int>>, r: seq<((int, int), Option<int>)>)
    requires es == [(0, 1), (1, 2), (2, 3)] && ws == [Some(0), Some(1), Some(2)]
    requires Forward(Adjacency(es), KeyOrder(es), Firsts(r)) && DistinctPairs(Firsts(r)) && KeyByKey(KeyOrder(es), Firsts(r))
    requires PairsOf(Firsts(r)) == EdgePairs(Adjacency(es))
    requires forall k :: 0 <= k < |r| ==> r[k].1 == Lookup(WeightMap(es, ws), Pair(r[k].0.0, r[k].0.1))
    ensures r == [((0, 1), Some(0)), ((1, 2), Some(1)), ((2, 3), Some(2))]
  {
    EdgesOfPath(es, Firsts(r));
    assert |r| == 3 && Firsts(r)[0] == (0, 1) && Firsts(r)[1] == (1, 2) && Firsts(r)[2] == (2, 3);
    LastWeightWins(es, ws, 0);
    LastWeightWins(es, ws, 1);
    LastWeightWins(es, ws, 2);
  }

  /** Edges x to x + 1 with rising keys that cover the path 0-1-2-3 are its three edges in order. */
  lemma PathListing(r: seq<(int, int)>)
    requires forall k :: 0 <= k < |r| ==> 0 <= r[k].0 <= 2 && r[k].1 == r[k].0 + 1
    requires forall a, b :: 0 <= a < b < |r| ==> r[a].0 < r[b].0
    requires PairsOf(r) == {Pair(0, 1), Pair(1, 2), Pair(2, 3)}
    ensures r == [(0, 1), (1, 2), (2, 3)]
  {
    var k0 := PathCovers(r, 0);
    var k1 := PathCovers(r, 1);
    var k2 := PathCovers(r, 2);
    assert k0 == 0 && k1 == 1 && k2 == 2 by {
      assert r[0].0 >= 0 && r[1].0 >= 0 && r[2].0 >= 0;
    }
    assert |r| == 3 by {
      assert r[|r| - 1].0 <= 2;
    }
  }

  /** The edge x to x + 1 of the path is listed. */
  lemma PathCovers(r: seq<(int, int)>, x: int) returns (k: nat)
    requires forall k :: 0 <= k < |r| ==> 0 <= r[k].0 <= 2 && r[k].1 == r[k].0 + 1
    requires Pair(x, x + 1) in PairsOf(r)
    ensures k < |r| && r[k].0 == x
  {
    k :| 0 <= k < |r| && Pair(r[k].0, r[k].1) == Pair(x, x + 1);
    assert x in Pair(r[k].0, r[k].1);
  }

  /** In an edge list with no unordered edge twice, the n-th edge is none of the earlier ones. */
  lemma LastPairIsNew(es: seq<(int, int)>, n: nat)
    requires 0 < n <= |es| && DistinctPairs(es)
    ensures Pair(es[n - 1].0, es[n - 1].1) !in PairsOf(es[..n - 1])
  {
    var init := es[..n - 1];
    forall k | 0 <= k < n - 1
      ensures Pair(init[k].0, init[k].1) != Pair(es[n - 1].0, es[n - 1].1)
    {
      assert init[k] == es[k];
    }
  }

  /** An edge list with no unordered edge twice has as many pairs as edges. */
  lemma {:induction false} PairsCount(es: seq<(int, int)>, n: nat)
    requires n <= |es| && DistinctPairs(es)
    ensures |PairsOf(es[..n])| == n
  {
    if n > 0 {
      PairsCount(es, n - 1);
      PairsOfSnoc(es, n - 1);
      var p := Pair(es[n - 1].0, es[n - 1].1);
      var init := es[..n - 1];
      LastPairIsNew(es, n);
      assert |PairsOf(init) + {p}| == |PairsOf(init)| + 1;
      assert PairsOf(es[..n]) == PairsOf(init) + {p};
    } else {
      assert PairsOf(es[..0]) == {};
    }
  }

  /** The graph of the entries Kruskal's loop takes, when it spans, is a spanning tree of a connected graph. */
  lemma TreeOfTaken(adj: map<int, set<int>>, weights: map<set<int>, Option<int>>, E: set<Entry>, taken: seq<Entry>)
    requires IsAdjacency(adj)
    requires forall e :: e in E ==> e.u in adj && e.v in adj[e.u] && Lookup(weights, Pair(e.u, e.v)) == Some(e.w)
    requires |taken| == |adj.Keys| - 1 && DistinctPairs(Ends(taken)) && forall k :: 0 <= k < |taken| ==> taken[k] in E
    requires forall x, y :: x in adj.Keys && y in adj.Keys ==> Reaches(Adjacency(Ends(taken)), x, y)
    ensures IsSpanningTree(Adjacency(Ends(taken)), WeightMap(Ends(taken), TakenWeights(taken)), adj, weights)
    ensures Connected(adj)
  {
    var es, tree := Ends(taken), Adjacency(Ends(taken));
    forall x
      ensures Succ(tree, x) <= Succ(adj, x)
    {
      TakenWithin(adj, taken, x);
    }
    forall k | 0 <= k < |es|
      ensures es[k].0 != es[k].1
    {
      assert taken[k] in E;
    }
    WeightMapOfLookups(es, TakenWeights(taken), weights);
    BuiltPairs(es);
    assert EdgeSet(es) == PairsOf(es);
    PairsCount(es, |es|);
    assert es[..|es|] == es;
    assert adj != map[] by {
      assert |adj.Keys| >= 1;
    }
    forall x, y | x in adj && y in adj
      ensures Reaches(adj, x, y)
    {
      ReachesWithin(tree, adj, x, y);
    }
  }

  /**
   * Kruskal's algorithm on a graph whose edges all carry weights: it fails,
   * with an IndexError, exactly when the graph is empty or not connected,
   * and otherwise yields a spanning tree.
   */
  lemma KruskalTree(adj: map<int, set<int>>, order: seq<int>, weights: map<set<int>, Option<int>>)
    requires Distinct(order) && (forall v :: v in order <==> v in adj) && IsAdjacency(adj) && AllWeighted(adj, weights)
    ensures var run := KruskalRun(multiset(HeapEntries(adj, order, weights)), Singletons(adj), [], |adj| - 1);
      (run.Failure? <==> !Connected(adj)) && (run.Failure? ==> run.error == IndexError) &&
      (run.Success? ==> IsSpanningTree(Adjacency(Ends(run.value)), WeightMap(Ends(run.value), TakenWeights(run.value)), adj, weights))
  {
    var E, group := HeapEntries(adj, order, weights), Singletons(adj);
    var run := KruskalRun(multiset(E), group, [], |adj| - 1);
    KruskalStart(adj, order, weights);
    HeapCovers(adj, order, weights);
    assert |group| == |adj|;
    KruskalOutcome(adj, E, multiset(E), group, [], |adj| - 1);
    if run.Success? {
      TreeOfTaken(adj, weights, E, run.value);
    }
  }

  /** A fresh union-find over the keys keeps every key apart, as the labelling of singletons does. */
  lemma Fresh(uf: Unionfind.UnionFind<int>, order: seq<int>, adj: map<int, set<int>>)
    requires uf.Valid() && uf.parent == (map x | x in order :: x) && forall v :: v in order <==> v in adj
    ensures uf.Groups(Singletons(adj))
  {
    forall x
      ensures x in uf.parent <==> x in adj
    {
      assert x in uf.parent <==> x in order;
    }
    forall z | z in uf.parent
      ensures uf.Roots()[z] == z
    {
      assert uf.parent[z] == z;
    }
  }

  /** Every entry of `bag` has both ends classified by `group`. */
  ghost predicate EndsIn(bag: multiset<Entry>, group: map<int, int>) {
    forall e :: e in bag ==> e.u in group && e.v in group
  }

  /**
   * One pass of the `kruskal` loop: pop the least entry, and take it when
   * the union-find holds its ends in different sets, merging those sets.
   * The run from the new state is the run from the old one.
   */
  method KruskalPop(uf: Unionfind.UnionFind<int>, queue: seq<Entry>, taken: seq<Entry>, target: int, ghost classes: map<int, int>)
    returns (rest: seq<Entry>, taken': seq<Entry>, ghost classes': map<int, int>)
    requires uf.Valid() && uf.Groups(classes) && EndsIn(multiset(queue), classes)
    requires queue != [] && |taken| != target
    modifies uf
    ensures uf.Valid() && uf.Groups(classes') && EndsIn(multiset(rest), classes') && |rest| < |queue|
    ensures KruskalRun(multiset(rest), classes', taken', target) == KruskalRun(multiset(queue), classes, taken, target)
  {
    var e;
    e, rest := PopLeast(queue);
    assert |rest| == |multiset(rest)| == |multiset(queue)| - 1;
    KruskalRunStep(multiset(queue), multiset(rest), classes, taken, target);
    var joined := Consider(uf, e, classes);
    if joined {
      taken', classes' := taken + [e], Unionfind.Merged(classes, classes[e.v], classes[e.u]);
    } else {
      taken', classes' := taken, classes;
    }
  }

  /**
   * The test of one popped entry in `kruskal`: when the union-find holds its
   * ends in different sets, merge the sets and take the entry.
   */
  method Consider(uf: Unionfind.UnionFind<int>, e: Entry, ghost classes: map<int, int>) returns (joined: bool)
    requires uf.Valid() && uf.Groups(classes) && e.u in classes && e.v in classes
    modifies uf
    ensures joined <==> classes[e.u] != classes[e.v]
    ensures uf.Valid() && uf.Groups(if joined then Unionfind.Merged(classes, classes[e.v], classes[e.u]) else classes)
  {
    var same := uf.SameGroup(e.u, e.v, classes);
    joined := !same;
    if joined {
      uf.JoinGroups(e.u, e.v, classes);
    }
  }

  /**
   * One unfolding of `KruskalRun` at the least entry `e` of `bag`: the run
   * goes on from `rest`, the bag without `e`, with or without `e` taken.
   */
  lemma KruskalRunStep(bag: multiset<Entry>, rest: multiset<Entry>, classes: map<int, int>, taken: seq<Entry>, target: int)
    requires EndsIn(bag, classes) && bag != multiset{} && |taken| != target && rest == bag - multiset{Least(bag)}
    ensures var e := Least(bag);
      var merged := Unionfind.Merged(classes, classes[e.v], classes[e.u]);
      EndsIn(rest, classes) && EndsIn(rest, merged) &&
      KruskalRun(bag, classes, taken, target) ==
        if classes[e.u] == classes[e.v] then KruskalRun(rest, classes, taken, target)
        else KruskalRun(rest, merged, taken + [e], target)
  {
  }

  /**
   * The loop of `kruskal`: pop the least entry; skip it when the union-find
   * holds its ends in one set, otherwise merge their sets and take it;
   * stop once `target` entries are taken. It runs as `KruskalRun` says, with
   * the union-find's sets standing for the classes of `group`.
   */
  method KruskalLoop(uf: Unionfind.UnionFind<int>, heap: seq<Entry>, target: int, ghost group: map<int, int>) returns (r: Result<seq<Entry>>)
    requires uf.Valid() && uf.Groups(group)
    requires EndsIn(multiset(heap), group)
    modifies uf
    ensures r == KruskalRun(multiset(heap), group, [], target)
  {
    var queue, taken := heap, [];
    ghost var classes := group;
    while |taken| != target
      invariant uf.Valid() && uf.Groups(classes) && EndsIn(multiset(queue), classes)
      invariant KruskalRun(multiset(queue), classes, taken, target) == KruskalRun(multiset(heap), group, [], target)
      decreases |queue|
    {
      if queue == [] {
        return Failure(IndexError);
      }
      queue, taken, classes := KruskalPop(uf, queue, taken, target, classes);
    }
    return Success(taken);
  }

  /** The neighbour map after reading `self._edges[v]`: a missing vertex becomes a key with no neighbours. */
  function WithVertex(adj: map<int, set<int>>, v: int): (g: map<int, set<int>>)
    ensures g.Keys == adj.Keys + {v} && Succ(g, v) == Succ(adj, v)
    ensures forall x :: Succ(g, x) == Succ(adj, x)
  {
    if v in adj then adj else adj[v := {}]
  }

  /**
   * The entries `(w, (v, u))` `minimum_spanning_tree` pushes for a vertex v:
   * one per weighted neighbour u of v outside `taken`.
   */
  function Pushes(weights: map<set<int>, Option<int>>, v: int, nbs: set<int>, taken: set<int>): (P: set<Entry>)
    ensures forall e :: e in P ==> e.u == v && e.v in nbs && e.v !in taken && Lookup(weights, Pair(v, e.v)) == Some(e.w)
    ensures forall u :: u in nbs && u !in taken && Lookup(weights, Pair(v, u)).Some? ==>
      Entry(Lookup(weights, Pair(v, u)).value, v, u) in P
  {
    set u | u in nbs && u !in taken && Lookup(weights, Pair(v, u)).Some? :: Entry(Lookup(weights, Pair(v, u)).value, v, u)
  }

  /** What the Prim loop needs to run: a symmetric graph, taken vertices among its keys, queued edges ending at keys. */
  ghost predicate PrimReady(adj: map<int, set<int>>, bag: multiset<Entry>, takenV: set<int>) {
    IsAdjacency(adj) && takenV <= adj.Keys && forall e :: e in bag ==> e.v in adj
  }

  /** Taking one more key leaves fewer keys untaken. */
  lemma Shrinks(keys: set<int>, taken: set<int>, x: int)
    requires x in keys && x !in taken
    ensures |keys - (taken + {x})| < |keys - taken|
  {
    assert keys - (taken + {x}) == (keys - taken) - {x};
  }

  /**
   * The loop of `minimum_spanning_tree` on the heap `bag`: until the taken
   * vertices are `all`, pop the least entry `(w, (u, v))`; skip it when v is
   * taken, otherwise take v and the edge and push the entries from v to its
   * untaken neighbours. Popping an empty heap raises IndexError.
   */
  ghost function PrimRun(adj: map<int, set<int>>, weights: map<set<int>, Option<int>>, all: set<int>,
                         bag: multiset<Entry>, takenV: set<int>, taken: seq<Entry>): Result<seq<Entry>>
    requires PrimReady(adj, bag, takenV)
    decreases |adj.Keys - takenV|, |bag|
  {
    if takenV == all then Success(taken)
    else if bag == multiset{} then Failure(IndexError)
    else
      var e := Least(bag);
      var rest := bag - multiset{e};
      if e.v in takenV then PrimRun(adj, weights, all, rest, takenV, taken)
      else
        var takenV' := takenV + {e.v};
        Shrinks(adj.Keys, takenV, e.v);
        PrimRun(adj, weights, all, rest + multiset(Pushes(weights, e.v, adj[e.v], takenV')), takenV', taken + [e])
  }

  /**
   * What holds between pops of `minimum_spanning_tree` from `start`: the
   * queued and the taken entries are weighted edges leaving taken vertices;
   * each taken edge added one vertex, so the edges are distinct and one
   * fewer than the vertices; every taken vertex is reached from `start` by
   * taken edges; and every weighted edge from a taken vertex to an untaken
   * one is queued.
   */
  ghost predicate PrimInv(adj: map<int, set<int>>, weights: map<set<int>, Option<int>>, start: int,
                          bag: multiset<Entry>, takenV: set<int>, taken: seq<Entry>) {
    IsAdjacency(adj) && start in takenV && takenV <= adj.Keys &&
    (forall e :: e in bag ==> e.u in takenV && e.v in Succ(adj, e.u) && Lookup(weights, Pair(e.u, e.v)) == Some(e.w)) &&
    (forall k :: 0 <= k < |taken| ==>
      taken[k].v in Succ(adj, taken[k].u) && Lookup(weights, Pair(taken[k].u, taken[k].v)) == Some(taken[k].w) &&
      taken[k].u in takenV && taken[k].v in takenV) &&
    |takenV| == |taken| + 1 && DistinctPairs(Ends(taken)) &&
    (forall x :: x in takenV ==> Reaches(Adjacency(Ends(taken)), start, x)) &&
    (forall x, y :: x in takenV && y in Succ(adj, x) && y !in takenV && Lookup(weights, Pair(x, y)).Some? ==>
      Entry(Lookup(weights, Pair(x, y)).value, x, y) in bag)
  }

  /** Skipping a popped entry whose far end is taken keeps the invariant. */
  lemma PrimSkip(adj: map<int, set<int>>, weights: map<set<int>, Option<int>>, start: int,
                 bag: multiset<Entry>, takenV: set<int>, taken: seq<Entry>, e: Entry)
    requires PrimInv(adj, weights, start, bag, takenV, taken) && e in bag && e.v in takenV
    ensures PrimInv(adj, weights, start, bag - multiset{e}, takenV, taken)
  {
    var rest := bag - multiset{e};
    forall x, y | x in takenV && y in Succ(adj, x) && y !in takenV && Lookup(weights, Pair(x, y)).Some?
      ensures Entry(Lookup(weights, Pair(x, y)).value, x, y) in rest
    {
      assert Entry(Lookup(weights, Pair(x, y)).value, x, y) != e;
    }
  }

  /** The taken edges stay distinct when the new edge ends at an untaken vertex. */
  lemma PrimTakeIsNew(takenV: set<int>, taken: seq<Entry>, e: Entry)
    requires DistinctPairs(Ends(taken)) && e.v !in takenV
    requires forall k :: 0 <= k < |taken| ==> taken[k].u in takenV && taken[k].v in takenV
    ensures DistinctPairs(Ends(taken + [e]))
  {
    var es, es' := Ends(taken), Ends(taken + [e]);
    forall i, j | 0 <= i < j < |es'|
      ensures Pair(es'[i].0, es'[i].1) != Pair(es'[j].0, es'[j].1)
    {
      if j < |es| {
        assert es'[i] == es[i] && es'[j] == es[j];
      } else {
        assert es'[i] == (taken[i].u, taken[i].v);
        assert e.v in Pair(es'[j].0, es'[j].1) && e.v !in Pair(es'[i].0, es'[i].1);
      }
    }
  }

  /** Every taken vertex is still reached from `start` once the taken edge to a new vertex is added. */
  lemma PrimReachesAfterTake(adj: map<int, set<int>>, start: int, takenV: set<int>, taken: seq<Entry>, e: Entry)
    requires (forall x :: x in takenV ==> Reaches(Adjacency(Ends(taken)), start, x)) && e.u in takenV
    ensures forall x :: x in takenV + {e.v} ==> Reaches(Adjacency(Ends(taken + [e])), start, x)
  {
    var big := Adjacency(Ends(taken + [e]));
    forall x | x in takenV + {e.v}
      ensures Reaches(big, start, x)
    {
      if x in takenV {
        ReachesGrow(taken, e, start, x);
      } else {
        ReachesGrow(taken, e, start, e.u);
        ReachesChain(big, start, e.u, e.v);
      }
    }
  }

  /** Taking a popped entry to an untaken vertex, and pushing that vertex's edges, keeps the invariant. */
  lemma PrimTake(adj: map<int, set<int>>, weights: map<set<int>, Option<int>>, start: int,
                 bag: multiset<Entry>, takenV: set<int>, taken: seq<Entry>, e: Entry, bag': multiset<Entry>)
    requires PrimInv(adj, weights, start, bag, takenV, taken) && e in bag && e.v !in takenV
    requires e.v in adj && bag' == bag - multiset{e} + multiset(Pushes(weights, e.v, adj[e.v], takenV + {e.v}))
    ensures PrimInv(adj, weights, start, bag', takenV + {e.v}, taken + [e])
  {
    PrimTakeEdges(adj, weights, takenV, taken, e);
    PrimTakeIsNew(takenV, taken, e);
    PrimReachesAfterTake(adj, start, takenV, taken, e);
    PrimTakeQueued(adj, weights, bag, takenV, e, bag');
  }

  /** The taken edges, with one more to the new vertex, are weighted edges between taken vertices. */
  lemma PrimTakeEdges(adj: map<int, set<int>>, weights: map<set<int>, Option<int>>, takenV: set<int>, taken: seq<Entry>, e: Entry)
    requires forall k :: 0 <= k < |taken| ==>
      taken[k].v in Succ(adj, taken[k].u) && Lookup(weights, Pair(taken[k].u, taken[k].v)) == Some(taken[k].w) &&
      taken[k].u in takenV && taken[k].v in takenV
    requires e.u in takenV && e.v in Succ(adj, e.u) && Lookup(weights, Pair(e.u, e.v)) == Some(e.w)
    ensures var taken' := taken + [e]; forall k :: 0 <= k < |taken'| ==>
      taken'[k].v in Succ(adj, taken'[k].u) && Lookup(weights, Pair(taken'[k].u, taken'[k].v)) == Some(taken'[k].w) &&
      taken'[k].u in takenV + {e.v} && taken'[k].v in takenV + {e.v}
  {
    var taken' := taken + [e];
    forall k | 0 <= k < |taken'|
      ensures taken'[k].v in Succ(adj, taken'[k].u) && Lookup(weights, Pair(taken'[k].u, taken'[k].v)) == Some(taken'[k].w)
      ensures taken'[k].u in takenV + {e.v} && taken'[k].v in takenV + {e.v}
    {
      if k < |taken| {
        assert taken'[k] == taken[k];
      }
    }
  }

  /** After taking the least entry's far end and pushing its edges, every edge leaving the taken vertices is queued. */
  lemma PrimTakeQueued(adj: map<int, set<int>>, weights: map<set<int>, Option<int>>, bag: multiset<Entry>, takenV: set<int>, e: Entry, bag': multiset<Entry>)
    requires e in bag && e.v !in takenV && e.v in adj
    requires forall x, y :: x in takenV && y in Succ(adj, x) && y !in takenV && Lookup(weights, Pair(x, y)).Some? ==>
      Entry(Lookup(weights, Pair(x, y)).value, x, y) in bag
    requires bag' == bag - multiset{e} + multiset(Pushes(weights, e.v, adj[e.v], takenV + {e.v}))
    ensures forall x, y :: x in takenV + {e.v} && y in Succ(adj, x) && y !in takenV + {e.v} && Lookup(weights, Pair(x, y)).Some? ==>
      Entry(Lookup(weights, Pair(x, y)).value, x, y) in bag'
  {
    var takenV' := takenV + {e.v};
    forall x, y | x in takenV' && y in Succ(adj, x) && y !in takenV' && Lookup(weights, Pair(x, y)).Some?
      ensures Entry(Lookup(weights, Pair(x, y)).value, x, y) in bag'
    {
      var f := Entry(Lookup(weights, Pair(x, y)).value, x, y);
      if x == e.v {
        assert f in Pushes(weights, e.v, adj[e.v], takenV');
      } else {
        assert f in bag && f != e;
      }
    }
  }

  /** With nothing left queued, the taken vertices are closed under edges, so an untaken key cannot be reached. */
  lemma PrimStuck(adj: map<int, set<int>>, weights: map<set<int>, Option<int>>, start: int, takenV: set<int>, taken: seq<Entry>)
    requires PrimInv(adj, weights, start, multiset{}, takenV, taken) && AllWeighted(adj, weights) && takenV != adj.Keys
    ensures exists y :: y in adj && !Reaches(adj, start, y)
  {
    var C := iset x | x in takenV;
    assert Closed(adj, C) by {
      forall v, w | v in C && w in Succ(adj, v)
        ensures w in C
      {
        assert Lookup(weights, Pair(v, w)).Some?;
      }
    }
    var y := Outside(adj.Keys, takenV);
    assert y !in C;
  }

  /** The invariant provides what the loop needs to run. */
  lemma PrimInvReady(adj: map<int, set<int>>, weights: map<set<int>, Option<int>>, start: int,
                     bag: multiset<Entry>, takenV: set<int>, taken: seq<Entry>)
    requires PrimInv(adj, weights, start, bag, takenV, taken)
    ensures PrimReady(adj, bag, takenV)
  {
    forall e | e in bag
      ensures e.v in adj
    {
      assert e.v in Succ(adj, e.u);
    }
  }

  /** One unfolding of `PrimRun` at the least entry of a non-empty heap. */
  lemma PrimRunStep(adj: map<int, set<int>>, weights: map<set<int>, Option<int>>, all: set<int>,
                    bag: multiset<Entry>, takenV: set<int>, taken: seq<Entry>)
    requires PrimReady(adj, bag, takenV) && bag != multiset{} && takenV != all
    ensures var e := Least(bag);
      var takenV' := takenV + {e.v};
      var pushed := bag - multiset{e} + multiset(Pushes(weights, e.v, adj[e.v], takenV'));
      PrimReady(adj, bag - multiset{e}, takenV) && PrimReady(adj, pushed, takenV') &&
      PrimRun(adj, weights, all, bag, takenV, taken) ==
        if e.v in takenV then PrimRun(adj, weights, all, bag - multiset{e}, takenV, taken)
        else PrimRun(adj, weights, all, pushed, takenV', taken + [e])
  {
  }

  /** A key outside a proper subset of the keys. */
  lemma Outside(keys: set<int>, part: set<int>) returns (y: int)
    requires part <= keys && part != keys
    ensures y in keys && y !in part
  {
    var D := keys - part;
    assert D != {} by {
      assert |D| == |keys| - |part|;
      assert |part| < |keys|;
    }
    Inhabited(D);
    y :| y in D;
  }

  /** The outcome of the Prim loop from a state meeting the invariant. */
  ghost predicate PrimSpans(adj: map<int, set<int>>, weights: map<set<int>, Option<int>>, start: int, r: Result<seq<Entry>>) {
    (r.Success? ==>
      |r.value| == |adj| - 1 && DistinctPairs(Ends(r.value)) &&
      (forall k :: 0 <= k < |r.value| ==>
        r.value[k].v in Succ(adj, r.value[k].u) && Lookup(weights, Pair(r.value[k].u, r.value[k].v)) == Some(r.value[k].w)) &&
      forall x :: x in adj ==> Reaches(Adjacency(Ends(r.value)), start, x)) &&
    (r.Failure? ==> r.error == IndexError && exists y :: y in adj && !Reaches(adj, start, y))
  }

  /** From any state meeting the invariant, the Prim loop over all keys spans the graph or shows a key unreachable. */
  lemma {:induction false} PrimOutcome(adj: map<int, set<int>>, weights: map<set<int>, Option<int>>, start: int,
                                       bag: multiset<Entry>, takenV: set<int>, taken: seq<Entry>)
    requires PrimInv(adj, weights, start, bag, takenV, taken) && AllWeighted(adj, weights)
    ensures PrimReady(adj, bag, takenV)
    ensures PrimSpans(adj, weights, start, PrimRun(adj, weights, adj.Keys, bag, takenV, taken))
    decreases |adj.Keys - takenV|, |bag|
  {
    PrimInvReady(adj, weights, start, bag, takenV, taken);
    if takenV == adj.Keys {
    } else if bag == multiset{} {
      PrimStuck(adj, weights, start, takenV, taken);
    } else {
      var e := Least(bag);
      PrimRunStep(adj, weights, adj.Keys, bag, takenV, taken);
      if e.v in takenV {
        PrimSkip(adj, weights, start, bag, takenV, taken, e);
        PrimOutcome(adj, weights, start, bag - multiset{e}, takenV, taken);
      } else {
        assert e.v in adj;
        var bag' := bag - multiset{e} + multiset(Pushes(weights, e.v, adj[e.v], takenV + {e.v}));
        PrimTake(adj, weights, start, bag, takenV, taken, e, bag');
        Shrinks(adj.Keys, takenV, e.v);
        PrimOutcome(adj, weights, start, bag', takenV + {e.v}, taken + [e]);
      }
    }
  }

  /** Reading a missing vertex adds an isolated key, which keeps the neighbour map symmetric. */
  lemma WithVertexIsAdjacency(adj: map<int, set<int>>, v: int)
    requires IsAdjacency(adj)
    ensures IsAdjacency(WithVertex(adj, v))
  {
  }

  /** The state `minimum_spanning_tree` enters its loop with, from a key `start`, meets the invariant. */
  lemma PrimStart(adj: map<int, set<int>>, weights: map<set<int>, Option<int>>, start: int)
    requires IsAdjacency(adj) && start in adj
    ensures PrimInv(adj, weights, start, multiset(Pushes(weights, start, Succ(adj, start), {})), {start}, [])
  {
    var tree := Adjacency(Ends([]));
    assert Reaches(tree, start, start);
  }

  /** Paths from one vertex to every key of a symmetric map join every two keys. */
  lemma ReachesPairs(tree: map<int, set<int>>, keys: set<int>, start: int)
    requires Symmetric(tree) && forall x :: x in keys ==> Reaches(tree, start, x)
    ensures forall x, y :: x in keys && y in keys ==> Reaches(tree, x, y)
  {
    forall x, y | x in keys && y in keys
      ensures Reaches(tree, x, y)
    {
      ReachesBack(tree, start, x);
      ReachesChain(tree, x, start, y);
    }
  }

  /**
   * Prim's algorithm from `start` on a graph whose edges all carry weights:
   * it fails, with an IndexError, exactly when `start` is not a vertex or
   * the graph is not connected, and otherwise yields a spanning tree.
   */
  lemma PrimTree(adj: map<int, set<int>>, weights: map<set<int>, Option<int>>, start: int)
    requires IsAdjacency(adj) && AllWeighted(adj, weights)
    ensures PrimReady(WithVertex(adj, start), multiset(Pushes(weights, start, Succ(adj, start), {})), {start})
    ensures var run := PrimRun(WithVertex(adj, start), weights, adj.Keys, multiset(Pushes(weights, start, Succ(adj, start), {})), {start}, []);
      (run.Failure? <==> start !in adj || !Connected(adj)) && (run.Failure? ==> run.error == IndexError) &&
      (run.Success? ==> IsSpanningTree(Adjacency(Ends(run.value)), WeightMap(Ends(run.value), TakenWeights(run.value)), adj, weights))
  {
    var bag := multiset(Pushes(weights, start, Succ(adj, start), {}));
    WithVertexIsAdjacency(adj, start);
    if start !in adj {
      assert Pushes(weights, start, Succ(adj, start), {}) == {};
      assert {start} != adj.Keys;
    } else {
      PrimStart(adj, weights, start);
      PrimOutcome(adj, weights, start, bag, {start}, []);
      var run := PrimRun(adj, weights, adj.Keys, bag, {start}, []);
      if run.Success? {
        var taken := run.value;
        BuiltIsSymmetric(Ends(taken));
        ReachesPairs(Adjacency(Ends(taken)), adj.Keys, start);
        TreeOfTaken(adj, weights, set k | 0 <= k < |taken| :: taken[k], taken);
      }
    }
  }

  /** Reading the weights of the edges at x inserts nothing when every edge is weighted. */
  lemma IncidentDefaults(adj: map<int, set<int>>, weights: map<set<int>, Option<int>>, x: int)
    requires AllWeighted(adj, weights)
    ensures WithDefaults(weights, Incident(adj, x)) == weights
  {
    forall p | p in Incident(adj, x)
      ensures p in weights
    {
      var v :| v in Succ(adj, x) && p == Pair(x, v);
      assert Lookup(weights, Pair(x, v)).Some?;
    }
  }

  /** The vertices of the first k listed neighbours. */
  ghost function ListedUpTo(listed: seq<(int, Option<int>)>, k: int): set<int> {
    set j | 0 <= j < k && j < |listed| :: listed[j].0
  }

  /** Every listed neighbour is one of the neighbours, and back. */
  lemma ListedAll(listed: seq<(int, Option<int>)>, nbs: set<int>)
    requires forall u :: u in Firsts(listed) <==> u in nbs
    ensures ListedUpTo(listed, |listed|) == nbs
  {
    forall u
      ensures u in nbs <==> exists j :: 0 <= j < |listed| && listed[j].0 == u
    {
      if u in nbs {
        var j :| 0 <= j < |listed| && Firsts(listed)[j] == u;
      }
    }
  }

  /** Pushing one more listed neighbour adds its entry to the pushed ones, unless it is taken. */
  lemma PushesSnoc(weights: map<set<int>, Option<int>>, v: int, listed: seq<(int, Option<int>)>, k: int, taken: set<int>)
    requires 0 <= k < |listed| && Distinct(Firsts(listed)) && Lookup(weights, Pair(v, listed[k].0)).Some?
    ensures var u := listed[k].0;
      multiset(Pushes(weights, v, ListedUpTo(listed, k + 1), taken)) ==
        multiset(Pushes(weights, v, ListedUpTo(listed, k), taken)) +
        if u in taken then multiset{} else multiset{Entry(Lookup(weights, Pair(v, u)).value, v, u)}
  {
    var u := listed[k].0;
    var S := ListedUpTo(listed, k);
    assert ListedUpTo(listed, k + 1) == S + {u};
    assert u !in S by {
      forall j | 0 <= j < k
        ensures listed[j].0 != u
      {
        assert Firsts(listed)[j] == listed[j].0 && Firsts(listed)[k] == u;
      }
    }
    var P, P' := Pushes(weights, v, S, taken), Pushes(weights, v, S + {u}, taken);
    if u in taken {
      assert P' == P;
    } else {
      var f := Entry(Lookup(weights, Pair(v, u)).value, v, u);
      assert P' == P + {f};
      assert f !in P;
    }
  }

  /**
   * `for (u, w) in self.neighbors(v, and_weights=True): if u not in
   * taken_vertices: heappush(queue, (w, (v, u)))`: the heap gains the
   * entries of the untaken neighbours listed in `listed`.
   */
  method PushUntaken(queue: seq<Entry>, weights: map<set<int>, Option<int>>, v: int, listed: seq<(int, Option<int>)>,
                     ghost nbs: set<int>, taken: set<int>) returns (q: seq<Entry>)
    requires Distinct(Firsts(listed)) && forall u :: u in Firsts(listed) <==> u in nbs
    requires forall k :: 0 <= k < |listed| ==> listed[k].1 == Lookup(weights, Pair(v, listed[k].0)) && listed[k].1.Some?
    ensures multiset(q) == multiset(queue) + multiset(Pushes(weights, v, nbs, taken))
  {
    q := queue;
    for k := 0 to |listed|
      invariant multiset(q) == multiset(queue) + multiset(Pushes(weights, v, ListedUpTo(listed, k), taken))
    {
      PushesSnoc(weights, v, listed, k, taken);
      var (u, w) := listed[k];
      if u !in taken {
        q := q + [Entry(w.value, v, u)];
      }
    }
    ListedAll(listed, nbs);
  }

  /**
   * One pass of the `minimum_spanning_tree` loop: pop the least entry
   * `(w, (u, v))`; when v is not yet taken, take it and the edge and push
   * the entries to v's untaken neighbours. The run from the new state is the
   * run from the old one.
   */
  method PrimPop(adj: map<int, set<int>>, weights: map<set<int>, Option<int>>, ghost all: set<int>,
                 queue: seq<Entry>, takenV: set<int>, taken: seq<Entry>)
    returns (queue': seq<Entry>, takenV': set<int>, taken': seq<Entry>)
    requires PrimReady(adj, multiset(queue), takenV) && AllWeighted(adj, weights) && queue != [] && takenV != all
    ensures PrimReady(adj, multiset(queue'), takenV')
    ensures |adj.Keys - takenV'| < |adj.Keys - takenV| || (takenV' == takenV && |queue'| < |queue|)
    ensures PrimRun(adj, weights, all, multiset(queue'), takenV', taken') == PrimRun(adj, weights, all, multiset(queue), takenV, taken)
  {
    var e, rest := PopLeast(queue);
    PrimRunStep(adj, weights, all, multiset(queue), takenV, taken);
    if e.v in takenV {
      assert |rest| == |multiset(rest)| == |multiset(queue)| - 1;
      return rest, takenV, taken;
    }
    takenV', taken' := takenV + {e.v}, taken + [e];
    var nbs := Enumerate(adj[e.v]);
    var listed := seq(|nbs|, k requires 0 <= k < |nbs| => (nbs[k], Lookup(weights, Pair(e.v, nbs[k]))));
    assert Firsts(listed) == nbs;
    queue' := PushUntaken(rest, weights, e.v, listed, adj[e.v], takenV');
    Shrinks(adj.Keys, takenV, e.v);
  }

  /**
   * `queue = list((w, (start, v)) for (v, w) in self.neighbors(start,
   * and_weights=True)); heapq.heapify(queue)`: an entry per neighbour of
   * `start` (none is `start` itself, so pushing only untaken ones keeps all).
   */
  method PrimQueue(adj: map<int, set<int>>, weights: map<set<int>, Option<int>>, start: int, listed: seq<(int, Option<int>)>)
    returns (queue: seq<Entry>)
    requires IsAdjacency(adj) && AllWeighted(adj, weights) && start in adj
    requires Distinct(Firsts(listed)) && forall v :: v in Firsts(listed) <==> v in Succ(adj, start)
    requires forall k :: 0 <= k < |listed| ==> listed[k].1 == Lookup(weights, Pair(start, listed[k].0))
    ensures multiset(queue) == multiset(Pushes(weights, start, Succ(adj, start), {}))
    ensures PrimReady(adj, multiset(queue), {start})
  {
    forall k | 0 <= k < |listed|
      ensures listed[k].1.Some?
    {
      assert Firsts(listed)[k] == listed[k].0;
      assert listed[k].0 in Succ(adj, start);
    }
    queue := PushUntaken([], weights, start, listed, Succ(adj, start), {});
  }

  /** The `while` loop of `minimum_spanning_tree`, from `start` taken alone. */
  method PrimLoop(adj: map<int, set<int>>, weights: map<set<int>, Option<int>>, all: set<int>, heap: seq<Entry>, start: int)
    returns (r: Result<seq<Entry>>)
    requires PrimReady(adj, multiset(heap), {start}) && AllWeighted(adj, weights)
    ensures r == PrimRun(adj, weights, all, multiset(heap), {start}, [])
  {
    var queue, takenV, taken := heap, {start}, [];
    while takenV != all
      invariant PrimReady(adj, multiset(queue), takenV)
      invariant PrimRun(adj, weights, all, multiset(queue), takenV, taken) == PrimRun(adj, weights, all, multiset(heap), {start}, [])
      decreases |adj.Keys - takenV|, |queue|
    {
      if queue == [] {
        return Failure(IndexError);
      }
      queue, takenV, taken := PrimPop(adj, weights, all, queue, takenV, taken);
    }
    return Success(taken);
  }

  /**
   * The body of `minimum_spanning_tree` after the neighbours of `start`
   * are listed: heap their entries, run the loop, and build the graph of
   * the taken edges.
   */
  method PrimFrom(adj0: map<int, set<int>>, weights: map<set<int>, Option<int>>, start: int, all: set<int>,
                  listed: seq<(int, Option<int>)>) returns (r: Result<UndirectedGraph>)
    requires IsAdjacency(adj0) && AllWeighted(adj0, weights) && all == adj0.Keys
    requires Distinct(Firsts(listed)) && forall v :: v in Firsts(listed) <==> v in Succ(adj0, start)
    requires forall k :: 0 <= k < |listed| ==> listed[k].1 == Lookup(weights, Pair(start, listed[k].0))
    ensures PrimReady(WithVertex(adj0, start), multiset(Pushes(weights, start, Succ(adj0, start), {})), {start})
    ensures var run := PrimRun(WithVertex(adj0, start), weights, adj0.Keys, multiset(Pushes(weights, start, Succ(adj0, start), {})), {start}, []);
      (r.Failure? <==> run.Failure?) && (r.Failure? ==> r.error == run.error) &&
      (r.Success? ==>
        fresh(r.value) && r.value.Valid() && r.value.adj == Adjacency(Ends(run.value)) &&
        r.value.weights == WeightMap(Ends(run.value), TakenWeights(run.value)))
    ensures r.Failure? <==> start !in adj0 || !Connected(adj0)
    ensures r.Failure? ==> r.error == IndexError
    ensures r.Success? ==> IsSpanningTree(r.value.adj, r.value.weights, adj0, weights)
  {
    var adj := WithVertex(adj0, start);
    WithVertexIsAdjacency(adj0, start);
    PrimTree(adj0, weights, start);
    var queue := PrimQueue(adj, weights, start, listed);
    var result := PrimLoop(adj, weights, all, queue, start);
    assert result == PrimRun(adj, weights, adj0.Keys, multiset(Pushes(weights, start, Succ(adj0, start), {})), {start}, []);
    if result.Failure? {
      return Failure(result.error);
    }
    var tree := TreeGraph(result.value);
    r := Success(tree);
  }

  /**
   * The example graph from page 140 of Halim in the `kruskal` and
   * `minimum_spanning_tree` docstrings: the edges (0, 1), (1, 2), (0, 2),
   * (2, 3), (0, 3), (0, 4) and (3, 4) of weights 4, 2, 4, 8, 6, 6 and 9.
   * Its neighbour sets:
   */
  function HalimAdj(): map<int, set<int>> {
    map[0 := {1, 2, 3, 4}, 1 := {0, 2}, 2 := {0, 1, 3}, 3 := {0, 2, 4}, 4 := {0, 3}]
  }

  /** The weights of the Halim graph's edges. */
  predicate HalimWeighted(weights: map<set<int>, Option<int>>) {
    Lookup(weights, {0, 1}) == Some(4) && Lookup(weights, {1, 2}) == Some(2) && Lookup(weights, {0, 2}) == Some(4) &&
    Lookup(weights, {2, 3}) == Some(8) && Lookup(weights, {0, 3}) == Some(6) && Lookup(weights, {0, 4}) == Some(6) &&
    Lookup(weights, {3, 4}) == Some(9)
  }

  /**
   * The Halim example of the `kruskal` docstring: from the vertices 0 to 4
   * each alone in a set, the loop takes the edges (1, 2), (0, 1), (0, 3) and
   * (0, 4) of weights 2, 4, 6 and 6, and skips (0, 2). The heap it starts
   * with is `multiset(s)`: each edge once as `(w, (u, v))`, listed from its
   * lower end, here in the order the pops meet them.
   */
  lemma KruskalHalim(s: seq<Entry>, group: map<int, int>)
    requires s == [Entry(2, 1, 2), Entry(4, 0, 1), Entry(4, 0, 2), Entry(6, 0, 3), Entry(6, 0, 4), Entry(8, 2, 3), Entry(9, 3, 4)]
    requires group.Keys == {0, 1, 2, 3, 4} && forall x :: x in group ==> group[x] == x
    ensures KruskalRun(multiset(s), group, [], 4) ==
      Success([Entry(2, 1, 2), Entry(4, 0, 1), Entry(6, 0, 3), Entry(6, 0, 4)])
  {
    KruskalListed(s, group, [], 4);
    KruskalPassHalim(s, group);
  }

  /** The pass over the Halim heap, listed least first. */
  lemma KruskalPassHalim(s: seq<Entry>, group: map<int, int>)
    requires s == [Entry(2, 1, 2), Entry(4, 0, 1), Entry(4, 0, 2), Entry(6, 0, 3), Entry(6, 0, 4), Entry(8, 2, 3), Entry(9, 3, 4)]
    requires group.Keys == {0, 1, 2, 3, 4} && forall x :: x in group ==> group[x] == x
    ensures KruskalPass(s, group, [], 4) == Success([Entry(2, 1, 2), Entry(4, 0, 1), Entry(6, 0, 3), Entry(6, 0, 4)])
  {
    var g1 := Unionfind.Merged(group, 2, 1);
    var g2 := Unionfind.Merged(g1, 1, 0);
    calc {
      KruskalPass(s, group, [], 4);
      { assert [] + [s[0]] == [s[0]]; }
      KruskalPass(s[1..], g1, [s[0]], 4);
      { assert s[1..][1..] == s[2..] && [s[0]] + [s[1]] == [s[0], s[1]]; }
      KruskalPass(s[2..], g2, [s[0], s[1]], 4);
      { KruskalPassHalimRest(s[2..], g2); }
      Success([Entry(2, 1, 2), Entry(4, 0, 1), Entry(6, 0, 3), Entry(6, 0, 4)]);
    }
  }

  /** The rest of that pass, once 0, 1 and 2 share a set: (0, 2) is skipped, (0, 3) and (0, 4) taken. */
  lemma KruskalPassHalimRest(s: seq<Entry>, group: map<int, int>)
    requires s == [Entry(4, 0, 2), Entry(6, 0, 3), Entry(6, 0, 4), Entry(8, 2, 3), Entry(9, 3, 4)]
    requires group.Keys == {0, 1, 2, 3, 4} && group[0] == 0 && group[1] == 0 && group[2] == 0 && group[3] == 3 && group[4] == 4
    ensures KruskalPass(s, group, [Entry(2, 1, 2), Entry(4, 0, 1)], 4) ==
      Success([Entry(2, 1, 2), Entry(4, 0, 1), Entry(6, 0, 3), Entry(6, 0, 4)])
  {
    var t := [Entry(2, 1, 2), Entry(4, 0, 1)];
    var g3 := Unionfind.Merged(group, 3, 0);
    var g4 := Unionfind.Merged(g3, 4, 0);
    calc {
      KruskalPass(s, group, t, 4);
      KruskalPass(s[1..], group, t, 4);
      { assert s[1..][1..] == s[2..]; }
      KruskalPass(s[2..], g3, t + [s[1]], 4);
      { assert s[2..][1..] == s[3..]; }
      KruskalPass(s[3..], g4, t + [s[1]] + [s[2]], 4);
      { assert t + [s[1]] + [s[2]] == [Entry(2, 1, 2), Entry(4, 0, 1), Entry(6, 0, 3), Entry(6, 0, 4)]; }
      Success([Entry(2, 1, 2), Entry(4, 0, 1), Entry(6, 0, 3), Entry(6, 0, 4)]);
    }
  }

  /** `kruskal`'s loop over a heap listed least first: each pop takes the next entry of the list. */
  function KruskalPass(s: seq<Entry>, group: map<int, int>, taken: seq<Entry>, target: int): Result<seq<Entry>>
    requires forall k :: 0 <= k < |s| ==> s[k].u in group && s[k].v in group
  {
    if |taken| == target then Success(taken)
    else if s == [] then Failure(IndexError)
    else if group[s[0].u] == group[s[0].v] then KruskalPass(s[1..], group, taken, target)
    else KruskalPass(s[1..], Unionfind.Merged(group, group[s[0].v], group[s[0].u]), taken + [s[0]], target)
  }

  /** In a list ordered pair by pair, the first entry precedes every entry. */
  lemma {:induction false} ChainHead(s: seq<Entry>)
    requires forall i :: 0 < i < |s| ==> Le(s[i - 1], s[i])
    ensures forall k :: 0 <= k < |s| ==> Le(s[0], s[k])
  {
    if |s| > 1 {
      ChainHead(s[1..]);
      forall k | 1 <= k < |s|
        ensures Le(s[0], s[k])
      {
        assert s[1..][k - 1] == s[k];
      }
    }
  }

  /** Popping a heap whose entries are listed in order pops them in that order. */
  lemma {:induction false} KruskalListed(s: seq<Entry>, group: map<int, int>, taken: seq<Entry>, target: int)
    requires forall i :: 0 < i < |s| ==> Le(s[i - 1], s[i])
    requires forall k :: 0 <= k < |s| ==> s[k].u in group && s[k].v in group
    ensures KruskalRun(multiset(s), group, taken, target) == KruskalPass(s, group, taken, target)
  {
    if |taken| != target && s != [] {
      ChainHead(s);
      KruskalPopsFirst(s, group, taken, target);
      var merged := Unionfind.Merged(group, group[s[0].v], group[s[0].u]);
      KruskalListed(s[1..], group, taken, target);
      KruskalListed(s[1..], merged, taken + [s[0]], target);
    }
  }

  /**
   * One pop of `kruskal` from a heap whose entries are listed least first
   * in s: it skips s[0] when its ends share a set, otherwise merges the two
   * sets and takes it, and goes on from the rest of s.
   */
  lemma KruskalPopsFirst(s: seq<Entry>, group: map<int, int>, taken: seq<Entry>, target: int)
    requires s != [] && |taken| != target
    requires forall k :: 0 <= k < |s| ==> Le(s[0], s[k]) && s[k].u in group && s[k].v in group
    ensures var e, merged := s[0], Unionfind.Merged(group, group[s[0].v], group[s[0].u]);
      KruskalRun(multiset(s), group, taken, target) ==
        if group[e.u] == group[e.v] then KruskalRun(multiset(s[1..]), group, taken, target)
        else KruskalRun(multiset(s[1..]), merged, taken + [e], target)
  {
    assert s == [s[0]] + s[1..];
    assert multiset(s) - multiset{s[0]} == multiset(s[1..]);
    LeastUnique(multiset(s), s[0]);
    KruskalRunStep(multiset(s), multiset(s[1..]), group, taken, target);
  }

  /**
   * The Halim example of the `minimum_spanning_tree` docstring, from vertex
   * 0, on the graph given by its neighbour sets and edge weights: the loop
   * takes (0, 1), (1, 2), (0, 3) and (0, 4) of weights 4, 2, 6 and 6, and
   * skips (0, 2) once 2 is taken.
   */
  lemma PrimHalim(adj: map<int, set<int>>, weights: map<set<int>, Option<int>>)
    requires adj == HalimAdj() && HalimWeighted(weights)
    ensures PrimReady(WithVertex(adj, 0), multiset(Pushes(weights, 0, Succ(adj, 0), {})), {0})
    ensures PrimRun(WithVertex(adj, 0), weights, adj.Keys, multiset(Pushes(weights, 0, Succ(adj, 0), {})), {0}, []) ==
      Success([Entry(4, 0, 1), Entry(2, 1, 2), Entry(6, 0, 3), Entry(6, 0, 4)])
  {
    HalimPrimStart(weights, PrimHalimHeap(0));
    assert WithVertex(adj, 0) == adj;
    PrimHalimChain(adj, weights);
  }

  /** The Halim run from its first heap, listed least first, to its end. */
  lemma PrimHalimChain(adj: map<int, set<int>>, weights: map<set<int>, Option<int>>)
    requires adj == HalimAdj() && HalimWeighted(weights)
    ensures PrimReady(adj, multiset(PrimHalimHeap(0)), {0})
    ensures PrimRun(adj, weights, adj.Keys, multiset(PrimHalimHeap(0)), {0}, []) ==
      Success([Entry(4, 0, 1), Entry(2, 1, 2), Entry(6, 0, 3), Entry(6, 0, 4)])
  {
    HalimIsAdjacency();
    PrimHalimFrom(adj, weights, 0);
  }

  /** The Halim run from the state before pop i + 1 to its end. */
  lemma {:induction false} PrimHalimFrom(adj: map<int, set<int>>, weights: map<set<int>, Option<int>>, i: int)
    requires adj == HalimAdj() && HalimWeighted(weights) && 0 <= i <= 5
    requires PrimReady(adj, multiset(PrimHalimHeap(i)), PrimHalimTakenV(i))
    ensures PrimRun(adj, weights, adj.Keys, multiset(PrimHalimHeap(i)), PrimHalimTakenV(i), PrimHalimTaken(i)) ==
      Success(PrimHalimTaken(5))
    decreases 5 - i
  {
    if i == 5 {
      assert adj.Keys == PrimHalimTakenV(5);
    } else {
      HalimPrimPops(adj, weights);
      var s := PrimHalimHeap(i);
      assert PrimPops(adj, weights, adj.Keys, s, PrimHalimTakenV(i), PrimHalimTaken(i), PrimHalimHeap(i + 1), PrimHalimTakenV(i + 1), PrimHalimTaken(i + 1));
      PrimPopsFirst(adj, weights, adj.Keys, s, PrimHalimTakenV(i), PrimHalimTaken(i), PrimHalimHeap(i + 1));
      PrimHalimFrom(adj, weights, i + 1);
    }
  }

  /** The Halim graph is a neighbour map. */
  lemma HalimIsAdjacency()
    ensures IsAdjacency(HalimAdj())
  {
  }

  /** The start of the Halim run: the pushes from vertex 0, listed least first. */
  lemma HalimPrimStart(weights: map<set<int>, Option<int>>, s0: seq<Entry>)
    requires HalimWeighted(weights) && s0 == [Entry(4, 0, 1), Entry(4, 0, 2), Entry(6, 0, 3), Entry(6, 0, 4)]
    ensures multiset(Pushes(weights, 0, Succ(HalimAdj(), 0), {})) == multiset(s0)
  {
    assert Pushes(weights, 0, Succ(HalimAdj(), 0), {}) == {Entry(4, 0, 1), Entry(4, 0, 2), Entry(6, 0, 3), Entry(6, 0, 4)};
  }

  /** The heap before pop i + 1 of the Halim run, listed least first. */
  function PrimHalimHeap(i: int): seq<Entry> {
    if i == 0 then [Entry(4, 0, 1), Entry(4, 0, 2), Entry(6, 0, 3), Entry(6, 0, 4)]
    else if i == 1 then [Entry(2, 1, 2), Entry(4, 0, 2), Entry(6, 0, 3), Entry(6, 0, 4)]
    else if i == 2 then [Entry(4, 0, 2), Entry(6, 0, 3), Entry(6, 0, 4), Entry(8, 2, 3)]
    else if i == 3 then [Entry(6, 0, 3), Entry(6, 0, 4), Entry(8, 2, 3)]
    else if i == 4 then [Entry(6, 0, 4), Entry(8, 2, 3), Entry(9, 3, 4)]
    else [Entry(8, 2, 3), Entry(9, 3, 4)]
  }

  /** The vertices taken before pop i + 1 of the Halim run. */
  function PrimHalimTakenV(i: int): set<int> {
    if i == 0 then {0}
    else if i == 1 then {0, 1}
    else if i == 2 then {0, 1, 2}
    else if i == 3 then {0, 1, 2}
    else if i == 4 then {0, 1, 2, 3}
    else {0, 1, 2, 3, 4}
  }

  /** The edges taken before pop i + 1 of the Halim run. */
  function PrimHalimTaken(i: int): seq<Entry> {
    if i == 0 then []
    else if i == 1 then [Entry(4, 0, 1)]
    else if i == 2 then [Entry(4, 0, 1), Entry(2, 1, 2)]
    else if i == 3 then [Entry(4, 0, 1), Entry(2, 1, 2)]
    else if i == 4 then [Entry(4, 0, 1), Entry(2, 1, 2), Entry(6, 0, 3)]
    else [Entry(4, 0, 1), Entry(2, 1, 2), Entry(6, 0, 3), Entry(6, 0, 4)]
  }

  /** Each state of the Halim run comes from the one before by one pop. */
  lemma HalimPrimPops(adj: map<int, set<int>>, weights: map<set<int>, Option<int>>)
    requires adj == HalimAdj() && HalimWeighted(weights)
    ensures forall i :: 0 <= i < 5 ==>
      PrimPops(adj, weights, adj.Keys, PrimHalimHeap(i), PrimHalimTakenV(i), PrimHalimTaken(i), PrimHalimHeap(i + 1), PrimHalimTakenV(i + 1), PrimHalimTaken(i + 1))
  {
    forall i | 0 <= i < 5
      ensures PrimPops(adj, weights, adj.Keys, PrimHalimHeap(i), PrimHalimTakenV(i), PrimHalimTaken(i), PrimHalimHeap(i + 1), PrimHalimTakenV(i + 1), PrimHalimTaken(i + 1))
    {
      if i == 0 { HalimPop1(adj, weights); }
      else if i == 1 { HalimPop2(adj, weights); }
      else if i == 2 { HalimPop3(adj, weights); }
      else if i == 3 { HalimPop4(adj, weights); }
      else { HalimPop5(adj, weights); }
    }
  }

  /** Pop 1 of the Halim run takes (0, 1) and pushes (1, 2). */
  lemma HalimPop1(adj: map<int, set<int>>, weights: map<set<int>, Option<int>>)
    requires adj == HalimAdj() && HalimWeighted(weights)
    ensures PrimPops(adj, weights, adj.Keys, PrimHalimHeap(0), PrimHalimTakenV(0), PrimHalimTaken(0),
      PrimHalimHeap(1), PrimHalimTakenV(1), PrimHalimTaken(1))
  {
    assert Pushes(weights, 1, adj[1], {0, 1}) == {Entry(2, 1, 2)};
  }

  /** Pop 2 of the Halim run takes (1, 2) and pushes (2, 3). */
  lemma HalimPop2(adj: map<int, set<int>>, weights: map<set<int>, Option<int>>)
    requires adj == HalimAdj() && HalimWeighted(weights)
    ensures PrimPops(adj, weights, adj.Keys, PrimHalimHeap(1), PrimHalimTakenV(1), PrimHalimTaken(1),
      PrimHalimHeap(2), PrimHalimTakenV(2), PrimHalimTaken(2))
  {
    assert Pushes(weights, 2, adj[2], {0, 1, 2}) == {Entry(8, 2, 3)};
  }

  /** Pop 3 of the Halim run skips (0, 2). */
  lemma HalimPop3(adj: map<int, set<int>>, weights: map<set<int>, Option<int>>)
    requires adj == HalimAdj() && HalimWeighted(weights)
    ensures PrimPops(adj, weights, adj.Keys, PrimHalimHeap(2), PrimHalimTakenV(2), PrimHalimTaken(2),
      PrimHalimHeap(3), PrimHalimTakenV(3), PrimHalimTaken(3))
  {
    assert [Entry(4, 0, 2), Entry(6, 0, 3), Entry(6, 0, 4), Entry(8, 2, 3)][1..] == [Entry(6, 0, 3), Entry(6, 0, 4), Entry(8, 2, 3)];
    assert 3 in adj;
  }

  /** Pop 4 of the Halim run takes (0, 3) and pushes (3, 4). */
  lemma HalimPop4(adj: map<int, set<int>>, weights: map<set<int>, Option<int>>)
    requires adj == HalimAdj() && HalimWeighted(weights)
    ensures PrimPops(adj, weights, adj.Keys, PrimHalimHeap(3), PrimHalimTakenV(3), PrimHalimTaken(3),
      PrimHalimHeap(4), PrimHalimTakenV(4), PrimHalimTaken(4))
  {
    assert Pushes(weights, 3, adj[3], {0, 1, 2, 3}) == {Entry(9, 3, 4)};
  }

  /** Pop 5 of the Halim run takes (0, 4), the last vertex. */
  lemma HalimPop5(adj: map<int, set<int>>, weights: map<set<int>, Option<int>>)
    requires adj == HalimAdj() && HalimWeighted(weights)
    ensures PrimPops(adj, weights, adj.Keys, PrimHalimHeap(4), PrimHalimTakenV(4), PrimHalimTaken(4),
      PrimHalimHeap(5), PrimHalimTakenV(5), PrimHalimTaken(5))
  {
    assert Pushes(weights, 4, adj[4], {0, 1, 2, 3, 4}) == {};
  }

  /**
   * The state (s', takenV', taken') follows (s, takenV, taken) by one pop of
   * `minimum_spanning_tree`, the heap listed least first: s[0] is skipped
   * when its far end is taken, otherwise taken with its far end, and s'
   * holds the rest of s and the pushes from the far end.
   */
  ghost predicate PrimPops(adj: map<int, set<int>>, weights: map<set<int>, Option<int>>, all: set<int>,
                           s: seq<Entry>, takenV: set<int>, taken: seq<Entry>, s': seq<Entry>, takenV': set<int>, taken': seq<Entry>) {
    s != [] && takenV != all && s[0].v in adj && (forall k :: 0 <= k < |s| ==> Le(s[0], s[k])) &&
    if s[0].v in takenV then s' == s[1..] && takenV' == takenV && taken' == taken
    else
      multiset(s') == multiset(s[1..]) + multiset(Pushes(weights, s[0].v, adj[s[0].v], takenV + {s[0].v})) &&
      takenV' == takenV + {s[0].v} && taken' == taken + [s[0]]
  }

  /**
   * One pop of `minimum_spanning_tree` from a heap whose entries are listed
   * least first in s: it skips s[0] when its far end is taken, otherwise
   * takes it and goes on with the heap s' holding the rest and the pushes.
   */
  lemma PrimPopsFirst(adj: map<int, set<int>>, weights: map<set<int>, Option<int>>, all: set<int>,
                      s: seq<Entry>, takenV: set<int>, taken: seq<Entry>, s': seq<Entry>)
    requires PrimReady(adj, multiset(s), takenV) && takenV != all && s != []
    requires forall k :: 0 <= k < |s| ==> Le(s[0], s[k])
    requires s[0].v in takenV ==> s' == s[1..]
    requires s[0].v !in takenV ==> multiset(s') == multiset(s[1..]) + multiset(Pushes(weights, s[0].v, adj[s[0].v], takenV + {s[0].v}))
    ensures var takenV' := if s[0].v in takenV then takenV else takenV + {s[0].v};
      PrimReady(adj, multiset(s'), takenV') &&
      PrimRun(adj, weights, all, multiset(s), takenV, taken) ==
        if s[0].v in takenV then PrimRun(adj, weights, all, multiset(s'), takenV, taken)
        else PrimRun(adj, weights, all, multiset(s'), takenV', taken + [s[0]])
  {
    assert s == [s[0]] + s[1..];
    assert multiset(s) - multiset{s[0]} == multiset(s[1..]);
    LeastUnique(multiset(s), s[0]);
    PrimRunStep(adj, weights, all, multiset(s), takenV, taken);
  }
}

/**
 * The `UnionFind` class of unionfind.py: a disjoint-set forest held in two
 * dicts, `_parent` and `_rank`, with path compression in `get_root` and
 * union by rank in `union`.
 *
 * The partition it stands for is given by `RootOf`: two registered
 * elements are in the same set iff they have the same root. The source's
 * ranks do not bound the tree heights (a tie increments the rank of the
 * argument, which need not be a root), so termination of the walk to the
 * root rests on a ghost `height` map that strictly grows from child to
 * parent and is bounded by the ghost `top`.
 */
module Unionfind {
  import opened Wrappers

  /** Parents are registered, heights grow from child to parent, and `top` bounds them. */
  ghost predicate IsForest<T>(parent: map<T, T>, height: map<T, nat>, top: nat) {
    parent.Keys == height.Keys &&
    parent.Values <= parent.Keys &&
    (forall x {:trigger parent[x]} :: x in parent && parent[x] != x ==> height[x] < height[parent[x]]) &&
    (forall x :: x in height ==> height[x] <= top)
  }

  /** The root reached from x by following parents. */
  ghost function RootOf<T>(parent: map<T, T>, height: map<T, nat>, top: nat, x: T): (r: T)
    requires IsForest(parent, height, top) && x in parent
    ensures r in parent && parent[r] == r
    ensures r != x ==> height[x] < height[r]
    decreases top - height[x]
  {
    if parent[x] == x then x else RootOf(parent, height, top, parent[x])
  }

  /** The elements `get_root(x)` walks through before it reaches the root. */
  ghost function PathOf<T>(parent: map<T, T>, height: map<T, nat>, top: nat, x: T): (r: set<T>)
    requires IsForest(parent, height, top) && x in parent
    ensures forall c :: c in r ==> c in parent && parent[c] != c
    ensures forall c :: c in r ==> RootOf(parent, height, top, c) == RootOf(parent, height, top, x)
    ensures parent[x] != x <==> x in r
    ensures forall c :: c in r ==> height[c] >= height[x]
    decreases top - height[x]
  {
    if parent[x] == x then {} else {x} + PathOf(parent, height, top, parent[x])
  }

  /** Pointing one element straight at its root keeps the forest and every root. */
  lemma Compress<T>(parent: map<T, T>, height: map<T, nat>, top: nat, c: T)
    requires IsForest(parent, height, top) && c in parent
    ensures IsForest(parent[c := RootOf(parent, height, top, c)], height, top)
    ensures forall z :: z in parent ==>
      RootOf(parent[c := RootOf(parent, height, top, c)], height, top, z) == RootOf(parent, height, top, z)
  {
    var root := RootOf(parent, height, top, c);
    var p := parent[c := root];
    Redirect(parent, height, top, c, root);
    forall z | z in parent
      ensures RootOf(p, height, top, z) == RootOf(parent, height, top, z)
    {
      CompressAt(parent, height, top, c, z);
    }
  }

  /** Pointing c at an element of greater height keeps a forest. */
  lemma Redirect<T>(parent: map<T, T>, height: map<T, nat>, top: nat, c: T, r: T)
    requires IsForest(parent, height, top) && c in parent && r in parent
    requires r != c ==> height[c] < height[r]
    ensures IsForest(parent[c := r], height, top)
  {
  }

  /** Making item a root, with height 0 if it is new, keeps a forest. */
  lemma Reset<T>(parent: map<T, T>, height: map<T, nat>, top: nat, item: T)
    requires IsForest(parent, height, top)
    ensures IsForest(parent[item := item], if item in height then height else height[item := 0], top)
  {
    var p := parent[item := item];
    var h := if item in height then height else height[item := 0];
    forall x | x in p && p[x] != x
      ensures h[x] < h[p[x]]
    {
      assert p[x] == parent[x];
    }
  }

  lemma {:induction false} CompressAt<T>(parent: map<T, T>, height: map<T, nat>, top: nat, c: T, z: T)
    requires IsForest(parent, height, top) && c in parent && z in parent
    requires IsForest(parent[c := RootOf(parent, height, top, c)], height, top)
    ensures RootOf(parent[c := RootOf(parent, height, top, c)], height, top, z) == RootOf(parent, height, top, z)
    decreases top - height[z]
  {
    var p := parent[c := RootOf(parent, height, top, c)];
    if z != c && parent[z] != z {
      CompressAt(parent, height, top, c, parent[z]);
    }
  }

  /** The heights after root a is attached under root b. */
  ghost function LinkedHeight<T>(height: map<T, nat>, a: T, b: T): map<T, nat>
    requires a in height && b in height
  {
    height[b := if height[b] > height[a] then height[b] else height[a] + 1]
  }

  /** Attaching root a under another root b keeps a forest. */
  lemma LinkKeepsForest<T>(parent: map<T, T>, height: map<T, nat>, top: nat, a: T, b: T)
    requires IsForest(parent, height, top) && a in parent && b in parent
    requires parent[a] == a && parent[b] == b && a != b
    ensures var h := LinkedHeight(height, a, b);
      IsForest(parent[a := b], h, if h[b] > top then h[b] else top)
  {
    var h := LinkedHeight(height, a, b);
    var p := parent[a := b];
    forall x | x in p && p[x] != x
      ensures h[x] < h[p[x]]
    {
      if x != a && p[x] == b {
        assert height[x] < height[b];
      }
    }
  }

  lemma {:induction false} LinkAt<T>(parent: map<T, T>, height: map<T, nat>, top: nat, a: T, b: T, z: T)
    requires IsForest(parent, height, top) && a in parent && b in parent && z in parent
    requires parent[a] == a && parent[b] == b && a != b
    requires var h := LinkedHeight(height, a, b);
      IsForest(parent[a := b], h, if h[b] > top then h[b] else top)
    ensures var h := LinkedHeight(height, a, b);
      RootOf(parent[a := b], h, if h[b] > top then h[b] else top, z) ==
      (if RootOf(parent, height, top, z) == a then b else RootOf(parent, height, top, z))
    decreases top - height[z]
  {
    if z != a && parent[z] != z {
      LinkAt(parent, height, top, a, b, parent[z]);
    }
  }

  /** One element more of a list: its prefix gains exactly that element. */
  lemma PrefixHas<T>(items: seq<T>, i: nat)
    requires i < |items|
    ensures forall x :: x in items[..i + 1] <==> x in items[..i] || x == items[i]
  {
    assert items[..i + 1] == items[..i] + [items[i]];
  }

  /** The index of the first item without an entry among keys, or |items| when every item has one. */
  ghost function FirstMissing<T>(items: seq<T>, keys: set<T>): (k: int)
    ensures 0 <= k <= |items|
    ensures forall j :: 0 <= j < k ==> items[j] in keys
    ensures k < |items| ==> items[k] !in keys
  {
    if |items| == 0 || items[0] !in keys then 0 else 1 + FirstMissing(items[1..], keys)
  }

  /** The roots of the first k items. */
  ghost function PrefixRoots<T>(roots: map<T, T>, items: seq<T>, k: int): set<T>
    requires 0 <= k <= |items| && forall j :: 0 <= j < k ==> items[j] in roots
  {
    set j | 0 <= j < k :: roots[items[j]]
  }

  class UnionFind<T(==)> {
    var parent: map<T, T>
    var rank: map<T, int>
    ghost var height: map<T, nat>
    ghost var top: nat

    ghost predicate Valid()
      reads this
    {
      parent.Keys == rank.Keys && IsForest(parent, height, top)
    }

    /** The root of x's set: what `get_root(x)` returns. */
    ghost function Find(x: T): T
      reads this
      requires Valid() && x in parent
    {
      RootOf(parent, height, top, x)
    }

    /** `UnionFind(iterable)`: every element its own parent, with rank 0. */
    constructor(items: seq<T>)
      ensures Valid()
      ensures parent == map x | x in items :: x
      ensures rank == map x | x in items :: 0
    {
      parent, rank, height, top := map[], map[], map[], 0;
      new;
      for i := 0 to |items|
        invariant Valid()
        invariant parent == map x | x in items[..i] :: x
        invariant rank == map x | x in items[..i] :: 0
      {
        Register(items[i]);
        PrefixHas(items, i);
      }
    }

    /** The loop body of `__init__` and `add`: make `item` a root of rank 0. */
    method Register(item: T)
      requires Valid()
      modifies this
      ensures Valid()
      ensures parent == old(parent)[item := item] && rank == old(rank)[item := 0]
    {
      Reset(parent, height, top, item);
      parent := parent[item := item];
      rank := rank[item := 0];
      height := if item in height then height else height[item := 0];
    }

    /** `item in uf`: whether item has an entry in both dicts. */
    predicate Contains(item: T)
      reads this
      ensures Valid() ==> (Contains(item) <==> item in parent)
    {
      item in parent && item in rank
    }

    /** `add(iterable)`: register every item, resetting any already registered. */
    method Add(items: seq<T>)
      requires Valid()
      modifies this
      ensures Valid()
      ensures forall x :: x in parent <==> x in old(parent) || x in items
      ensures forall x :: x in items ==> parent[x] == x && rank[x] == 0
      ensures forall x :: x in old(parent) && x !in items ==> parent[x] == old(parent[x]) && rank[x] == old(rank[x])
      ensures forall x :: x in items ==> Contains(x) && Find(x) == x
    {
      for i := 0 to |items|
        invariant Valid()
        invariant forall x :: x in parent <==> x in old(parent) || x in items[..i]
        invariant forall x :: x in items[..i] ==> parent[x] == x && rank[x] == 0
        invariant forall x :: x in old(parent) && x !in items[..i] ==> parent[x] == old(parent[x]) && rank[x] == old(rank[x])
      {
        Register(items[i]);
        PrefixHas(items, i);
      }
      assert items[..|items|] == items;
    }

    /**
     * `get_root(x)`: walk up to the root collecting the elements passed, then
     * point each of them straight at the root. KeyError for an unregistered x.
     */
    method GetRoot(x: T) returns (r: Result<T>)
      requires Valid()
      modifies this
      ensures Valid()
      ensures parent.Keys == old(parent.Keys)
      ensures rank == old(rank) && height == old(height) && top == old(top)
      ensures r.Failure? <==> x !in old(parent)
      ensures r.Failure? ==> r.error == KeyError && parent == old(parent)
      ensures r.Success? ==> r.value == old(Find(x)) && parent[r.value] == r.value
      ensures r.Success? ==> forall z :: z in parent ==>
        parent[z] == if z in old(PathOf(parent, height, top, x)) then r.value else old(parent[z])
      ensures forall z {:trigger Find(z)} :: z in parent ==> Find(z) == old(Find(z))
    {
      if x !in parent {
        return Failure(KeyError);
      }
      var root, chain := Climb(x);
      PointAt(chain, root);
      return Success(root);
    }

    /** The `while` loop of `get_root`: the root of x and the elements passed on the way. */
    method Climb(x: T) returns (root: T, chain: set<T>)
      requires Valid() && x in parent
      ensures root == Find(x) && chain == PathOf(parent, height, top, x)
    {
      chain := {};
      root := x;
      var up := parent[x];
      while root != up
        invariant root in parent && up == parent[root]
        invariant chain !! PathOf(parent, height, top, root)
        invariant chain + PathOf(parent, height, top, root) == PathOf(parent, height, top, x)
        invariant RootOf(parent, height, top, root) == Find(x)
        decreases top - height[root]
      {
        chain := chain + {root};
        root, up := up, parent[up];
      }
    }

    /** The `for` loop of `get_root`: point every element of the chain at the root. */
    method PointAt(chain: set<T>, root: T)
      requires Valid()
      requires forall c :: c in chain ==> c in parent && Find(c) == root
      modifies this
      ensures Valid()
      ensures parent.Keys == old(parent.Keys)
      ensures rank == old(rank) && height == old(height) && top == old(top)
      ensures forall z :: z in parent ==> parent[z] == if z in chain then root else old(parent[z])
      ensures forall z {:trigger Find(z)} :: z in parent ==> Find(z) == old(Find(z))
    {
      var rest := chain;
      ghost var done: set<T> := {};
      while rest != {}
        invariant done + rest == chain && done !! rest
        invariant Valid() && parent.Keys == old(parent.Keys)
        invariant rank == old(rank) && height == old(height) && top == old(top)
        invariant forall z {:trigger Find(z)} :: z in parent ==> Find(z) == old(Find(z))
        invariant forall z :: z in parent ==> parent[z] == if z in done then root else old(parent[z])
        decreases rest
      {
        var item :| item in rest;
        PointOne(item, root);
        rest := rest - {item};
        done := done + {item};
      }
    }

    /** `self._parent[item] = root` for an element whose root it is. */
    method PointOne(item: T, root: T)
      requires Valid() && item in parent && Find(item) == root
      modifies this
      ensures Valid()
      ensures parent == old(parent)[item := root]
      ensures rank == old(rank) && height == old(height) && top == old(top)
      ensures forall z {:trigger Find(z)} :: z in parent ==> Find(z) == old(Find(z))
    {
      Compress(parent, height, top, item);
      parent := parent[item := root];
    }

    /** `in_same_set(x, y)`: whether the two roots agree; KeyError if either is unregistered. */
    method InSameSet(x: T, y: T) returns (r: Result<bool>)
      requires Valid()
      modifies this
      ensures Valid()
      ensures r.Failure? <==> x !in old(parent) || y !in old(parent)
      ensures r.Failure? ==> r.error == KeyError
      ensures r.Success? ==> (r.value <==> old(Find(x)) == old(Find(y)))
      ensures rank == old(rank) && parent.Keys == old(parent.Keys)
      ensures forall z {:trigger Find(z)} :: z in parent ==> Find(z) == old(Find(z))
    {
      var rootX := GetRoot(x);
      if rootX.Failure? {
        return Failure(rootX.error);
      }
      var rootY := GetRoot(y);
      if rootY.Failure? {
        return Failure(rootY.error);
      }
      return Success(rootX.value == rootY.value);
    }

    /**
     * `union(x, y)`: the root of lower rank goes under the other; on a tie
     * `root_y` goes under `root_x` and the rank of the argument x is
     * incremented. Returns the root of the merged set.
     */
    method Union(x: T, y: T) returns (r: Result<T>)
      requires Valid()
      modifies this
      ensures Valid()
      ensures parent.Keys == old(parent.Keys)
      ensures r.Failure? <==> x !in old(parent) || y !in old(parent)
      ensures r.Failure? ==> r.error == KeyError && rank == old(rank)
      ensures r.Failure? ==> forall z {:trigger Find(z)} :: z in parent ==> Find(z) == old(Find(z))
      ensures r.Success? ==> r.value in parent && parent[r.value] == r.value
      ensures r.Success? ==> (
        var rx, ry := old(Find(x)), old(Find(y));
        r.value == (if old(rank[rx]) < old(rank[ry]) then ry else rx) &&
        rank == (if rx != ry && old(rank[rx]) == old(rank[ry]) then old(rank)[x := old(rank[x]) + 1] else old(rank)))
      ensures r.Success? ==> forall z {:trigger Find(z)} :: z in parent ==>
        Find(z) == (if old(Find(z)) == old(Find(x)) || old(Find(z)) == old(Find(y)) then r.value else old(Find(z)))
    {
      var roots := BothRoots(x, y);
      if roots.Failure? {
        return Failure(roots.error);
      }
      var rx, ry := roots.value.0, roots.value.1;
      assert rank == old(rank) && old(rank[rx]) == rank[rx] && old(rank[ry]) == rank[ry];
      var root := Merge(x, rx, ry);
      return Success(root);
    }

    /** The two `_root` calls that open `union`, with the KeyError of either. */
    method BothRoots(x: T, y: T) returns (r: Result<(T, T)>)
      requires Valid()
      modifies this
      ensures Valid() && parent.Keys == old(parent.Keys) && rank == old(rank)
      ensures r.Failure? <==> x !in old(parent) || y !in old(parent)
      ensures r.Failure? ==> r.error == KeyError
      ensures r.Success? ==> r.value == (old(Find(x)), old(Find(y)))
      ensures r.Success? ==> parent[r.value.0] == r.value.0 && parent[r.value.1] == r.value.1
      ensures forall z {:trigger Find(z)} :: z in parent ==> Find(z) == old(Find(z))
    {
      var rootX := GetRoot(x);
      if rootX.Failure? {
        return Failure(rootX.error);
      }
      var rootY := GetRoot(y);
      if rootY.Failure? {
        return Failure(rootY.error);
      }
      assert Find(rootX.value) == old(Find(x));
      return Success((rootX.value, rootY.value));
    }

    /** The branch on ranks in `union`, once both roots are known. */
    method Merge(x: T, rx: T, ry: T) returns (root: T)
      requires Valid() && x in parent && rx in parent && ry in parent
      requires parent[rx] == rx && parent[ry] == ry
      modifies this
      ensures Valid()
      ensures parent.Keys == old(parent.Keys)
      ensures root == (if old(rank[rx]) < old(rank[ry]) then ry else rx)
      ensures parent[root] == root
      ensures rank == (if rx != ry && old(rank[rx]) == old(rank[ry]) then old(rank)[x := old(rank[x]) + 1] else old(rank))
      ensures forall z {:trigger Find(z)} :: z in parent ==>
        Find(z) == (if old(Find(z)) == rx || old(Find(z)) == ry then root else old(Find(z)))
    {
      if rx == ry {
        return rx;
      }
      if rank[rx] < rank[ry] {
        Attach(rx, ry);
        return ry;
      } else if rank[rx] > rank[ry] {
        Attach(ry, rx);
        return rx;
      } else {
        rank := rank[x := rank[x] + 1];
        Attach(ry, rx);
        return rx;
      }
    }

    /** `self._parent[a] = b` for two distinct roots. */
    method Attach(a: T, b: T)
      requires Valid() && a in parent && b in parent
      requires parent[a] == a && parent[b] == b && a != b
      modifies this
      ensures Valid()
      ensures parent == old(parent)[a := b] && rank == old(rank)
      ensures forall z {:trigger Find(z)} :: z in parent ==> Find(z) == (if old(Find(z)) == a then b else old(Find(z)))
    {
      ghost var p0, h0, t0 := parent, height, top;
      ghost var h := LinkedHeight(height, a, b);
      ghost var t := if h[b] > top then h[b] else top;
      LinkKeepsForest(parent, height, top, a, b);
      parent, height, top := parent[a := b], h, t;
      forall z {:trigger Find(z)} | z in parent
        ensures Find(z) == if RootOf(p0, h0, t0, z) == a then b else RootOf(p0, h0, t0, z)
      {
        LinkAt(p0, h0, t0, a, b, z);
      }
    }

    /**
     * `union(iterable)`: `functools.reduce(self.union, iterable)`. An empty
     * iterable is a TypeError; a single element is returned unchecked;
     * otherwise each union takes the root returned by the one before. At the
     * first unregistered item, the k items before it have been merged when
     * k >= 2; for k < 2 no union has completed and the partition stands.
     * Ranks outside the merged sets are untouched.
     */
    method UnionAll(items: seq<T>) returns (r: Result<T>)
      requires Valid()
      modifies this
      ensures Valid()
      ensures parent.Keys == old(parent.Keys)
      ensures |items| == 0 ==> r == Failure(TypeError) && parent == old(parent) && rank == old(rank)
      ensures |items| == 1 ==> r == Success(items[0]) && parent == old(parent) && rank == old(rank)
      ensures |items| >= 2 ==> (r.Failure? <==> exists i :: 0 <= i < |items| && items[i] !in old(parent))
      ensures |items| >= 2 && r.Failure? ==> r.error == KeyError
      ensures |items| >= 2 && r.Success? ==> forall i :: 0 <= i < |items| ==> Find(items[i]) == r.value
      ensures |items| >= 2 && r.Success? ==> forall z {:trigger Find(z)} :: z in parent ==>
        Find(z) == (if exists i :: 0 <= i < |items| && old(Find(z)) == old(Find(items[i])) then r.value else old(Find(z)))
      ensures |items| >= 2 && r.Failure? ==>
        var roots, k := old(Roots()), FirstMissing(items, old(parent.Keys));
        forall z {:trigger Find(z)} :: z in parent ==>
          Find(z) == if k >= 2 && roots[z] in PrefixRoots(roots, items, k) then Find(items[0]) else roots[z]
      ensures |items| >= 2 ==>
        var roots, k := old(Roots()), FirstMissing(items, old(parent.Keys));
        forall z :: z in rank && roots[z] !in PrefixRoots(roots, items, if k >= 2 then k else 0) ==> rank[z] == old(rank)[z]
    {
      if |items| == 0 {
        return Failure(TypeError);
      } else if |items| == 1 {
        return Success(items[0]);
      }
      ghost var roots0, rank0 := Roots(), rank;
      var first := Begin(roots0, items[0], items[1]);
      if first.Failure? {
        return first;
      }
      r := Reduce(roots0, rank0, items, first.value);
    }

    /**
     * The rest of the `reduce` in `union(iterable)`, after the union of the
     * first two items returned acc: `acc = union(acc, item)` for each later
     * item. `roots` are the roots before the first union.
     */
    method Reduce(ghost roots: map<T, T>, ghost rank0: map<T, int>, items: seq<T>, acc: T) returns (r: Result<T>)
      requires Valid() && parent.Keys == roots.Keys && rank0.Keys == roots.Keys
      requires |items| >= 2 && items[0] in roots && items[1] in roots
      requires acc in {roots[items[0]], roots[items[1]]} && acc in parent && parent[acc] == acc
      requires forall z {:trigger Find(z)} :: z in parent ==>
        Find(z) == if roots[z] in {roots[items[0]], roots[items[1]]} then acc else roots[z]
      requires forall z :: z in rank && roots[z] !in {roots[items[0]], roots[items[1]]} ==> rank[z] == rank0[z]
      modifies this
      ensures Valid() && parent.Keys == roots.Keys
      ensures r.Failure? <==> !Registered(items, |items|, roots.Keys)
      ensures r.Failure? ==> r.error == KeyError
      ensures r.Failure? ==> var k := FirstMissing(items, roots.Keys);
        2 <= k && forall z {:trigger Find(z)} :: z in parent ==>
          Find(z) == if roots[z] in PrefixRoots(roots, items, k) then Find(items[0]) else roots[z]
      ensures forall z :: z in rank && roots[z] !in PrefixRoots(roots, items, FirstMissing(items, roots.Keys)) ==> rank[z] == rank0[z]
      ensures r.Success? ==> forall i :: 0 <= i < |items| ==> Find(items[i]) == r.value
      ensures r.Success? ==> forall z {:trigger Find(z)} :: z in parent ==>
        Find(z) == if roots[z] in (set i | 0 <= i < |items| :: roots[items[i]]) then r.value else roots[z]
    {
      ghost var k, root;
      r, k, root := Fold(roots, rank0, items, acc);
      StoppedAt(roots, items, k);
      if r.Success? {
        forall i | 0 <= i < |items|
          ensures Find(items[i]) == r.value
        {
          assert roots[items[i]] in PrefixRoots(roots, items, k);
        }
      }
    }

    /**
     * The loop of the `reduce`: it stops at the first unregistered item k
     * (or at the end), with root the root of the first k items' classes.
     */
    method Fold(ghost roots: map<T, T>, ghost rank0: map<T, int>, items: seq<T>, acc: T)
      returns (r: Result<T>, ghost k: int, ghost root: T)
      requires Valid() && parent.Keys == roots.Keys && rank0.Keys == roots.Keys
      requires |items| >= 2 && items[0] in roots && items[1] in roots
      requires acc in {roots[items[0]], roots[items[1]]} && acc in parent && parent[acc] == acc
      requires forall z {:trigger Find(z)} :: z in parent ==>
        Find(z) == if roots[z] in {roots[items[0]], roots[items[1]]} then acc else roots[z]
      requires forall z :: z in rank && roots[z] !in {roots[items[0]], roots[items[1]]} ==> rank[z] == rank0[z]
      modifies this
      ensures Valid() && parent.Keys == roots.Keys
      ensures 2 <= k <= |items| && Registered(items, k, roots.Keys)
      ensures r.Failure? <==> k < |items|
      ensures r.Failure? ==> r.error == KeyError && items[k] !in roots
      ensures r.Success? ==> r.value == root
      ensures forall z {:trigger Find(z)} :: z in parent ==>
        Find(z) == if roots[z] in PrefixRoots(roots, items, k) then root else roots[z]
      ensures forall z :: z in rank && roots[z] !in PrefixRoots(roots, items, k) ==> rank[z] == rank0[z]
    {
      ghost var merged := {roots[items[0]], roots[items[1]]};
      var i, current := 2, acc;
      while i < |items|
        invariant 2 <= i <= |items|
        invariant Valid() && parent.Keys == roots.Keys
        invariant current in merged && current in parent && parent[current] == current
        invariant Registered(items, i, roots.Keys)
        invariant merged == PrefixRoots(roots, items, i)
        invariant forall z {:trigger Find(z)} :: z in parent ==>
          Find(z) == if roots[z] in merged then current else roots[z]
        invariant forall z :: z in rank && roots[z] !in merged ==> z in rank0 && rank[z] == rank0[z]
      {
        var result := Absorb(roots, rank0, merged, current, items[i]);
        if result.Failure? {
          return result, i, current;
        }
        RegisteredStep(items, i, roots.Keys);
        MergedStep(roots, items, i);
        merged := merged + {roots[items[i]]};
        current := result.value;
        i := i + 1;
      }
      r, k, root := Success(current), i, current;
    }

    /** The first n items all have entries among keys. */
    ghost predicate Registered(items: seq<T>, n: int, keys: set<T>) {
      forall j :: 0 <= j < n && j < |items| ==> items[j] in keys
    }

    /** The reduce stops at item i when the items before it are registered and item i is not (or i is the end). */
    lemma StoppedAt(roots: map<T, T>, items: seq<T>, i: int)
      requires 2 <= i <= |items| && Registered(items, i, roots.Keys)
      requires i < |items| ==> items[i] !in roots
      ensures FirstMissing(items, roots.Keys) == i
      ensures roots[items[0]] in PrefixRoots(roots, items, i)
    {
    }

    lemma MergedStep(roots: map<T, T>, items: seq<T>, i: int)
      requires 0 <= i < |items| && forall j :: 0 <= j <= i ==> items[j] in roots
      ensures (set j | 0 <= j < i + 1 :: roots[items[j]]) == (set j | 0 <= j < i :: roots[items[j]]) + {roots[items[i]]}
    {
    }

    lemma RegisteredStep(items: seq<T>, n: int, keys: set<T>)
      requires 0 <= n < |items| && Registered(items, n, keys) && items[n] in keys
      ensures Registered(items, n + 1, keys)
    {
    }

    /** The root of every registered element. */
    ghost function Roots(): (m: map<T, T>)
      reads this
      requires Valid()
      ensures m.Keys == parent.Keys
      ensures forall z {:trigger m[z]} :: z in parent ==> m[z] == Find(z)
    {
      map z | z in parent :: Find(z)
    }

    /** The first step of the `reduce` in `union(iterable)`: `union(x, y)`, seen from the roots before it. */
    method Begin(ghost roots: map<T, T>, x: T, y: T) returns (r: Result<T>)
      requires Valid() && parent.Keys == roots.Keys
      requires forall z {:trigger Find(z)} :: z in parent ==> Find(z) == roots[z]
      modifies this
      ensures Valid() && parent.Keys == roots.Keys
      ensures r.Failure? <==> x !in roots || y !in roots
      ensures r.Failure? ==> r.error == KeyError && rank == old(rank)
      ensures r.Failure? ==> forall z {:trigger Find(z)} :: z in parent ==> Find(z) == roots[z]
      ensures r.Success? ==> rank == old(rank) || rank == old(rank)[x := old(rank[x]) + 1]
      ensures r.Success? ==> r.value in {roots[x], roots[y]} && r.value in parent && parent[r.value] == r.value
      ensures r.Success? ==> forall z {:trigger Find(z)} :: z in parent ==>
        Find(z) == if roots[z] in {roots[x], roots[y]} then r.value else roots[z]
    {
      r := Union(x, y);
    }

    /**
     * One step of the `reduce` in `union(iterable)`: `union(acc, item)`
     * where acc is the root of the elements merged so far, whose roots in
     * the starting forest `roots` made up the set `merged`.
     */
    method Absorb(ghost roots: map<T, T>, ghost rank0: map<T, int>, ghost merged: set<T>, acc: T, item: T) returns (r: Result<T>)
      requires Valid() && parent.Keys == roots.Keys
      requires acc in merged && acc in parent && parent[acc] == acc
      requires forall z {:trigger Find(z)} :: z in parent ==>
        Find(z) == if roots[z] in merged then acc else roots[z]
      requires forall z :: z in rank && roots[z] !in merged ==> z in rank0 && rank[z] == rank0[z]
      modifies this
      ensures Valid() && parent.Keys == roots.Keys
      ensures r.Failure? <==> item !in roots
      ensures r.Failure? ==> r.error == KeyError && rank == old(rank)
      ensures r.Failure? ==> forall z {:trigger Find(z)} :: z in parent ==> Find(z) == old(Find(z))
      ensures r.Success? ==> forall z :: z in rank && roots[z] !in merged + {roots[item]} ==> rank[z] == rank0[z]
      ensures r.Success? ==> r.value in merged + {roots[item]} && r.value in parent && parent[r.value] == r.value
      ensures r.Success? ==> forall z {:trigger Find(z)} :: z in parent ==>
        Find(z) == if roots[z] in merged + {roots[item]} then r.value else roots[z]
    {
      assert Find(acc) == acc;
      r := Union(acc, item);
    }

    /** `in_same_set(x, y)` on registered elements, seen on the map of roots: nothing moves. */
    method SameRoot(x: T, y: T) returns (same: bool)
      requires Valid() && x in parent && y in parent
      modifies this
      ensures Valid() && Roots() == old(Roots())
      ensures same <==> old(Roots())[x] == old(Roots())[y]
    {
      var r := InSameSet(x, y);
      same := r.value;
    }

    /** `union(x, y)` on registered elements, seen on the map of roots: both roots give way to `root`. */
    method Join(x: T, y: T) returns (root: T)
      requires Valid() && x in parent && y in parent
      modifies this
      ensures Valid() && parent.Keys == old(parent.Keys) && root in {old(Roots())[x], old(Roots())[y]}
      ensures forall z :: z in parent ==>
        Roots()[z] == if old(Roots())[z] in {old(Roots())[x], old(Roots())[y]} then root else old(Roots())[z]
    {
      ghost var roots := Roots();
      var r := Begin(roots, x, y);
      root := r.value;
      ghost var now := Roots();
      forall z | z in parent
        ensures now[z] == if roots[z] in {roots[x], roots[y]} then root else roots[z]
      {
        assert now[z] == Find(z);
      }
    }

    /** `classes` labels the registered elements so that two share a label iff they share a root. */
    ghost predicate Groups(classes: map<T, int>)
      reads this
      requires Valid()
    {
      SameLabels(Roots(), classes)
    }

    /** `in_same_set(x, y)` on registered elements, read through a labelling: nothing moves. */
    method SameGroup(x: T, y: T, ghost classes: map<T, int>) returns (same: bool)
      requires Valid() && Groups(classes) && x in classes && y in classes
      modifies this
      ensures Valid() && Groups(classes)
      ensures same <==> classes[x] == classes[y]
    {
      same := SameRoot(x, y);
    }

    /** `union(x, y)` on elements labelled apart: the label of y's set becomes that of x's. */
    method JoinGroups(x: T, y: T, ghost classes: map<T, int>)
      requires Valid() && Groups(classes) && x in classes && y in classes && classes[x] != classes[y]
      modifies this
      ensures Valid() && Groups(Merged(classes, classes[y], classes[x]))
    {
      ghost var before := Roots();
      var root := Join(x, y);
      ghost var now := Roots();
      forall z | z in before
        ensures now[z] == if before[z] in {before[x], before[y]} then root else before[z]
      {
        assert z in parent;
      }
      MergedLabels(before, now, classes, x, y, root);
    }
  }

  /** Two elements share a root iff they share a label. */
  ghost predicate SameLabels<T>(roots: map<T, T>, classes: map<T, int>) {
    roots.Keys == classes.Keys &&
    forall a, b :: a in roots && b in roots ==> (roots[a] == roots[b] <==> classes[a] == classes[b])
  }

  /** A union that sends the roots of x and y to one of them merges their labels. */
  lemma MergedLabels<T>(before: map<T, T>, now: map<T, T>, classes: map<T, int>, x: T, y: T, root: T)
    requires SameLabels(before, classes) && x in classes && y in classes && classes[x] != classes[y]
    requires root in {before[x], before[y]} && now.Keys == before.Keys
    requires forall z :: z in before ==> now[z] == if before[z] in {before[x], before[y]} then root else before[z]
    ensures SameLabels(now, Merged(classes, classes[y], classes[x]))
  {
  }

  /** The labelling after the set labelled `moved` joined the set labelled `into`. */
  function Merged<T>(classes: map<T, int>, moved: int, into: int): (m: map<T, int>)
    ensures m.Keys == classes.Keys
    ensures forall z {:trigger m[z]} :: z in classes ==> m[z] == if classes[z] == moved then into else classes[z]
  {
    map z | z in classes :: if classes[z] == moved then into else classes[z]
  }
}

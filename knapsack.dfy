/**
 * `knapsack_without_repetition` from knapsack.py: the 0/1 knapsack by a
 * dynamic-programming table over (knapsack weight, number of items), then a
 * walk back through the recorded choices.
 *
 * The source keeps `table` as a list of rows, one per knapsack weight
 * 0..capacity, each with a column per item count 0..n; it is an `array2`
 * here. Its `previous` dict maps (weight, item) to (previous weight,
 * item - 1); the item part is always item - 1, so only the previous weight
 * is stored.
 */
module Knapsack {
  import opened Wrappers
  import opened Builtins

  /** The returned pair: the best value and the sorted indices of the items packed. */
  datatype Packing = Packing(value: int, items: seq<int>)

  /** `if not weights: weights = values.copy()`; an absent argument is the empty list. */
  function EffectiveWeights(values: seq<int>, weights: seq<int>): seq<int> {
    if weights == [] then values else weights
  }

  // ---------------------------------------------------------------------
  // Item selections

  /** A set of items, written as its indices in increasing order, all below k. */
  predicate IsSelection(s: seq<int>, k: int) {
    StrictlyIncreasing(s) && forall i :: 0 <= i < |s| ==> 0 <= s[i] < k
  }

  /** The sum of xs over the indices in s. */
  function Total(xs: seq<int>, s: seq<int>): int
    requires forall i :: 0 <= i < |s| ==> 0 <= s[i] < |xs|
  {
    if s == [] then 0 else Total(xs, s[..|s| - 1]) + xs[s[|s| - 1]]
  }

  lemma {:induction false} TotalNonNegative(xs: seq<int>, s: seq<int>)
    requires forall i :: 0 <= i < |s| ==> 0 <= s[i] < |xs|
    requires forall i :: 0 <= i < |xs| ==> xs[i] >= 0
    ensures Total(xs, s) >= 0
  {
    if s != [] {
      TotalNonNegative(xs, s[..|s| - 1]);
    }
  }

  // ---------------------------------------------------------------------
  // The table and the walk back, as the source computes them

  /**
   * `table[c][k]`. Row 0 and column 0 keep their initial 0: the loop runs
   * over knapsack weights 1..capacity only. Otherwise item k is added when
   * it fits and strictly improves on leaving it out.
   */
  function Table(v: seq<int>, w: seq<int>, c: nat, k: nat): int
    requires |w| == |v| && k <= |v|
    decreases k, 1
  {
    if k == 0 || c == 0 then 0
    else if Takes(v, w, c, k) then Table(v, w, c - w[k - 1], k - 1) + v[k - 1]
    else Table(v, w, c, k - 1)
  }

  /** Whether the cell (c, k) records item k as added (`item_added > table[c][k]`). */
  predicate Takes(v: seq<int>, w: seq<int>, c: nat, k: nat)
    requires |w| == |v| && 1 <= k <= |v|
    decreases k, 0
  {
    c - w[k - 1] >= 0 && Table(v, w, c - w[k - 1], k - 1) + v[k - 1] > Table(v, w, c, k - 1)
  }

  /** The weight part of `previous[(c, k)]`. */
  function PreviousWeight(v: seq<int>, w: seq<int>, c: nat, k: nat): nat
    requires |w| == |v| && 1 <= k <= |v|
  {
    if Takes(v, w, c, k) then c - w[k - 1] else c
  }

  /**
   * The `content` list of the walk back from (c, k): it stops as soon as the
   * weight or the item count is 0, and records item k - 1 when the previous
   * weight is smaller.
   */
  function Walk(v: seq<int>, w: seq<int>, c: nat, k: nat): seq<int>
    requires |w| == |v| && k <= |v|
    decreases k
  {
    if c == 0 || k == 0 then []
    else
      var p := PreviousWeight(v, w, c, k);
      (if p < c then [k - 1] else []) + Walk(v, w, p, k - 1)
  }

  /** The walk records items in strictly decreasing order, each below k. */
  lemma {:induction false} WalkIsDecreasing(v: seq<int>, w: seq<int>, c: nat, k: nat)
    requires |w| == |v| && k <= |v|
    ensures StrictlyDecreasing(Walk(v, w, c, k))
    ensures forall i :: 0 <= i < |Walk(v, w, c, k)| ==> 0 <= Walk(v, w, c, k)[i] < k
    decreases k
  {
    if c != 0 && k != 0 {
      WalkIsDecreasing(v, w, PreviousWeight(v, w, c, k), k - 1);
    }
  }

  /**
   * `knapsack_without_repetition(capacity, values, weights)`, including the
   * exceptions the code raises: ValueError for lists of different lengths;
   * for a negative capacity the table has no rows, so the walk back fails on
   * the missing `previous` key, or, with no items, reading the table fails;
   * a negative weight makes `table[knapsack_weight - item_weight]` read past
   * the last row once the knapsack weight reaches the capacity.
   */
  function Solution(capacity: int, values: seq<int>, weights: seq<int>): (r: Result<Packing>)
    ensures var w := EffectiveWeights(values, weights);
      r.Failure? <==>
        |values| != |w| || capacity < 0 || (capacity >= 1 && exists i :: 0 <= i < |w| && w[i] < 0)
    ensures r.Failure? && |values| != |EffectiveWeights(values, weights)| ==> r.error == ValueError
    ensures r.Failure? && |values| == |EffectiveWeights(values, weights)| ==>
      r.error == (if capacity < 0 && |values| > 0 then KeyError else IndexError)
    ensures r.Success? ==> IsSelection(r.value.items, |values|)
  {
    var w := EffectiveWeights(values, weights);
    if |values| != |w| then Failure(ValueError)
    else if capacity < 0 then (if |values| == 0 then Failure(IndexError) else Failure(KeyError))
    else if capacity >= 1 && exists i :: 0 <= i < |w| && w[i] < 0 then Failure(IndexError)
    else
      var walk := Walk(values, w, capacity, |values|);
      WalkIsDecreasing(values, w, capacity, |values|);
      SortOfDecreasing(walk);
      Success(Packing(Table(values, w, capacity, |values|), Sort(walk)))
  }

  // ---------------------------------------------------------------------
  // The imperative code

  method KnapsackWithoutRepetition(capacity: int, values: seq<int>, weights: seq<int>)
    returns (r: Result<Packing>)
    ensures r == Solution(capacity, values, weights)
  {
    var w := weights;
    if w == [] {
      w := values;
    }
    if |values| != |w| {
      return Failure(ValueError);
    }
    var n := |values|;
    if capacity < 0 {
      if n == 0 {
        return Failure(IndexError);
      }
      return Failure(KeyError);
    }
    var ok, table, previous := FillTable(values, w, capacity);
    if !ok {
      return Failure(IndexError);
    }
    var content := WalkBack(values, w, capacity, previous);
    r := Success(Packing(table[capacity, n], Sort(content)));
  }

  /**
   * The nested loop over items and knapsack weights. It stops with
   * `ok == false` where the source raises IndexError.
   */
  method FillTable(values: seq<int>, w: seq<int>, capacity: nat)
    returns (ok: bool, table: array2<int>, previous: array2<int>)
    requires |w| == |values|
    ensures ok <==> capacity == 0 || forall i :: 0 <= i < |w| ==> w[i] >= 0
    ensures table.Length0 == capacity + 1 && table.Length1 == |values| + 1
    ensures previous.Length0 == capacity + 1 && previous.Length1 == |values| + 1
    ensures ok ==> forall c, k :: 0 <= c <= capacity && 0 <= k <= |values| ==> table[c, k] == Table(values, w, c, k)
    ensures ok ==> forall c, k :: 1 <= c <= capacity && 1 <= k <= |values| ==> previous[c, k] == PreviousWeight(values, w, c, k)
  {
    var n := |values|;
    table := new int[capacity + 1, n + 1]((c, k) => 0);
    previous := new int[capacity + 1, n + 1]((c, k) => 0);
    for item := 1 to n + 1
      invariant forall c, k :: 0 <= c <= capacity && 0 <= k < item ==> table[c, k] == Table(values, w, c, k)
      invariant forall c, k :: 1 <= c <= capacity && 1 <= k < item ==> previous[c, k] == PreviousWeight(values, w, c, k)
      invariant forall k :: item <= k <= n ==> table[0, k] == 0
      invariant capacity >= 1 ==> forall i :: 0 <= i < item - 1 ==> w[i] >= 0
    {
      ok := FillColumn(values, w, capacity, table, previous, item);
      if !ok {
        return;
      }
    }
    ok := true;
  }

  /** The `while` loop walking back from (capacity, n) through `previous`. */
  method WalkBack(values: seq<int>, w: seq<int>, capacity: nat, previous: array2<int>) returns (content: seq<int>)
    requires |w| == |values|
    requires capacity == 0 || forall i :: 0 <= i < |w| ==> w[i] >= 0
    requires previous.Length0 == capacity + 1 && previous.Length1 == |values| + 1
    requires forall c, k :: 1 <= c <= capacity && 1 <= k <= |values| ==> previous[c, k] == PreviousWeight(values, w, c, k)
    ensures content == Walk(values, w, capacity, |values|)
  {
    content := [];
    var weight, item := capacity, |values|;
    while weight != 0 && item != 0
      invariant 0 <= weight <= capacity && 0 <= item <= |values|
      invariant content + Walk(values, w, weight, item) == Walk(values, w, capacity, |values|)
      decreases item
    {
      var previousWeight := previous[weight, item];
      ghost var rest := Walk(values, w, previousWeight, item - 1);
      if previousWeight < weight {
        assert content + Walk(values, w, weight, item) == (content + [item - 1]) + rest;
        content := content + [item - 1];
      }
      weight, item := previousWeight, item - 1;
    }
  }

  /**
   * One column of the nested loop: every knapsack weight 1..capacity for one
   * item. It stops with `ok == false` where the source raises IndexError.
   */
  method FillColumn(values: seq<int>, w: seq<int>, capacity: int, table: array2<int>, previous: array2<int>, item: int)
    returns (ok: bool)
    requires |w| == |values| && 1 <= item <= |values| && capacity >= 0
    requires table.Length0 == capacity + 1 && table.Length1 == |values| + 1
    requires previous.Length0 == capacity + 1 && previous.Length1 == |values| + 1
    requires table != previous
    requires forall c, k :: 0 <= c <= capacity && k == item - 1 ==> table[c, k] == Table(values, w, c, k)
    requires table[0, item] == 0
    modifies table, previous
    ensures ok <==> capacity == 0 || w[item - 1] >= 0
    ensures forall c, k :: 0 <= c <= capacity && 0 <= k <= |values| && k != item ==> table[c, k] == old(table[c, k])
    ensures forall c, k :: 0 <= c <= capacity && 0 <= k <= |values| && k != item ==> previous[c, k] == old(previous[c, k])
    ensures ok ==> forall c :: 0 <= c <= capacity ==> table[c, item] == Table(values, w, c, item)
    ensures ok ==> forall c :: 1 <= c <= capacity ==> previous[c, item] == PreviousWeight(values, w, c, item)
  {
    var itemValue, itemWeight := values[item - 1], w[item - 1];
    for knapsackWeight := 1 to capacity + 1
      invariant forall c, k :: 0 <= c <= capacity && 0 <= k <= |values| && k != item ==> table[c, k] == old(table[c, k])
      invariant forall c, k :: 0 <= c <= capacity && 0 <= k <= |values| && k != item ==> previous[c, k] == old(previous[c, k])
      invariant forall c :: 0 <= c < knapsackWeight ==> table[c, item] == Table(values, w, c, item)
      invariant forall c :: 1 <= c < knapsackWeight ==> previous[c, item] == PreviousWeight(values, w, c, item)
      invariant knapsackWeight >= 2 ==> itemWeight >= knapsackWeight - 1 - capacity
    {
      var best, from := table[knapsackWeight, item - 1], knapsackWeight;
      if knapsackWeight - itemWeight >= 0 {
        if knapsackWeight - itemWeight > capacity {
          return false;
        }
        var itemAdded := table[knapsackWeight - itemWeight, item - 1] + itemValue;
        if itemAdded > best {
          best, from := itemAdded, knapsackWeight - itemWeight;
        }
      }
      assert best == Table(values, w, knapsackWeight, item);
      assert from == PreviousWeight(values, w, knapsackWeight, item);
      table[knapsackWeight, item] := best;
      previous[knapsackWeight, item] := from;
    }
    ok := true;
  }

  // ---------------------------------------------------------------------
  // The intended table: every knapsack weight, 0 included, and a walk back
  // that records every item added

  function IntendedTable(v: seq<int>, w: seq<int>, c: nat, k: nat): int
    requires |w| == |v| && k <= |v|
    decreases k, 1
  {
    if k == 0 then 0
    else if IntendedTakes(v, w, c, k) then IntendedTable(v, w, c - w[k - 1], k - 1) + v[k - 1]
    else IntendedTable(v, w, c, k - 1)
  }

  predicate IntendedTakes(v: seq<int>, w: seq<int>, c: nat, k: nat)
    requires |w| == |v| && 1 <= k <= |v|
    decreases k, 0
  {
    c - w[k - 1] >= 0 && IntendedTable(v, w, c - w[k - 1], k - 1) + v[k - 1] > IntendedTable(v, w, c, k - 1)
  }

  /** The items the intended walk back records, in increasing order. */
  function IntendedPicks(v: seq<int>, w: seq<int>, c: nat, k: nat): seq<int>
    requires |w| == |v| && k <= |v|
    decreases k
  {
    if k == 0 then []
    else if IntendedTakes(v, w, c, k) then IntendedPicks(v, w, c - w[k - 1], k - 1) + [k - 1]
    else IntendedPicks(v, w, c, k - 1)
  }

  /** No index lies below 0, so the only selection among no items is empty. */
  lemma NoSelectionOfNothing(s: seq<int>)
    ensures IsSelection(s, 0) ==> s == []
  {
    if s != [] {
      assert !(0 <= s[0] < 0);
    }
  }

  /** With weights of at least 0, no selection within capacity c is worth more than the intended table. */
  lemma {:induction false} IntendedTableIsOptimal(v: seq<int>, w: seq<int>, c: nat, k: nat, s: seq<int>)
    requires |w| == |v| && k <= |v|
    requires forall i :: 0 <= i < |w| ==> w[i] >= 0
    requires IsSelection(s, k) && Total(w, s) <= c
    ensures Total(v, s) <= IntendedTable(v, w, c, k)
    decreases k
  {
    if k == 0 {
      NoSelectionOfNothing(s);
    } else if s != [] && s[|s| - 1] == k - 1 {
      var s' := s[..|s| - 1];
      assert IsSelection(s', k - 1) by {
        forall i | 0 <= i < |s'|
          ensures s'[i] < k - 1
        {
          assert s'[i] == s[i] < s[|s| - 1];
        }
      }
      TotalNonNegative(w, s');
      IntendedTableIsOptimal(v, w, c - w[k - 1], k - 1, s');
    } else {
      assert IsSelection(s, k - 1) by {
        forall i | 0 <= i < |s|
          ensures s[i] < k - 1
        {
          assert s[i] <= s[|s| - 1];
        }
      }
      IntendedTableIsOptimal(v, w, c, k - 1, s);
    }
  }

  /** The intended walk back packs a selection within capacity c worth exactly the intended table. */
  lemma {:induction false} IntendedPicksAchieve(v: seq<int>, w: seq<int>, c: nat, k: nat)
    requires |w| == |v| && k <= |v|
    ensures IsSelection(IntendedPicks(v, w, c, k), k)
    ensures Total(w, IntendedPicks(v, w, c, k)) <= c
    ensures Total(v, IntendedPicks(v, w, c, k)) == IntendedTable(v, w, c, k)
    decreases k
  {
    if k > 0 {
      if IntendedTakes(v, w, c, k) {
        var p := IntendedPicks(v, w, c - w[k - 1], k - 1);
        IntendedPicksAchieve(v, w, c - w[k - 1], k - 1);
        assert (p + [k - 1])[..|p|] == p;
      } else {
        IntendedPicksAchieve(v, w, c, k - 1);
      }
    }
  }

  /** With positive weights nothing fits in the empty knapsack. */
  lemma {:induction false} NothingFitsInEmptyKnapsack(v: seq<int>, w: seq<int>, k: nat)
    requires |w| == |v| && k <= |v|
    requires forall i :: 0 <= i < |w| ==> w[i] >= 1
    ensures IntendedTable(v, w, 0, k) == 0 && IntendedPicks(v, w, 0, k) == []
    decreases k
  {
    if k > 0 {
      NothingFitsInEmptyKnapsack(v, w, k - 1);
    }
  }

  /** `reversed` moves the first element to the end. */
  lemma ReverseCons(x: int, s: seq<int>)
    ensures Reverse([x] + s) == Reverse(s) + [x]
  {
    assert ([x] + s)[1..] == s;
  }

  /**
   * With positive weights the source's table and walk are the intended ones:
   * row 0 is all zero anyway, and every item added lowers the weight.
   */
  lemma {:induction false} AsWrittenIsIntendedForPositiveWeights(v: seq<int>, w: seq<int>, c: nat, k: nat)
    requires |w| == |v| && k <= |v|
    requires forall i :: 0 <= i < |w| ==> w[i] >= 1
    ensures Table(v, w, c, k) == IntendedTable(v, w, c, k)
    ensures Reverse(Walk(v, w, c, k)) == IntendedPicks(v, w, c, k)
    decreases k
  {
    if k > 0 {
      if c == 0 {
        NothingFitsInEmptyKnapsack(v, w, k);
      } else {
        AsWrittenIsIntendedForPositiveWeights(v, w, c, k - 1);
        if c - w[k - 1] >= 0 {
          AsWrittenIsIntendedForPositiveWeights(v, w, c - w[k - 1], k - 1);
        }
        assert Takes(v, w, c, k) == IntendedTakes(v, w, c, k);
        var p := PreviousWeight(v, w, c, k);
        if p < c {
          ReverseCons(k - 1, Walk(v, w, p, k - 1));
        } else {
          assert Walk(v, w, c, k) == Walk(v, w, c, k - 1);
        }
      }
    }
  }

  // ---------------------------------------------------------------------
  // What `knapsack_without_repetition` returns

  /** The items returned are distinct indices in increasing order, all below n. */
  lemma ItemsAreSortedIndices(capacity: int, values: seq<int>, weights: seq<int>)
    requires Solution(capacity, values, weights).Success?
    ensures var items := Solution(capacity, values, weights).value.items;
      StrictlyIncreasing(items) && forall i :: 0 <= i < |items| ==> 0 <= items[i] < |values|
  {
  }

  /** With positive weights, no selection of items within the capacity is worth more than the value returned. */
  lemma KnapsackIsOptimal(capacity: int, values: seq<int>, weights: seq<int>, s: seq<int>)
    requires Solution(capacity, values, weights).Success?
    requires forall i :: 0 <= i < |EffectiveWeights(values, weights)| ==> EffectiveWeights(values, weights)[i] >= 1
    requires IsSelection(s, |values|) && Total(EffectiveWeights(values, weights), s) <= capacity
    ensures Total(values, s) <= Solution(capacity, values, weights).value.value
  {
    var w := EffectiveWeights(values, weights);
    AsWrittenIsIntendedForPositiveWeights(values, w, capacity, |values|);
    IntendedTableIsOptimal(values, w, capacity, |values|, s);
  }

  /** With positive weights, the items returned fit in the knapsack and are worth exactly the value returned. */
  lemma KnapsackPacksItsValue(capacity: int, values: seq<int>, weights: seq<int>)
    requires Solution(capacity, values, weights).Success?
    requires forall i :: 0 <= i < |EffectiveWeights(values, weights)| ==> EffectiveWeights(values, weights)[i] >= 1
    ensures var p := Solution(capacity, values, weights).value;
      Total(EffectiveWeights(values, weights), p.items) <= capacity && Total(values, p.items) == p.value
  {
    var w := EffectiveWeights(values, weights);
    var walk := Walk(values, w, capacity, |values|);
    WalkIsDecreasing(values, w, capacity, |values|);
    SortOfDecreasing(walk);
    AsWrittenIsIntendedForPositiveWeights(values, w, capacity, |values|);
    IntendedPicksAchieve(values, w, capacity, |values|);
  }

  /** An empty knapsack, or no items at all, gives `(0, [])`. */
  lemma EmptyKnapsackOrNoItems(capacity: int, values: seq<int>, weights: seq<int>)
    requires |values| == |EffectiveWeights(values, weights)|
    requires capacity == 0 || (capacity >= 0 && values == [])
    ensures Solution(capacity, values, weights) == Success(Packing(0, []))
  {
  }

  // The docstring and test-file examples.

  /** `Solution` on non-negative weights, from its table entry and its walk. */
  lemma SolutionFromParts(capacity: nat, v: seq<int>, w: seq<int>, value: int, walk: seq<int>)
    requires |v| == |w| && w != [] && forall i :: 0 <= i < |w| ==> w[i] >= 0
    requires Table(v, w, capacity, |v|) == value && Walk(v, w, capacity, |v|) == walk
    ensures Solution(capacity, v, w) == Success(Packing(value, Sort(walk)))
  {
  }

  /** Sorting two items recorded in decreasing order swaps them. */
  lemma SortTwo(a: int, b: int)
    requires a > b
    ensures Sort([a, b]) == [b, a]
  {
    assert [a, b][1..] == [b] && [b][1..] == [];
    assert Sort([b]) == [b];
    assert [b][1..] == [];
    assert Insert(a, [b]) == [b] + Builtins.Insert(a, []);
  }

  /** `knapsack_without_repetition(5, [100, 100, 1], [10, 10, 1]) == (1, [2])`. */
  lemma ExampleDoc1()
    ensures Solution(5, [100, 100, 1], [10, 10, 1]) == Success(Packing(1, [2]))
  {
    assert forall i :: 0 <= i < 3 ==> [10, 10, 1][i] >= 0;
    assert Table([100, 100, 1], [10, 10, 1], 5, 3) == 1;
    assert Walk([100, 100, 1], [10, 10, 1], 5, 3) == [2];
    SolutionFromParts(5, [100, 100, 1], [10, 10, 1], 1, [2]);
    assert Sort([2]) == [2];
  }

  /** `knapsack_without_repetition(20, [100, 100, 1], [10, 10, 1]) == (200, [0, 1])`. */
  lemma ExampleDoc2()
    ensures Solution(20, [100, 100, 1], [10, 10, 1]) == Success(Packing(200, [0, 1]))
  {
    assert forall i :: 0 <= i < 3 ==> [10, 10, 1][i] >= 0;
    assert Table([100, 100, 1], [10, 10, 1], 20, 3) == 200;
    assert Walk([100, 100, 1], [10, 10, 1], 20, 3) == [1, 0];
    SolutionFromParts(20, [100, 100, 1], [10, 10, 1], 200, [1, 0]);
    SortTwo(1, 0);
  }

  /** `kwr(10, [9, 16, 14, 30], [2, 4, 3, 6]) == (46, [1, 3])`. */
  lemma ExampleTest4()
    ensures Solution(10, [9, 16, 14, 30], [2, 4, 3, 6]) == Success(Packing(46, [1, 3]))
  {
    assert forall i :: 0 <= i < 4 ==> [2, 4, 3, 6][i] >= 0;
    assert Table([9, 16, 14, 30], [2, 4, 3, 6], 10, 4) == 46;
    assert Walk([9, 16, 14, 30], [2, 4, 3, 6], 10, 4) == [3, 1];
    SolutionFromParts(10, [9, 16, 14, 30], [2, 4, 3, 6], 46, [3, 1]);
    SortTwo(3, 1);
  }

  /** `kwr(10, [9, 14, 16, 30], [2, 3, 4, 6]) == (46, [2, 3])`. */
  lemma ExampleTest5()
    ensures Solution(10, [9, 14, 16, 30], [2, 3, 4, 6]) == Success(Packing(46, [2, 3]))
  {
    assert forall i :: 0 <= i < 4 ==> [2, 3, 4, 6][i] >= 0;
    assert Table([9, 14, 16, 30], [2, 3, 4, 6], 10, 4) == 46;
    assert Walk([9, 14, 16, 30], [2, 3, 4, 6], 10, 4) == [3, 2];
    SolutionFromParts(10, [9, 14, 16, 30], [2, 3, 4, 6], 46, [3, 2]);
    SortTwo(3, 2);
  }

  // Items of weight 0.

  /**
   * Row 0 of the table is never filled, so an item of weight 0 adds its
   * value only to knapsack weights of at least 1 taken before the last
   * item: with capacity 1, values [3, 5] and weights [0, 1] the code returns
   * (5, [1]) although both items fit together and are worth 8.
   */
  lemma ZeroWeightMissesOptimum()
    ensures Solution(1, [3, 5], [0, 1]) == Success(Packing(5, [1]))
    ensures IsSelection([0, 1], 2) && Total([0, 1], [0, 1]) <= 1 && Total([3, 5], [0, 1]) == 8
  {
    assert forall i :: 0 <= i < 2 ==> [0, 1][i] >= 0;
    assert Table([3, 5], [0, 1], 1, 2) == 5;
    assert Walk([3, 5], [0, 1], 1, 2) == [1];
    SolutionFromParts(1, [3, 5], [0, 1], 5, [1]);
    assert Sort([1]) == [1];
  }

  /**
   * The walk back records an item only when the weight drops, so an item of
   * weight 0 that was added is counted in the value but missing from the
   * items: capacity 1, values [3], weights [0] gives (3, []).
   */
  lemma ZeroWeightItemNotReported()
    ensures Solution(1, [3], [0]) == Success(Packing(3, []))
    ensures Total([3], []) == 0
  {
    assert forall i :: 0 <= i < 1 ==> [0][i] >= 0;
    assert Table([3], [0], 1, 1) == 3;
    assert Walk([3], [0], 1, 1) == [];
    SolutionFromParts(1, [3], [0], 3, []);
  }

  /** The intended table and walk get the example above right: both items, worth 8. */
  lemma IntendedZeroWeightExample()
    ensures IntendedTable([3, 5], [0, 1], 1, 2) == 8
    ensures IntendedPicks([3, 5], [0, 1], 1, 2) == [0, 1]
  {
  }
}

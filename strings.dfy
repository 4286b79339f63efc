/**
 * `longest_common_substring` from strings.py. Despite its name it computes
 * a longest common subsequence: a dynamic-programming table of lengths and
 * back-pointers, then a walk back from the last cell.
 *
 * The source keys both tables by (i, j) with i, j >= -1, reading 0 at
 * index -1 from a `defaultdict(int)`. Here the tables are indexed by prefix
 * lengths x = i + 1 and y = j + 1, so that row and column 0 hold those
 * defaults.
 */
module Strings {
  import opened Builtins

  /** Whether c can be obtained from s by deleting characters. */
  predicate IsSubsequence(c: string, s: string)
    decreases |s|
  {
    if c == [] then true
    else if s == [] then false
    else
      (c[|c| - 1] == s[|s| - 1] && IsSubsequence(c[..|c| - 1], s[..|s| - 1])) ||
      IsSubsequence(c, s[..|s| - 1])
  }

  /**
   * The table entry for prefixes a[..x] and b[..y]: one more than the
   * diagonal on a match, otherwise the larger of up and left, up on ties.
   */
  function LcsLength(a: string, b: string, x: nat, y: nat): nat
    requires x <= |a| && y <= |b|
    decreases x + y
  {
    if x == 0 || y == 0 then 0
    else if a[x - 1] == b[y - 1] then 1 + LcsLength(a, b, x - 1, y - 1)
    else if LcsLength(a, b, x - 1, y) >= LcsLength(a, b, x, y - 1) then LcsLength(a, b, x - 1, y)
    else LcsLength(a, b, x, y - 1)
  }

  /** The back-pointer `previous[(i, j)]`: to the diagonal, up (i - 1) or left (j - 1). */
  datatype Move = Diagonal | Up | Left

  function Previous(a: string, b: string, x: nat, y: nat): Move
    requires 1 <= x <= |a| && 1 <= y <= |b|
  {
    if a[x - 1] == b[y - 1] then Diagonal
    else if LcsLength(a, b, x - 1, y) >= LcsLength(a, b, x, y - 1) then Up
    else Left
  }

  /**
   * The characters the walk back from (x, y) collects, in string order: a
   * character is emitted exactly on diagonal steps.
   */
  function LcsTrace(a: string, b: string, x: nat, y: nat): string
    requires x <= |a| && y <= |b|
    decreases x + y
  {
    if x == 0 || y == 0 then []
    else
      match Previous(a, b, x, y)
      case Diagonal => LcsTrace(a, b, x - 1, y - 1) + [a[x - 1]]
      case Up => LcsTrace(a, b, x - 1, y)
      case Left => LcsTrace(a, b, x, y - 1)
  }

  /** The walk back collects as many characters as the table promises. */
  lemma {:induction false} TraceLength(a: string, b: string, x: nat, y: nat)
    requires x <= |a| && y <= |b|
    ensures |LcsTrace(a, b, x, y)| == LcsLength(a, b, x, y)
    decreases x + y
  {
    if x > 0 && y > 0 {
      match Previous(a, b, x, y)
      case Diagonal => TraceLength(a, b, x - 1, y - 1);
      case Up => TraceLength(a, b, x - 1, y);
      case Left => TraceLength(a, b, x, y - 1);
    }
  }

  /** What the walk back collects is a subsequence of both prefixes. */
  lemma {:induction false} TraceIsCommonSubsequence(a: string, b: string, x: nat, y: nat)
    requires x <= |a| && y <= |b|
    ensures IsSubsequence(LcsTrace(a, b, x, y), a[..x])
    ensures IsSubsequence(LcsTrace(a, b, x, y), b[..y])
    decreases x + y
  {
    if x > 0 && y > 0 {
      var t := LcsTrace(a, b, x, y);
      assert a[..x][..x - 1] == a[..x - 1];
      assert b[..y][..y - 1] == b[..y - 1];
      match Previous(a, b, x, y)
      case Diagonal =>
        TraceIsCommonSubsequence(a, b, x - 1, y - 1);
        assert t[..|t| - 1] == LcsTrace(a, b, x - 1, y - 1);
      case Up =>
        TraceIsCommonSubsequence(a, b, x - 1, y);
        SubsequenceOfLonger(t, a[..x]);
      case Left =>
        TraceIsCommonSubsequence(a, b, x, y - 1);
        SubsequenceOfLonger(t, b[..y]);
    }
  }

  /** Dropping nothing but the last character of s keeps a subsequence of s[..|s| - 1] one of s. */
  lemma SubsequenceOfLonger(c: string, s: string)
    requires s != [] && IsSubsequence(c, s[..|s| - 1])
    ensures IsSubsequence(c, s)
  {
  }

  /**
   * Removing one character from either string changes the table entry by at
   * most one, and never increases it.
   */
  lemma {:induction false} LcsSteps(a: string, b: string, x: nat, y: nat)
    requires x <= |a| && y <= |b|
    ensures x >= 1 ==> LcsLength(a, b, x - 1, y) <= LcsLength(a, b, x, y) <= LcsLength(a, b, x - 1, y) + 1
    ensures y >= 1 ==> LcsLength(a, b, x, y - 1) <= LcsLength(a, b, x, y) <= LcsLength(a, b, x, y - 1) + 1
    decreases x + y
  {
    if x >= 1 && y >= 1 {
      LcsSteps(a, b, x - 1, y);
      LcsSteps(a, b, x, y - 1);
    }
  }

  /** No common subsequence of the prefixes is longer than the table entry. */
  lemma {:induction false} LcsIsLongest(a: string, b: string, x: nat, y: nat, c: string)
    requires x <= |a| && y <= |b|
    requires IsSubsequence(c, a[..x]) && IsSubsequence(c, b[..y])
    ensures |c| <= LcsLength(a, b, x, y)
    decreases x + y
  {
    if c != [] {
      assert x > 0 && y > 0;
      assert a[..x][..x - 1] == a[..x - 1];
      assert b[..y][..y - 1] == b[..y - 1];
      LcsSteps(a, b, x, y);
      if IsSubsequence(c, a[..x - 1]) {
        LcsIsLongest(a, b, x - 1, y, c);
      } else if IsSubsequence(c, b[..y - 1]) {
        LcsIsLongest(a, b, x, y - 1, c);
      } else {
        LcsIsLongest(a, b, x - 1, y - 1, c[..|c| - 1]);
      }
    }
  }

  /**
   * `longest_common_substring(string_a, string_b)`: fill both tables row by
   * row, walk the back-pointers from the last cell collecting characters on
   * diagonal steps, and return them reversed.
   */
  method LongestCommonSubstring(a: string, b: string) returns (r: string)
    ensures r == LcsTrace(a, b, |a|, |b|)
    ensures |a| == 0 || |b| == 0 ==> r == ""
  {
    if |a| == 0 || |b| == 0 {
      return "";
    }
    var lengths, previous := FillTables(a, b);
    var answer: string := [];
    var x, y := |a|, |b|;
    while x > 0 && y > 0
      invariant 0 <= x <= |a| && 0 <= y <= |b|
      invariant forall x, y :: 1 <= x <= |a| && 1 <= y <= |b| ==> previous[x, y] == Previous(a, b, x, y)
      invariant LcsTrace(a, b, x, y) + Reverse(answer) == LcsTrace(a, b, |a|, |b|)
      decreases x + y
    {
      var step := previous[x, y];
      if step == Diagonal {
        ReverseAppend(answer, a[x - 1]);
        assert LcsTrace(a, b, x, y) + Reverse(answer) ==
          LcsTrace(a, b, x - 1, y - 1) + Reverse(answer + [a[x - 1]]);
        answer := answer + [a[x - 1]];
        x, y := x - 1, y - 1;
      } else if step == Up {
        x := x - 1;
      } else {
        y := y - 1;
      }
    }
    r := Reverse(answer);
  }

  /** The two nested `for` loops of `longest_common_substring`. */
  method FillTables(a: string, b: string) returns (lengths: array2<int>, previous: array2<Move>)
    ensures lengths.Length0 == |a| + 1 && lengths.Length1 == |b| + 1
    ensures previous.Length0 == |a| + 1 && previous.Length1 == |b| + 1
    ensures forall x, y :: 0 <= x <= |a| && 0 <= y <= |b| ==> lengths[x, y] == LcsLength(a, b, x, y)
    ensures forall x, y :: 1 <= x <= |a| && 1 <= y <= |b| ==> previous[x, y] == Previous(a, b, x, y)
  {
    lengths := new int[|a| + 1, |b| + 1]((x, y) => 0);
    previous := new Move[|a| + 1, |b| + 1]((x, y) => Up);
    for i := 1 to |a| + 1
      invariant forall x, y :: 0 <= x < i && 0 <= y <= |b| ==> lengths[x, y] == LcsLength(a, b, x, y)
      invariant forall x, y :: 1 <= x < i && 1 <= y <= |b| ==> previous[x, y] == Previous(a, b, x, y)
      invariant forall x :: i <= x <= |a| ==> lengths[x, 0] == 0
    {
      FillRow(a, b, lengths, previous, i);
    }
  }

  /** One pass of the inner loop: row i of both tables, from the row above. */
  method FillRow(a: string, b: string, lengths: array2<int>, previous: array2<Move>, i: int)
    requires lengths.Length0 == |a| + 1 && lengths.Length1 == |b| + 1
    requires previous.Length0 == |a| + 1 && previous.Length1 == |b| + 1
    requires lengths != previous as object
    requires 1 <= i <= |a|
    requires forall x, y :: 0 <= x < i && 0 <= y <= |b| ==> lengths[x, y] == LcsLength(a, b, x, y)
    requires lengths[i, 0] == 0
    modifies lengths, previous
    ensures forall x, y :: 0 <= x <= |a| && 0 <= y <= |b| && x != i ==> lengths[x, y] == old(lengths[x, y])
    ensures forall x, y :: 0 <= x <= |a| && 0 <= y <= |b| && x != i ==> previous[x, y] == old(previous[x, y])
    ensures forall y :: 0 <= y <= |b| ==> lengths[i, y] == LcsLength(a, b, i, y)
    ensures forall y :: 1 <= y <= |b| ==> previous[i, y] == Previous(a, b, i, y)
  {
    for j := 1 to |b| + 1
      invariant forall x, y :: 0 <= x <= |a| && 0 <= y <= |b| && x != i ==> lengths[x, y] == old(lengths[x, y])
      invariant forall x, y :: 0 <= x <= |a| && 0 <= y <= |b| && x != i ==> previous[x, y] == old(previous[x, y])
      invariant forall y :: 0 <= y < j ==> lengths[i, y] == LcsLength(a, b, i, y)
      invariant forall y :: 1 <= y < j ==> previous[i, y] == Previous(a, b, i, y)
    {
      var length, step;
      if a[i - 1] == b[j - 1] {
        length, step := 1 + lengths[i - 1, j - 1], Diagonal;
      } else if lengths[i - 1, j] >= lengths[i, j - 1] {
        length, step := lengths[i - 1, j], Up;
      } else {
        length, step := lengths[i, j - 1], Left;
      }
      assert length == LcsLength(a, b, i, j) && step == Previous(a, b, i, j);
      lengths[i, j] := length;
      previous[i, j] := step;
    }
  }

  /** The result is a longest common subsequence of the two strings. */
  lemma LongestCommonSubstringIsLcs(a: string, b: string, c: string)
    ensures IsSubsequence(LcsTrace(a, b, |a|, |b|), a)
    ensures IsSubsequence(LcsTrace(a, b, |a|, |b|), b)
    ensures IsSubsequence(c, a) && IsSubsequence(c, b) ==> |c| <= |LcsTrace(a, b, |a|, |b|)|
  {
    assert a[..|a|] == a && b[..|b|] == b;
    TraceIsCommonSubsequence(a, b, |a|, |b|);
    TraceLength(a, b, |a|, |b|);
    if IsSubsequence(c, a) && IsSubsequence(c, b) {
      LcsIsLongest(a, b, |a|, |b|, c);
    }
  }

  // The docstring and test-file examples, evaluated on the specification.

  /** `longest_common_substring('aabkc', 'afbcg') == 'abc'`. */
  lemma ExampleDoc1()
    ensures LcsTrace("aabkc", "afbcg", 5, 5) == "abc"
  {
  }

  /** `longest_common_substring('abc', 'auboc') == 'abc'`. */
  lemma ExampleDoc2()
    ensures LcsTrace("abc", "auboc", 3, 5) == "abc"
  {
  }

  /** `longest_common_substring('AGGTAB', 'GXTXAYB') == 'GTAB'`. */
  lemma ExampleTest2()
    ensures LcsTrace("AGGTAB", "GXTXAYB", 6, 7) == "GTAB"
  {
  }

  /** `longest_common_substring('DaFEnGswGer', '') == ''`. */
  lemma ExampleTest8()
    ensures LcsTrace("DaFEnGswGer", "", 11, 0) == ""
  {
  }
}

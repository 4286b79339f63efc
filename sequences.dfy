/**
 * `fib` from sequences.py: the Fibonacci numbers indexed so that
 * fib(0) == fib(1) == 1.
 */
module Sequences {

  /** Plain double recursion, as in the source; every value is at least 1. */
  function Fib(n: nat): (r: nat)
    ensures r >= 1
  {
    if n == 0 || n == 1 then 1 else Fib(n - 1) + Fib(n - 2)
  }

  /**
   * A reference definition that walks the sequence once, carrying two
   * neighbouring values: from (1, 1), each step turns (a, b) into (b, a + b).
   */
  function FibPair(n: nat): (int, int) {
    if n == 0 then (1, 1)
    else
      var p := FibPair(n - 1);
      (p.1, p.0 + p.1)
  }

  /** The double recursion agrees with the single walk: step n holds fib(n) and fib(n + 1). */
  lemma {:induction false} FibPairIsFib(n: nat)
    ensures FibPair(n) == (Fib(n), Fib(n + 1))
  {
    if n > 0 {
      FibPairIsFib(n - 1);
    }
  }

  /** The values never fall behind their index: fib(n) >= n. */
  lemma {:induction false} FibAtLeastIndex(n: nat)
    ensures Fib(n) >= n
  {
    if n >= 2 {
      FibAtLeastIndex(n - 1);
    }
  }

  /** The values the doctest and the unit test check. */
  lemma FibExamples()
    ensures Fib(2) == 2
    ensures Fib(5) == 8
  {
    assert Fib(3) == 3;
    assert Fib(4) == 5;
  }
}

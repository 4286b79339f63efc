/**
 * The two trial-division prime generators of sandbox/sandbox_primes.py.
 * Each generator is a method returning the whole list it would yield.
 */
module SandboxPrimes {
  import opened Mathematics

  /**
   * `primes_naive(n)`: for each i in [2, n], look for a divisor in [2, i)
   * and yield i when there is none.
   */
  method PrimesNaive(n: int) returns (primes: seq<int>)
    ensures primes == PrimesUpTo(n)
  {
    primes := [];
    var i := 2;
    while i <= n
      invariant 2 <= i && (i <= n + 1 || i == 2)
      invariant primes == PrimesUpTo(i - 1)
    {
      var divisible := false;
      var j := 2;
      while j < i
        invariant 2 <= j <= i
        invariant !divisible
        invariant forall d :: 2 <= d < j ==> i % d != 0
      {
        if i % j == 0 {
          divisible := true;
          break;
        }
        j := j + 1;
      }
      assert divisible <==> !IsPrime(i);
      if !divisible {
        primes := primes + [i];
      }
      i := i + 1;
    }
  }

  /** The test the inner loop of `primes_odds_sqrt` applies: no odd j >= 3 with j*j <= i divides i. */
  ghost predicate OddTrialSurvivor(i: int) {
    forall j :: 3 <= j && j % 2 == 1 && j * j <= i ==> i % j != 0
  }

  /** The odd numbers in [3, m] that pass the odd trial division, in increasing order. */
  ghost function OddSurvivorsUpTo(m: int): (r: seq<int>)
    decreases m
  {
    if m < 3 then []
    else OddSurvivorsUpTo(m - 1) + (if m % 2 == 1 && OddTrialSurvivor(m) then [m] else [])
  }

  /** Everything `primes_odds_sqrt(n)` yields: 2 when n >= 2, then the odd survivors. */
  ghost function OddsSqrtOutput(n: int): (r: seq<int>) {
    (if n >= 2 then [2] else []) + OddSurvivorsUpTo(n)
  }

  /** For odd i, the odd trial division up to the square root decides primality. */
  lemma OddTrialSurvivorIsPrime(i: int)
    requires i >= 3 && i % 2 == 1
    ensures OddTrialSurvivor(i) <==> IsPrime(i)
  {
    MultiplySign(i, i - 1);
    SieveSurvivorIsPrime(i, i);
    SurvivesMeansNoSmallFactor(i, i);
    forall d | 2 <= d && d % 2 == 0
      ensures i % d != 0
    {
      OddHasNoEvenDivisor(i, d);
    }
    forall d | 2 <= d && d * d <= i
      ensures d < i
    {
      MultiplyMonotone(1, d, d, d);
    }
  }

  /** `primes_odds_sqrt` yields exactly the primes up to n, in increasing order. */
  lemma {:induction false} OddsSqrtYieldsPrimes(n: int)
    ensures OddsSqrtOutput(n) == PrimesUpTo(n)
    decreases n
  {
    if n >= 3 {
      OddsSqrtYieldsPrimes(n - 1);
      if n % 2 == 1 {
        OddTrialSurvivorIsPrime(n);
      } else {
        assert n % 2 == 0 && n > 2;
      }
      assert OddsSqrtOutput(n) == OddsSqrtOutput(n - 1) + (if IsPrime(n) then [n] else []);
    }
  }

  /** Two steps of `range(3, n + 1, 2)`: the even number after odd i adds nothing. */
  lemma OddSurvivorsStep(i: int)
    requires i >= 3 && i % 2 == 1
    ensures OddSurvivorsUpTo(i + 1) == OddSurvivorsUpTo(i - 1) + (if OddTrialSurvivor(i) then [i] else [])
  {
    assert (i + 1) % 2 == 0;
  }

  /** The inner loop of `primes_odds_sqrt`: try odd j = 3, 5, ... while j*j <= i. */
  method HasOddDivisor(i: int) returns (divisible: bool)
    requires i >= 3
    ensures divisible <==> !OddTrialSurvivor(i)
  {
    divisible := false;
    var j := 3;
    while j * j <= i
      invariant j >= 3 && j % 2 == 1
      invariant !divisible
      invariant forall d :: 3 <= d < j && d % 2 == 1 ==> i % d != 0
    {
      if i % j == 0 {
        divisible := true;
        break;
      }
      j := j + 2;
    }
    if !divisible {
      forall d | 3 <= d && d % 2 == 1 && d * d <= i
        ensures i % d != 0
      {
        MultiplyMonotone(j, d, j, d);
      }
    }
  }

  /**
   * `primes_odds_sqrt(n)`: yield 2 when n >= 2, then every odd i in [3, n]
   * with no odd divisor j, 3 <= j and j*j <= i.
   */
  method PrimesOddsSqrt(n: int) returns (primes: seq<int>)
    ensures primes == OddsSqrtOutput(n)
  {
    primes := if n >= 2 then [2] else [];
    var i := 3;
    while i <= n
      invariant i >= 3 && i % 2 == 1 && (i <= n + 2 || i == 3)
      invariant primes == (if n >= 2 then [2] else []) + OddSurvivorsUpTo(i - 1)
    {
      var divisible := HasOddDivisor(i);
      if !divisible {
        primes := primes + [i];
      }
      OddSurvivorsStep(i);
      i := i + 2;
    }
    assert OddSurvivorsUpTo(i - 1) == OddSurvivorsUpTo(n) by {
      if i - 1 == n + 1 {
        assert OddSurvivorsUpTo(n + 1) == OddSurvivorsUpTo(n);
      }
    }
  }

  /** The final check of the timing script: both generators produce the same list for every n. */
  method GeneratorsAgree(n: int) returns (agree: bool)
    ensures agree
  {
    var naive := PrimesNaive(n);
    var oddsSqrt := PrimesOddsSqrt(n);
    OddsSqrtYieldsPrimes(n);
    agree := naive == oddsSqrt;
  }
}

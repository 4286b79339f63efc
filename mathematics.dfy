/**
 * `prime_factors` and `prime_sieve` from mathematics.py, with the number
 * theory they rest on. The square-root bounds the source computes in
 * floating point (`int(n**0.5 + 1)`) are written as `d * d <= n`.
 */
module Mathematics {
  import opened Wrappers
  import opened Builtins

  predicate IsPrime(n: int) {
    n >= 2 && forall d :: 2 <= d < n ==> n % d != 0
  }

  /** The primes in [2, m], in increasing order. */
  function PrimesUpTo(m: int): (r: seq<int>)
    ensures forall p :: p in r <==> 2 <= p <= m && IsPrime(p)
    ensures StrictlyIncreasing(r)
    decreases m
  {
    if m < 2 then []
    else
      var smaller := PrimesUpTo(m - 1);
      assert forall k :: 0 <= k < |smaller| ==> smaller[k] in smaller;
      smaller + (if IsPrime(m) then [m] else [])
  }

  /** The product of a sequence; 1 for the empty one. */
  function Product(s: seq<int>): int {
    if s == [] then 1 else Product(s[..|s| - 1]) * s[|s| - 1]
  }

  // ---------------------------------------------------------------------
  // Division facts (Euclidean `/` and `%` agree with Python's floor
  // division here: every operand is positive).
  // ---------------------------------------------------------------------

  /** Sign facts of a product with a positive factor. */
  lemma MultiplySign(i: int, x: int)
    requires i > 0
    ensures x >= 1 ==> i * x >= i
    ensures x <= -1 ==> i * x <= -i
  {
  }

  /** Products of non-negative numbers are monotone in both factors. */
  lemma MultiplyMonotone(a: int, b: int, c: int, d: int)
    ensures 0 <= a <= b && 0 <= c <= d ==> a * c <= b * d
  {
    if 0 <= a <= b && 0 <= c <= d {
      assert a * c <= b * c;
    }
  }

  /** The quotient and remainder of `k` by `i` are the unique q, t with k == i*q + t, 0 <= t < i. */
  lemma DivModUnique(k: int, i: int, q: int, t: int)
    requires i > 0 && 0 <= t < i && k == i * q + t
    ensures k / i == q && k % i == t
  {
    var q', t' := k / i, k % i;
    assert i * (q - q') == t' - t;
    MultiplySign(i, q - q');
  }

  lemma MultipleMod(d: int, k: int)
    requires d > 0
    ensures (d * k) % d == 0 && (d * k) / d == k
  {
    DivModUnique(d * k, d, k, 0);
  }

  /** a | b and b | c give a | c. */
  lemma DividesTransitive(a: int, b: int, c: int)
    ensures a > 0 && b > 0 && b % a == 0 && c % b == 0 ==> c % a == 0
  {
    if a > 0 && b > 0 && b % a == 0 && c % b == 0 {
      var m, k := b / a, c / b;
      assert c == a * (m * k);
      MultipleMod(a, m * k);
    }
  }

  /** The cofactor n / d of a divisor d of n is a divisor too. */
  lemma Cofactor(n: int, d: int)
    ensures n >= 1 && d >= 1 && n % d == 0 ==>
      n == d * (n / d) && n / d >= 1 && n % (n / d) == 0 &&
      (d < n ==> n / d >= 2) && (d >= 2 ==> n / d < n)
  {
    if n >= 1 && d >= 1 && n % d == 0 {
      var q := n / d;
      assert n == d * q;
      MultiplySign(d, q);
      MultiplySign(d, q - 1);
      MultiplySign(q, d - 1);
      MultipleMod(q, d);
    }
  }

  /** A number with no divisor d, 2 <= d and d*d <= n, is prime. */
  lemma NoSmallDivisorMeansPrime(n: int, b: int)
    requires n >= 2 && b >= 0 && b * b > n
    requires forall d :: 2 <= d < b && d < n ==> n % d != 0
    ensures IsPrime(n)
  {
    forall d | 2 <= d < n
      ensures n % d != 0
    {
      // A divisor d >= b would have a cofactor below b dividing n.
      Cofactor(n, d);
      MultiplyMonotone(b, n / d, b, d);
    }
  }

  /** A prime has no divisor d with 2 <= d and d*d <= n (the converse direction). */
  lemma PrimeHasNoSmallDivisor(n: int, d: int)
    requires IsPrime(n) && 2 <= d && d * d <= n
    ensures n % d != 0
  {
    MultiplyMonotone(2, d, 1, d);
  }

  // ---------------------------------------------------------------------
  // prime_factors
  // ---------------------------------------------------------------------

  lemma ProductSnoc(s: seq<int>, x: int)
    ensures Product(s + [x]) == Product(s) * x
  {
    assert (s + [x])[..|s|] == s;
  }

  /** Splitting off a divisor keeps the running product equal to the input. */
  lemma ProductStep(factors: seq<int>, n: int, p: int, number: int)
    requires p > 0 && n % p == 0 && Product(factors) * n == number
    ensures Product(factors + [p]) * (n / p) == number
  {
    ProductSnoc(factors, p);
    assert n == p * (n / p);
    assert Product(factors + [p]) * (n / p) == Product(factors) * (p * (n / p));
  }

  /** An odd number has no even divisor. */
  lemma OddHasNoEvenDivisor(n: int, e: int)
    requires n % 2 == 1 && e > 0 && e % 2 == 0
    ensures n % e != 0
  {
    DividesTransitive(2, e, n);
  }

  /** A divisor of n / p is a divisor of n. */
  lemma DivisorOfQuotient(n: int, p: int, d: int)
    ensures p > 0 && d > 0 && n > 0 && n % p == 0 && (n / p) % d == 0 ==> n % d == 0
  {
    if p > 0 {
      Cofactor(n, p);
      DividesTransitive(d, n / p, n);
    }
  }

  /**
   * The least divisor above 1 of n is prime, and no number below it divides
   * the quotient either.
   */
  lemma LeastDivisorStep(n: int, p: int)
    requires n >= 2 && p >= 2 && n % p == 0
    requires forall d :: 2 <= d < p ==> n % d != 0
    ensures IsPrime(p)
    ensures p * (n / p) == n && 1 <= n / p < n
    ensures forall d :: 2 <= d < p ==> (n / p) % d != 0
  {
    Cofactor(n, p);
    MultiplySign(n / p, p - 1);
    forall d | 2 <= d < p
      ensures p % d != 0
    {
      DividesTransitive(d, p, n);
    }
    forall d | 2 <= d < p
      ensures (n / p) % d != 0
    {
      DivisorOfQuotient(n, p, d);
    }
  }

  /**
   * The inner `for ... else` of `prime_factors`: try odd divisors 3, 5, ...
   * while divisor*divisor <= n; `found` tells whether the loop broke.
   */
  method OddTrialDivision(n: int) returns (found: bool, divisor: int)
    requires n >= 3 && n % 2 == 1
    ensures divisor >= 3 && forall d :: 2 <= d < divisor ==> n % d != 0
    ensures found ==> n % divisor == 0
    ensures !found ==> divisor * divisor > n
  {
    divisor := 3;
    found := false;
    while divisor * divisor <= n
      invariant divisor >= 3 && divisor % 2 == 1
      invariant forall d :: 2 <= d < divisor ==> n % d != 0
      invariant !found
    {
      if n % divisor == 0 {
        found := true;
        break;
      }
      OddHasNoEvenDivisor(n, divisor + 1);
      divisor := divisor + 2;
    }
  }

  /**
   * The factors `prime_factors(number)` yields, collected into a list.
   * The source raises ValueError for number <= 1 (when the generator is
   * first advanced).
   */
  method PrimeFactors(number: int) returns (r: Result<seq<int>>)
    ensures number <= 1 <==> r.Failure?
    ensures r.Failure? ==> r.error == ValueError
    ensures r.Success? ==> Product(r.value) == number
    ensures r.Success? ==> forall k :: 0 <= k < |r.value| ==> IsPrime(r.value[k])
    ensures r.Success? ==> Sorted(r.value)
  {
    if number <= 1 {
      return Failure(ValueError);
    }
    var n := number;
    var factors: seq<int> := [];
    // No d in [2, least) divides n, and no factor so far exceeds least.
    ghost var least := 2;
    while n >= 2
      invariant n >= 1 && least >= 2
      invariant Product(factors) * n == number
      invariant forall k :: 0 <= k < |factors| ==> IsPrime(factors[k]) && factors[k] <= least
      invariant Sorted(factors)
      invariant forall d :: 2 <= d < least ==> n % d != 0
      decreases n
    {
      if n % 2 == 0 {
        assert least == 2;
        ProductStep(factors, n, 2, number);
        factors := factors + [2];
        n := n / 2;
        continue;
      }
      var found, divisor := OddTrialDivision(n);
      if found {
        LeastDivisorStep(n, divisor);
        ProductStep(factors, n, divisor, number);
        factors := factors + [divisor];
        n := n / divisor;
        least := divisor;
      } else {
        // No divisor up to the square root: n itself is prime.
        NoSmallDivisorMeansPrime(n, divisor);
        assert n % n == 0;
        ProductSnoc(factors, n);
        factors := factors + [n];
        least := n;
        n := 1;
      }
    }
    return Success(factors);
  }

  // ---------------------------------------------------------------------
  // prime_sieve
  // ---------------------------------------------------------------------

  /** `is_prime` after `[True for i in range(n)]` and `is_prime[0:1] = [False, False]`. */
  function InitialSieve(n: nat): (s: seq<bool>)
    ensures |s| == if n == 0 then 2 else n + 1
    ensures !s[0] && !s[1]
    ensures forall k :: 2 <= k < |s| ==> s[k]
  {
    var trues := seq(n, _ => true);
    [false, false] + trues[(if n == 0 then 0 else 1)..]
  }

  /** No d with 2 <= d < i and d*d <= k divides k. */
  ghost predicate NoSmallFactor(k: int, i: int) {
    forall d :: 2 <= d < i && d * d <= k ==> k % d != 0
  }

  /**
   * Whether k is still marked after the rounds for 2, ..., i - 1: round d
   * crosses out the multiples of d from d*d on.
   */
  ghost predicate Survives(k: int, i: int)
    decreases i
  {
    i <= 2 || (Survives(k, i - 1) && !((i - 1) * (i - 1) <= k && k % (i - 1) == 0))
  }

  lemma {:induction false} SurvivesMeansNoSmallFactor(k: int, i: int)
    ensures Survives(k, i) <==> NoSmallFactor(k, i)
    decreases i
  {
    if i > 2 {
      SurvivesMeansNoSmallFactor(k, i - 1);
    }
  }

  /** A composite i needs no round of its own: its multiples are already crossed out. */
  lemma CompositeRoundIsRedundant(i: int, k: int)
    requires 2 <= i && !Survives(i, i)
    ensures Survives(k, i) <==> Survives(k, i + 1)
  {
    SurvivesMeansNoSmallFactor(i, i);
    SurvivesMeansNoSmallFactor(k, i);
    var e :| 2 <= e < i && e * e <= i && i % e == 0;
    DividesTransitive(e, i, k);
    MultiplyMonotone(1, i, 1, i);
    assert NoSmallFactor(k, i) ==> (i * i <= k ==> k % i != 0);
  }

  /** Once i*i exceeds k, surviving every round means being prime. */
  lemma SieveSurvivorIsPrime(k: int, i: int)
    requires 2 <= i && i * i > k
    ensures (k >= 2 && Survives(k, i)) <==> IsPrime(k)
  {
    SurvivesMeansNoSmallFactor(k, i);
    if k >= 2 && NoSmallFactor(k, i) {
      forall d | 2 <= d < i && d < k
        ensures k % d != 0
      {
        // a divisor d with d*d > k has a cofactor q < d with q*q <= k
        Cofactor(k, d);
        MultiplyMonotone(d, k / d, d, d);
        MultiplyMonotone(k / d, k / d, k / d, d);
      }
      NoSmallDivisorMeansPrime(k, i);
    }
    if IsPrime(k) {
      forall d | 2 <= d < i && d * d <= k
        ensures k % d != 0
      {
        PrimeHasNoSmallDivisor(k, d);
      }
    }
  }

  /** Crossing out stops at multiples of i below c; between two multiples nothing is crossed. */
  lemma NextMultiple(c: int, i: int, k: int)
    requires i > 0 && c % i == 0 && c < k < c + i
    ensures k % i != 0 && (c + i) % i == 0
  {
    var m := c / i;
    assert c == i * m;
    DivModUnique(k, i, m, k - c);
    DivModUnique(c + i, i, m + 1, 0);
  }

  /** One round of the sieve: `is_prime[i*i::i]` up to n are set to False. */
  method CrossOutMultiples(isPrime: array<bool>, i: int, n: int)
    requires 2 <= i && i * i <= n && isPrime.Length == n + 1
    modifies isPrime
    ensures forall k :: 0 <= k < isPrime.Length ==>
      isPrime[k] == (old(isPrime[k]) && !(i * i <= k && k % i == 0))
  {
    var c := i * i;
    MultipleMod(i, i);
    while c <= n
      invariant i * i <= c && c % i == 0
      invariant forall k :: 0 <= k < isPrime.Length ==>
        isPrime[k] == (old(isPrime[k]) && !(i * i <= k < c && k % i == 0))
    {
      isPrime[c] := false;
      forall k | c < k < c + i
        ensures k % i != 0
      {
        NextMultiple(c, i, k);
      }
      NextMultiple(c, i, c + 1);
      c := c + i;
    }
  }

  /** `[i for i in range(len(is_prime)) if is_prime[i]]`, once the marks are exactly the primes. */
  method MarkedIndices(isPrime: array<bool>) returns (primes: seq<int>)
    requires forall k :: 0 <= k < isPrime.Length ==> isPrime[k] == IsPrime(k)
    ensures primes == PrimesUpTo(isPrime.Length - 1)
  {
    primes := [];
    for k := 0 to isPrime.Length
      invariant primes == PrimesUpTo(k - 1)
    {
      assert PrimesUpTo(k) == PrimesUpTo(k - 1) + (if IsPrime(k) then [k] else []);
      if isPrime[k] {
        primes := primes + [k];
      }
    }
  }

  /** `prime_sieve(n)`: the primes up to n, by the Sieve of Eratosthenes. */
  method PrimeSieve(n: int) returns (r: Result<seq<int>>)
    ensures n < 0 <==> r.Failure?
    ensures r.Failure? ==> r.error == TypeError
    ensures n >= 0 ==> r == Success(PrimesUpTo(n))
  {
    if n < 0 {
      // `n**0.5` is complex, and `int()` of it raises TypeError.
      return Failure(TypeError);
    }
    var init := InitialSieve(n);
    var isPrime := new bool[|init|](k requires 0 <= k < |init| => init[k]);
    assert forall k :: 0 <= k < isPrime.Length ==> isPrime[k] == (k >= 2);
    var i := 2;
    while i * i <= n
      invariant 2 <= i
      invariant isPrime.Length == |init|
      invariant forall k :: 0 <= k < isPrime.Length ==> isPrime[k] == (k >= 2 && Survives(k, i))
      decreases n - i
    {
      assert i <= i * i;
      if !isPrime[i] {
        forall k | 0 <= k < isPrime.Length
          ensures Survives(k, i) <==> Survives(k, i + 1)
        {
          CompositeRoundIsRedundant(i, k);
        }
        i := i + 1;
        continue;
      }
      CrossOutMultiples(isPrime, i, n);
      i := i + 1;
    }
    forall k | 0 <= k < isPrime.Length
      ensures isPrime[k] == IsPrime(k)
    {
      SieveSurvivorIsPrime(k, i);
    }
    var primes := MarkedIndices(isPrime);
    return Success(primes);
  }
}

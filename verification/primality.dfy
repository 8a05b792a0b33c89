/** Primality by trial division and the bounded random-prime sampler
    (`rotateP` / `generateMediumPrime`). */
module Primality {
  import opened JsArith
  import opened Kernel

  /** n is a prime: at least 2 and without a divisor strictly between 1 and n. */
  predicate IsPrime(n: int) {
    n >= 2 && forall k :: 2 <= k < n ==> n % k != 0
  }

  /** The sampling window [10000, 99999) of both prime generators. */
  const MinCandidate: int := 10000
  const MaxCandidate: int := 99999
  const Range: int := MaxCandidate - MinCandidate

  // ---------------------------------------------------------------------
  // Divisor facts
  // ---------------------------------------------------------------------

  /** A positive multiple is at least as large as the divisor. */
  lemma DivisorBound(d: int, n: int)
    requires d > 0 && n > 0 && n % d == 0
    ensures d <= n
  {
    var q := n / d;
    assert n == d * q;
    MulLe(d, q, 0);
    MulAtLeast(d, q);
  }

  /** Divisibility is transitive. */
  lemma DividesTransitive(a: int, b: int, c: int)
    requires a > 0 && b > 0 && b % a == 0 && c % b == 0
    ensures c % a == 0
  {
    var qb, qc := b / a, c / b;
    assert b == a * qb && c == b * qc;
    assert c == a * (qb * qc) + 0;
    DivModUnique(c, a, qb * qc, 0);
  }

  /** A composite number has a divisor whose square does not exceed it. */
  lemma SmallDivisor(n: int, k: int) returns (s: int)
    requires 2 <= k < n && n % k == 0
    ensures 2 <= s && s * s <= n && n % s == 0
  {
    var q := n / k;
    assert n == k * q;
    MulLe(k, q, 1);
    assert q >= 2;
    assert n % q == 0 by {
      DivModUnique(n, q, k, 0);
    }
    MulLe(k, k, q);
    MulLe(q, q, k);
    s := if k <= q then k else q;
  }

  /** No divisor up to the square root means prime. */
  lemma PrimeBySquareRoot(n: int)
    requires n >= 2
    requires forall i :: 2 <= i && i * i <= n ==> n % i != 0
    ensures IsPrime(n)
  {
    forall k | 2 <= k < n ensures n % k != 0 {
      if n % k == 0 {
        var s := SmallDivisor(n, k);
      }
    }
  }

  /** The only divisor from 2 upward of a prime is itself. */
  lemma PrimeDivisor(q: int, n: int)
    requires IsPrime(n) && q >= 2 && n % q == 0
    ensures q == n
  {
    DivisorBound(q, n);
  }

  /** A prime that divides neither factor does not divide the product
      (Euclid's lemma). */
  lemma EuclidLemma(q: int, x: int, y: int)
    requires IsPrime(q) && x > 0 && y > 0
    requires (x * y) % q == 0 && x % q != 0
    ensures y % q == 0
  {
    var g := JsGcd(q, x);
    GcdDivides(q, x);
    GcdNonNegative(q, x);
    assert g != 0;
    assert q % g == 0 && x % g == 0;
    DivisorBound(g, q);
    assert !(2 <= g < q);
    assert g != q;
    assert g == 1;
    var s, t := Bezout(q, x);
    DividesSelf(q);
    DividesCombination(q, q, x * y, s * y, t);
    BezoutScaled(q, x, y, s, t);
  }

  lemma BezoutScaled(q: int, x: int, y: int, s: int, t: int)
    requires q * s + x * t == 1
    ensures q * (s * y) + (x * y) * t == y
  {
    calc {
      q * (s * y) + (x * y) * t;
      (q * s) * y + (x * t) * y;
      (q * s + x * t) * y;
      y;
    }
  }

  // ---------------------------------------------------------------------
  // Trial division and the sampler
  // ---------------------------------------------------------------------

  /** The primality test inside the retry loop: divide by 2, 3, ... up to
      the integer square root (`i <= floor(sqrt(candidate))`, written
      exactly as `i * i <= candidate`), stopping at the first divisor. */
  method TrialDivision(candidate: int) returns (isPrime: bool)
    ensures isPrime <==> forall i :: 2 <= i && i * i <= candidate ==> candidate % i != 0
    ensures candidate >= 2 ==> (isPrime <==> IsPrime(candidate))
  {
    isPrime := true;
    var i := 2;
    while i * i <= candidate
      invariant 2 <= i
      invariant forall k :: 2 <= k < i ==> candidate % k != 0
      decreases candidate - i
    {
      if candidate % i == 0 {
        isPrime := false;
        break;
      }
      MulLe(i, 1, i);
      i := i + 1;
    }
    if isPrime {
      forall k | 2 <= k && k * k <= candidate ensures candidate % k != 0 {
        MulLe(k, i, k);
        MulLe(i, i, k);
        assert k < i;
      }
    }
    if candidate >= 2 {
      if isPrime {
        PrimeBySquareRoot(candidate);
      }
    }
  }

  /** What the oracle draws mean: draws[k] is the k-th value of
      `Math.floor(Math.random() * range)`. */
  predicate ValidDraws(draws: seq<int>) {
    forall k :: 0 <= k < |draws| ==> 0 <= draws[k] < Range
  }

  /** The first candidate `min + offset` among the draws that is prime. */
  function FirstPrime(draws: seq<int>): (r: Option<int>)
    requires ValidDraws(draws)
    ensures r.Some? ==> MinCandidate <= r.value < MaxCandidate && IsPrime(r.value)
    ensures r.None? <==> forall k :: 0 <= k < |draws| ==> !IsPrime(MinCandidate + draws[k])
  {
    if draws == [] then None
    else if IsPrime(MinCandidate + draws[0]) then Some(MinCandidate + draws[0])
    else FirstPrime(draws[1..])
  }

  /** `generateMediumPrime` (and `rotateP`, which ignores its argument):
      sample a candidate, test it by trial division, retry. The random
      offsets come from the oracle; None means the draws ran out before a
      prime came up, i.e. the loop has not returned. */
  method GenerateMediumPrime(draws: seq<int>) returns (r: Option<int>)
    requires ValidDraws(draws)
    ensures r == FirstPrime(draws)
    ensures r.Some? ==> MinCandidate <= r.value < MaxCandidate && IsPrime(r.value)
  {
    var n := 0;
    while n < |draws|
      invariant 0 <= n <= |draws|
      invariant FirstPrime(draws[n..]) == FirstPrime(draws)
    {
      var candidate := MinCandidate + draws[n];
      var isPrime := TrialDivision(candidate);
      if isPrime {
        assert draws[n..][0] == draws[n];
        return Some(candidate);
      }
      assert draws[n..][1..] == draws[n + 1..];
      n := n + 1;
    }
    assert draws[n..] == [];
    r := None;
  }
}

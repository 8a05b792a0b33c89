/** The primitive-root engine: distinct prime factors by trial division,
    the three-part primitive-root test and the linear search for the
    least primitive root. */
module PrimitiveRoot {
  import opened JsArith
  import opened Kernel
  import opened Primality

  predicate StrictlyIncreasing(s: seq<int>) {
    forall i, j :: 0 <= i < j < |s| ==> s[i] < s[j]
  }

  // ---------------------------------------------------------------------
  // getPrimeFactors
  // ---------------------------------------------------------------------

  lemma AppendIncreasing(s: seq<int>, x: int)
    requires StrictlyIncreasing(s) && forall f :: f in s ==> f < x
    ensures StrictlyIncreasing(s + [x])
  {
    forall i, j | 0 <= i < j < |s| + 1 ensures (s + [x])[i] < (s + [x])[j] {
      if j == |s| {
        assert s[i] in s;
      }
    }
  }

  /** A number with no divisor in [2, d) whose least divisor is d: d is prime. */
  lemma LeastDivisorIsPrime(d: int, n: int)
    requires 2 <= d && n >= 1 && n % d == 0
    requires forall k :: 2 <= k < d ==> n % k != 0
    ensures IsPrime(d)
  {
    forall k | 2 <= k < d ensures d % k != 0 {
      if d % k == 0 {
        DividesTransitive(k, d, n);
      }
    }
  }

  /** The quotient by a divisor d >= 2 is a smaller divisor. */
  lemma QuotientFacts(n: int, d: int)
    requires 2 <= d && n >= 1 && n % d == 0
    ensures 1 <= n / d < n && n % (n / d) == 0
  {
    var m := n / d;
    assert n == d * m;
    MulLe(d, m, 0);
    MulLe(m, 2, d);
    DivModUnique(n, m, d, 0);
  }

  /** Dividing n by one of its divisors d keeps every fact the factor
      loop relies on. */
  lemma DivideOut(n0: int, n: int, d: int)
    requires 2 <= d && n >= 1 && n % d == 0 && n0 >= 1 && n0 % n == 0
    requires forall k :: 2 <= k < d ==> n % k != 0
    requires forall q :: IsPrime(q) && q > d && n0 % q == 0 ==> n % q == 0
    ensures 1 <= n / d < n && n0 % (n / d) == 0
    ensures forall k :: 2 <= k < d ==> (n / d) % k != 0
    ensures forall q :: IsPrime(q) && q > d && n0 % q == 0 ==> (n / d) % q == 0
  {
    QuotientFacts(n, d);
    var m := n / d;
    DividesTransitive(m, n, n0);
    forall k | 2 <= k < d ensures m % k != 0 {
      if m % k == 0 {
        DividesTransitive(k, m, n);
      }
    }
    forall q | IsPrime(q) && q > d && n0 % q == 0 ensures m % q == 0 {
      assert n == d * m;
      DivModUnique(d, q, 0, d);
      EuclidLemma(q, d, m);
    }
  }

  /** What remains once every divisor below d is removed and d * d exceeds
      it is 1 or a prime. */
  lemma Leftover(n: int, d: int)
    requires n > 1 && d >= 2 && d * d > n
    requires forall k :: 2 <= k < d ==> n % k != 0
    ensures IsPrime(n) && n >= d
  {
    forall i | 2 <= i && i * i <= n ensures n % i != 0 {
      MulLe(i, d, i);
      MulLe(d, d, i);
      assert i < d;
    }
    PrimeBySquareRoot(n);
    DivModUnique(n, n, 1, 0);
  }

  /** `getPrimeFactors(n)`: the distinct prime factors of n in increasing
      order, empty when n <= 1. The divisor loop stops as soon as d * d
      exceeds what is left, and the leftover factor is emitted then. */
  method GetPrimeFactors(n0: int) returns (factors: seq<int>)
    ensures n0 <= 1 ==> factors == []
    ensures StrictlyIncreasing(factors)
    ensures forall f :: f in factors ==> IsPrime(f) && n0 % f == 0
    ensures n0 >= 1 ==> forall q :: IsPrime(q) && n0 % q == 0 ==> q in factors
  {
    factors := [];
    var n := n0;
    var d := 2;
    while n > 1
      invariant n0 <= 1 ==> n == n0 && factors == []
      invariant n0 > 1 ==> 1 <= n && n0 % n == 0
      invariant 2 <= d && (d == 2 || d * d <= n)
      invariant forall k :: 2 <= k < d ==> n % k != 0
      invariant StrictlyIncreasing(factors)
      invariant forall f :: f in factors ==> IsPrime(f) && n0 % f == 0 && f < d
      invariant forall q :: IsPrime(q) && q < d && n0 % q == 0 ==> q in factors
      invariant forall q :: IsPrime(q) && q >= d && n0 % q == 0 ==> n % q == 0
      decreases n + 2 - d
    {
      MulLe(d, 1, d);
      ghost var before := n;
      while n % d == 0
        invariant 1 <= n <= before && n0 % n == 0
        invariant forall k :: 2 <= k < d ==> n % k != 0
        invariant StrictlyIncreasing(factors)
        invariant forall f :: f in factors ==> IsPrime(f) && n0 % f == 0 && f <= d
        invariant forall q :: IsPrime(q) && q < d && n0 % q == 0 ==> q in factors
        invariant forall q :: IsPrime(q) && q > d && n0 % q == 0 ==> n % q == 0
        invariant IsPrime(d) && n0 % d == 0 ==> d in factors || n % d == 0
        decreases n
      {
        LeastDivisorIsPrime(d, n);
        DividesTransitive(d, n, n0);
        if d !in factors {
          AppendIncreasing(factors, d);
          factors := factors + [d];
        }
        DivideOut(n0, n, d);
        n := n / d;
      }
      d := d + 1;
      if d * d > n {
        if n > 1 {
          Leftover(n, d);
        }
        if n > 1 && n !in factors {
          AppendIncreasing(factors, n);
          factors := factors + [n];
        }
        break;
      }
    }
    if n0 >= 1 {
      forall q | IsPrime(q) && n0 % q == 0 ensures q in factors {
        if q >= d {
          DivModUnique(1, q, 0, 1);
          if n > 1 {
            PrimeDivisor(q, n);
          }
        }
      }
    }
  }

  // ---------------------------------------------------------------------
  // isPrimitiveRoot
  // ---------------------------------------------------------------------

  /** The three-part test `isPrimitiveRoot(g, p)` performs, in order and
      short-circuiting: `gcd(g, p)` is 1; `modPow(g, p - 1, p)` is 1 (this
      throws when p is 0); and `modPow(g, (p - 1) / f, p)` differs from 1
      for every prime f dividing p - 1. */
  ghost function PrimitiveRootVerdict(g: int, p: int): Eval<bool> {
    if JsGcd(g, p) != 1 then Ok(false)
    else if p == 0 then RangeError
    else if ModPowValue(g, p - 1, p) != Ok(1) then Ok(false)
    else Ok(forall f :: IsPrime(f) && p - 1 >= 1 && (p - 1) % f == 0 ==>
                          ModPowValue(g, (p - 1) / f, p) != Ok(1))
  }

  /** `isPrimitiveRoot(g, p)`. */
  method IsPrimitiveRoot(g: int, p: int) returns (r: Eval<bool>)
    ensures r == PrimitiveRootVerdict(g, p)
    ensures r == RangeError <==> g == 1 && p == 0
  {
    var phi := p - 1;
    var c := Gcd(g, p);
    if c != 1 {
      return Ok(false);
    }
    var full := ModPow(g, phi, p);
    if full.RangeError? {
      return RangeError;
    }
    if full.value != 1 {
      return Ok(false);
    }
    var factors := GetPrimeFactors(phi);
    assert forall j :: 0 <= j < |factors| ==> factors[j] in factors;
    var i := 0;
    while i < |factors|
      invariant 0 <= i <= |factors|
      invariant forall j :: 0 <= j < i ==> ModPowValue(g, phi / factors[j], p) != Ok(1)
    {
      var power := phi / factors[i];
      var x := ModPow(g, power, p);
      if x == Ok(1) {
        return Ok(false);
      }
      i := i + 1;
    }
    forall f | IsPrime(f) && phi >= 1 && phi % f == 0
      ensures ModPowValue(g, phi / f, p) != Ok(1)
    {
      var j :| 0 <= j < |factors| && factors[j] == f;
    }
    r := Ok(true);
  }

  // ---------------------------------------------------------------------
  // findPrimitiveRoot
  // ---------------------------------------------------------------------

  /** g is what `findPrimitiveRoot(p)` may return: the least g in [2, p)
      passing the test, or the fallback 2 when none in [2, p) passes. */
  ghost predicate IsFoundRoot(g: int, p: int) {
    || (2 <= g < p && PrimitiveRootVerdict(g, p) == Ok(true)
        && forall h :: 2 <= h < g ==> PrimitiveRootVerdict(h, p) != Ok(true))
    || (g == 2 && forall h :: 2 <= h < p ==> PrimitiveRootVerdict(h, p) != Ok(true))
  }

  /** `findPrimitiveRoot(p)`: scan 2, 3, ... below p. */
  method FindPrimitiveRoot(p: int) returns (g: int)
    ensures IsFoundRoot(g, p)
  {
    var h := 2;
    while h < p
      invariant 2 <= h
      invariant forall k :: 2 <= k < h ==> PrimitiveRootVerdict(k, p) != Ok(true)
    {
      var ok := IsPrimitiveRoot(h, p);
      if ok == Ok(true) {
        return h;
      }
      h := h + 1;
    }
    g := 2;
  }

  // ---------------------------------------------------------------------
  // The demo's default parameters
  // ---------------------------------------------------------------------

  lemma PrimeDivisorsOfTwelve(f: int)
    requires IsPrime(f) && 12 % f == 0
    ensures f == 2 || f == 3
  {
    DivisorBound(f, 12);
    assert f != 4 && f != 6 && f != 12 by {
      assert 4 % 2 == 0 && 6 % 2 == 0 && 12 % 2 == 0;
    }
  }

  /** Plain powers of two that the checks on the default parameters use. */
  lemma SmallPowersOfTwo()
    ensures Pow(2, 4) == 16 && Pow(2, 6) == 64 && Pow(2, 12) == 4096
  {
    assert Pow(2, 2) == 4;
    assert Pow(2, 4) == 16;
    PowAdd(2, 6, 6);
    PowAdd(2, 4, 2);
  }

  /** 2 is a primitive root modulo 13, so the Diffie-Hellman demo's initial
      parameters pass the generator check. */
  lemma DefaultGeneratorAccepted()
    ensures PrimitiveRootVerdict(2, 13) == Ok(true)
  {
    assert JsGcd(2, 13) == 1 by {
      assert JsGcd(2, 1) == 1;
      assert JsGcd(13, 2) == JsGcd(2, 1);
    }
    SmallPowersOfTwo();
    assert ModPowValue(2, 12, 13) == Ok(1);
    forall f | IsPrime(f) && 12 >= 1 && 12 % f == 0
      ensures ModPowValue(2, 12 / f, 13) != Ok(1)
    {
      PrimeDivisorsOfTwelve(f);
    }
  }

  lemma PowersOfFour()
    ensures Pow(4, 6) == 4096 && Pow(4, 12) == 4096 * 4096
  {
    assert Pow(2, 2) == 4;
    PowMul(2, 2, 6);
    SmallPowersOfTwo();
    PowAdd(4, 6, 6);
  }

  /** 4 is rejected modulo 13 because 4^6 = 4096 leaves remainder 1. */
  lemma FourRejectedModThirteen()
    ensures PrimitiveRootVerdict(4, 13) == Ok(false)
  {
    assert JsGcd(4, 13) == 1 by {
      assert JsGcd(4, 1) == 1;
      assert JsGcd(13, 4) == JsGcd(4, 1);
    }
    PowersOfFour();
    assert ModPowValue(4, 12, 13) == Ok(1);
    assert IsPrime(2) && 12 % 2 == 0;
    assert ModPowValue(4, 12 / 2, 13) == Ok(1);
  }
}

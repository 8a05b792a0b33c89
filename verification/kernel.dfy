/** The modular arithmetic kernel shared by both demo components: the
    Euclidean gcd, square-and-multiply modular exponentiation, and the two
    one-line key derivations written with BigInt `**` and `%`. */
module Kernel {
  import opened JsArith

  // ---------------------------------------------------------------------
  // Divisibility
  // ---------------------------------------------------------------------

  /** d divides n (0 divides only 0). */
  predicate Divides(d: int, n: int) {
    if d == 0 then n == 0 else n % Abs(d) == 0
  }

  lemma DividesSelf(d: int)
    ensures Divides(d, d) && Divides(d, 0)
  {
    if d != 0 {
      DivModUnique(d, Abs(d), if d > 0 then 1 else -1, 0);
      DivModUnique(0, Abs(d), 0, 0);
    }
  }

  /** Every common divisor of x and y divides each of their combinations. */
  lemma DividesCombination(d: int, x: int, y: int, s: int, t: int)
    requires Divides(d, x) && Divides(d, y)
    ensures Divides(d, x * s + y * t)
  {
    if d != 0 {
      var n := Abs(d);
      var qx, qy := x / n, y / n;
      assert x == n * qx && y == n * qy;
      assert x * s + y * t == 0 + n * (qx * s + qy * t) by {
        assert x * s == n * qx * s;
        assert y * t == n * qy * t;
      }
      ModAddMultiple(0, qx * s + qy * t, n);
    }
  }

  /** The truncating remainder is the dividend minus a multiple of the divisor. */
  lemma JsRemQuotient(a: int, b: int) returns (t: int)
    requires b != 0
    ensures JsRem(a, b) == a - b * t
  {
    var n := Abs(b);
    if a >= 0 {
      assert a == n * (a / n) + a % n;
      t := if b > 0 then a / n else -(a / n);
    } else {
      assert -a == n * ((-a) / n) + (-a) % n;
      t := if b > 0 then -((-a) / n) else (-a) / n;
    }
  }

  // ---------------------------------------------------------------------
  // gcd
  // ---------------------------------------------------------------------

  /** The value `gcd(a, b)` computes: `[a, b] = [b, a % b]` until b is 0,
      with BigInt's truncating `%`. */
  function JsGcd(a: int, b: int): int
    decreases Abs(b)
  {
    if b == 0 then a
    else
      JsRemProperties(a, b);
      JsGcd(b, JsRem(a, b))
  }

  /** The result divides both arguments ... */
  lemma {:induction false} GcdDivides(a: int, b: int)
    ensures Divides(JsGcd(a, b), a) && Divides(JsGcd(a, b), b)
    decreases Abs(b)
  {
    if b == 0 {
      DividesSelf(a);
    } else {
      JsRemProperties(a, b);
      var r := JsRem(a, b);
      var t := JsRemQuotient(a, b);
      GcdDivides(b, r);
      DividesCombination(JsGcd(b, r), r, b, 1, t);
      assert r * 1 + b * t == a;
    }
  }

  /** ... and every common divisor divides it, so its magnitude is the
      greatest common divisor. */
  lemma {:induction false} GcdGreatest(a: int, b: int, d: int)
    requires Divides(d, a) && Divides(d, b)
    ensures Divides(d, JsGcd(a, b))
    decreases Abs(b)
  {
    if b != 0 {
      JsRemProperties(a, b);
      var r := JsRem(a, b);
      var t := JsRemQuotient(a, b);
      DividesCombination(d, a, b, 1, -t);
      assert a * 1 + b * (-t) == r;
      GcdGreatest(b, r, d);
    }
  }

  lemma {:induction false} GcdNonNegative(a: int, b: int)
    requires a >= 0 && b >= 0
    ensures JsGcd(a, b) >= 0
    decreases b
  {
    if b != 0 {
      GcdNonNegative(b, JsRem(a, b));
    }
  }

  /** The coefficient update of the extended Euclidean step. */
  lemma BezoutStep(a: int, b: int, q: int, r: int, s: int, t: int)
    requires a == b * q + r
    ensures a * t + b * (s - q * t) == b * s + r * t
  {
    calc {
      a * t + b * (s - q * t);
      (b * q + r) * t + b * s - b * (q * t);
      { assert (b * q) * t == b * (q * t); }
      r * t + b * s;
    }
  }

  /** Bezout's identity for non-negative arguments. */
  lemma {:induction false} Bezout(a: int, b: int) returns (s: int, t: int)
    requires a >= 0 && b >= 0
    ensures a * s + b * t == JsGcd(a, b)
    decreases b
  {
    if b == 0 {
      s, t := 1, 0;
    } else {
      var q, r := a / b, a % b;
      assert JsRem(a, b) == r;
      var s', t' := Bezout(b, r);
      BezoutStep(a, b, q, r, s', t');
      s, t := t', s' - q * t';
    }
  }

  /** The iterative Euclidean algorithm. */
  method Gcd(a0: int, b0: int) returns (r: int)
    ensures r == JsGcd(a0, b0)
    ensures Divides(r, a0) && Divides(r, b0)
    ensures forall d :: Divides(d, a0) && Divides(d, b0) ==> Divides(d, r)
    ensures a0 >= 0 && b0 >= 0 ==> r >= 0
  {
    var a, b := a0, b0;
    while b != 0
      invariant JsGcd(a, b) == JsGcd(a0, b0)
      decreases Abs(b)
    {
      JsRemProperties(a, b);
      a, b := b, JsRem(a, b);
    }
    r := a;
    GcdDivides(a0, b0);
    forall d | Divides(d, a0) && Divides(d, b0) ensures Divides(d, r) {
      GcdGreatest(a0, b0, d);
    }
    if a0 >= 0 && b0 >= 0 {
      GcdNonNegative(a0, b0);
    }
  }

  // ---------------------------------------------------------------------
  // Modular exponentiation
  // ---------------------------------------------------------------------

  /** `b ** e % m` for e >= 0 and m != 0. */
  function ReducedPow(b: int, e: nat, m: int): int
    requires m != 0
  {
    JsRem(Pow(b, e), m)
  }

  /** What `modPow(base, exp, mod)` returns: it throws when mod is 0, returns
      its initial `1n` untouched when exp is not positive (even for mod 1),
      and otherwise the truncated remainder of base^exp. */
  function ModPowValue(b: int, e: int, m: int): Eval<int>
  {
    if m == 0 then RangeError
    else if e <= 0 then Ok(1)
    else Ok(ReducedPow(b, e, m))
  }

  /** The expression `b ** e % m` of calculateSharedSecret (both components)
      and of Demo's calculatePublicKey. */
  function PowRem(b: int, e: int, m: int): (r: Eval<int>)
    ensures r.Ok? <==> e >= 0 && m != 0
    ensures e >= 0 && m != 0 ==>
      && Abs(r.value) < Abs(m)
      && r.value % Abs(m) == Pow(b, e) % Abs(m)
      && SameSign(r.value, Pow(b, e))
  {
    if e < 0 || m == 0 then RangeError
    else
      JsRemProperties(Pow(b, e), m);
      Ok(ReducedPow(b, e, m))
  }

  /** One iteration of the square-and-multiply loop keeps the reduced value
      of result * base^exp. */
  lemma ModPowStep(result: int, base: int, e: nat, m: int)
    requires m != 0 && e > 0
    ensures
      var base' := JsRem(base * base, m);
      var result' := if e % 2 == 1 then JsRem(result * base, m) else result;
      JsRem(result' * Pow(base', e / 2), m) == JsRem(result * Pow(base, e), m)
  {
    var n := Abs(m);
    var base' := JsRem(base * base, m);
    var f := if e % 2 == 1 then base else 1;
    var result' := if e % 2 == 1 then JsRem(result * base, m) else result;
    var q, q' := Pow(base * base, e / 2), Pow(base', e / 2);
    PowSquare(base, e);
    assert result * Pow(base, e) == (result * f) * q;
    JsRemProperties(result * f, m);
    assert result' % n == (result * f) % n && SameSign(result', result * f);
    JsRemProperties(base * base, m);
    PowCongruent(base', base * base, e / 2, n);
    PowSameSign(base', base * base, e / 2);
    MulCongruent(result', q', result * f, q, n);
    SameSignMul(result', q', result * f, q);
    JsRemDeterminedBy(result' * q', (result * f) * q, m);
  }

  /** `modPow`: binary exponentiation, reducing the base first. */
  method ModPow(base: int, exp: int, mod: int) returns (r: Eval<int>)
    ensures r == ModPowValue(base, exp, mod)
  {
    if mod == 0 {
      return RangeError;  // `base % mod` throws
    }
    var result := 1;
    var b := JsRem(base, mod);
    var e := exp;
    JsRemPowOfJsRem(base, if exp > 0 then exp else 0, mod);
    while e > 0
      invariant exp <= 0 ==> e == exp && result == 1
      invariant exp > 0 ==> 0 <= e && JsRem(result * Pow(b, e), mod) == JsRem(Pow(base, exp), mod)
      invariant exp > 0 && e == 0 ==> JsRem(result, mod) == result
    {
      ModPowStep(result, b, e, mod);
      if e % 2 == 1 {
        JsRemProperties(result * b, mod);
        JsRemOfReduced(JsRem(result * b, mod), mod);
        result := JsRem(result * b, mod);
      }
      b := JsRem(b * b, mod);
      e := e / 2;
    }
    r := Ok(result);
  }

  /** `calculatePublicKey` of the X3DH component: the same square-and-multiply
      loop as ModPow, with the arguments in (privateKey, g, p) order. */
  method CalculatePublicKey(privateKey: int, g: int, p: int) returns (r: Eval<int>)
    ensures r == ModPowValue(g, privateKey, p)
    ensures p != 0 && privateKey > 0 ==> r == Ok(ReducedPow(g, privateKey, p))
  {
    r := ModPow(g, privateKey, p);
  }

  // ---------------------------------------------------------------------
  // Properties of the derivations
  // ---------------------------------------------------------------------

  /** For a non-negative base and a modulus above 1, modPow's result is the
      ordinary remainder of base^exp, in [0, mod). */
  lemma ModPowInRange(b: int, e: int, m: int)
    requires b >= 0 && e >= 0 && m > 1
    ensures ModPowValue(b, e, m).Ok?
    ensures 0 <= ModPowValue(b, e, m).value < m
    ensures ModPowValue(b, e, m).value == Pow(b, e) % m
  {
    PowNonNegative(b, e);
    if e == 0 {
      DivModUnique(1, m, 0, 1);
    }
  }

  /** modPow and the direct `b ** e % m` agree, except at exponent 0 with a
      modulus of magnitude 1 (see ModPowZeroExponentQuirk). */
  lemma ModPowAgreesWithPowRem(b: int, e: int, m: int)
    requires e >= 0 && (e > 0 || Abs(m) != 1)
    ensures ModPowValue(b, e, m) == PowRem(b, e, m)
  {
    if m != 0 && e == 0 {
      JsRemOfReduced(1, m);
    }
  }

  /** For a non-negative base and a modulus above 1, `b ** e % m` is the
      ordinary remainder of b^e, in [0, m). */
  lemma PowRemInRange(b: int, e: int, m: int)
    requires b >= 0 && e >= 0 && m > 1
    ensures PowRem(b, e, m).Ok?
    ensures 0 <= PowRem(b, e, m).value < m
    ensures PowRem(b, e, m).value == Pow(b, e) % m
  {
    ModPowInRange(b, e, m);
    ModPowAgreesWithPowRem(b, e, m);
  }

  /** `modPow(b, 0n, 1n)` returns 1n, while `b ** 0n % 1n` is 0n. */
  lemma ModPowZeroExponentQuirk(b: int)
    ensures ModPowValue(b, 0, 1) == Ok(1)
    ensures PowRem(b, 0, 1) == Ok(0)
  {
  }

  /** Raising a reduced power to a further power gives the reduced power of
      the product of the exponents. */
  lemma ReducedPowCompose(g: int, a: nat, b: nat, m: int)
    requires m != 0
    ensures ReducedPow(ReducedPow(g, b, m), a, m) == ReducedPow(g, b * a, m)
  {
    JsRemPowOfJsRem(Pow(g, b), a, m);
    PowMul(g, b, a);
  }

  /** The Diffie-Hellman identity: (g^b mod p)^a and (g^a mod p)^b reduce to
      the same value, whatever the signs of g and p. */
  lemma DhAgreement(g: int, a: nat, b: nat, m: int)
    requires m != 0
    ensures ReducedPow(ReducedPow(g, b, m), a, m) == ReducedPow(ReducedPow(g, a, m), b, m)
  {
    ReducedPowCompose(g, a, b, m);
    ReducedPowCompose(g, b, a, m);
    assert b * a == a * b;
  }
}

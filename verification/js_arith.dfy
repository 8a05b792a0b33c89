/** JavaScript BigInt arithmetic as the demo components use it.

    BigInt `%` truncates toward zero (the remainder takes the sign of the
    dividend), `**` throws a RangeError on a negative exponent and both `%`
    and `/` throw a RangeError on a zero divisor. Dafny's own `%` is
    Euclidean, so the truncating remainder is written out as JsRem. */
module JsArith {

  /** The value of a BigInt expression: a number, or the RangeError it throws. */
  datatype Eval<+T> = Ok(value: T) | RangeError

  /** What `BigInt(text)` makes of a text field: the number it denotes, or a
      SyntaxError when the text is not an integer literal. */
  datatype Numeric = Num(value: int) | NotANumber

  /** A value that may be absent: a component's not-yet-computed secret, or
      a sampler that has not returned. */
  datatype Option<+T> = None | Some(value: T)

  function Abs(x: int): nat { if x < 0 then -x else x }

  /** `b ** e` for a non-negative exponent. */
  function Pow(b: int, e: nat): int
    decreases e
  {
    if e == 0 then 1 else b * Pow(b, e - 1)
  }

  /** BigInt `x % m`: the remainder of the division truncated toward zero. */
  function JsRem(x: int, m: int): int
    requires m != 0
  {
    if x >= 0 then x % Abs(m) else -((-x) % Abs(m))
  }

  /** Neither x nor y lies strictly on the other side of zero. */
  predicate SameSign(x: int, y: int) {
    (x >= 0 && y >= 0) || (x <= 0 && y <= 0)
  }

  // ---------------------------------------------------------------------
  // Euclidean division facts
  // ---------------------------------------------------------------------

  lemma DivModUnique(a: int, m: int, q: int, r: int)
    requires m > 0 && a == m * q + r && 0 <= r < m
    ensures a % m == r && a / m == q
  {
    var q0, r0 := a / m, a % m;
    assert m * q0 + r0 == a;
    assert m * (q - q0) == r0 - r;
    if q - q0 >= 1 {
      MulAtLeast(m, q - q0);
    } else if q0 - q >= 1 {
      MulAtLeast(m, q0 - q);
    }
  }

  lemma MulAtLeast(m: int, k: int)
    requires m > 0 && k >= 1
    ensures m * k >= m
  {
    assert m * k == m * (k - 1) + m;
  }

  /** Multiplying by a non-negative number is monotonic. */
  lemma MulLe(a: int, b: int, c: int)
    ensures a >= 0 && b <= c ==> a * b <= a * c
  {
    if a >= 0 && b <= c {
      assert a * c == a * b + a * (c - b);
    }
  }

  /** Adding a multiple of m does not change the remainder. */
  lemma ModAddMultiple(a: int, k: int, m: int)
    requires m > 0
    ensures (a + m * k) % m == a % m
  {
    assert a == m * (a / m) + a % m;
    assert a + m * k == m * (a / m + k) + a % m;
    DivModUnique(a + m * k, m, a / m + k, a % m);
  }

  /** Congruence modulo m, stated through the remainder. */
  lemma CongruentByDifference(x: int, y: int, k: int, m: int)
    requires m > 0 && x == y + m * k
    ensures x % m == y % m
  {
    ModAddMultiple(y, k, m);
  }

  lemma NegCongruent(x: int, y: int, m: int)
    requires m > 0 && x % m == y % m
    ensures (-x) % m == (-y) % m
  {
    assert x == m * (x / m) + x % m;
    assert y == m * (y / m) + y % m;
    assert -x == -y + m * (y / m - x / m);
    CongruentByDifference(-x, -y, y / m - x / m, m);
  }

  /** The product of two numbers written as quotient and remainder. */
  lemma ProductExpansion(m: int, qa: int, ra: int, qb: int, rb: int)
    ensures (m * qa + ra) * (m * qb + rb) == ra * rb + m * (qa * (m * qb + rb) + ra * qb)
  {
    calc {
      (m * qa + ra) * (m * qb + rb);
      m * qa * (m * qb + rb) + ra * (m * qb + rb);
      m * (qa * (m * qb + rb)) + ra * (m * qb) + ra * rb;
      { assert ra * (m * qb) == m * (ra * qb); }
      ra * rb + m * (qa * (m * qb + rb) + ra * qb);
    }
  }

  /** a * b differs from (a % m) * (b % m) by a multiple of m. */
  lemma MulResidue(a: int, b: int, m: int)
    requires m > 0
    ensures (a * b) % m == ((a % m) * (b % m)) % m
  {
    var qa, qb, ra, rb := a / m, b / m, a % m, b % m;
    assert a == m * qa + ra;
    assert b == m * qb + rb;
    ProductExpansion(m, qa, ra, qb, rb);
    ModAddMultiple(ra * rb, qa * b + ra * qb, m);
  }

  lemma MulCongruent(a: int, b: int, c: int, d: int, m: int)
    requires m > 0 && a % m == c % m && b % m == d % m
    ensures (a * b) % m == (c * d) % m
  {
    MulResidue(a, b, m);
    MulResidue(c, d, m);
  }

  // ---------------------------------------------------------------------
  // The truncating remainder
  // ---------------------------------------------------------------------

  /** JsRem(x, m) is congruent to x, smaller than m in magnitude and never
      on the other side of zero from x. */
  lemma JsRemProperties(x: int, m: int)
    requires m != 0
    ensures JsRem(x, m) % Abs(m) == x % Abs(m)
    ensures Abs(JsRem(x, m)) < Abs(m)
    ensures SameSign(JsRem(x, m), x)
  {
    if x < 0 {
      NegatedRemainder(-x, Abs(m));
    }
  }

  /** Negating the remainder of y gives a number congruent to -y. */
  lemma NegatedRemainder(y: int, n: int)
    requires n > 0
    ensures (-(y % n)) % n == (-y) % n
  {
    var q, r := y / n, y % n;
    assert y == n * q + r;
    assert -y == -r + n * (-q);
    CongruentByDifference(-y, -r, -q, n);
  }

  /** A remainder that is already reduced stays as it is. */
  lemma JsRemOfReduced(x: int, m: int)
    requires m != 0 && Abs(x) < Abs(m)
    ensures JsRem(x, m) == x
  {
    if x >= 0 {
      DivModUnique(x, Abs(m), 0, x);
    } else {
      DivModUnique(-x, Abs(m), 0, -x);
    }
  }

  /** The truncating remainder is determined by the residue and the sign. */
  lemma JsRemDeterminedBy(x: int, y: int, m: int)
    requires m != 0 && x % Abs(m) == y % Abs(m) && SameSign(x, y)
    ensures JsRem(x, m) == JsRem(y, m)
  {
    var n := Abs(m);
    if x < 0 || y < 0 {
      NegCongruent(x, y, n);
      if x >= 0 {
        assert x == 0;
        assert 0 % n == 0;
      } else if y >= 0 {
        assert y == 0;
        assert 0 % n == 0;
      }
    }
  }

  lemma SameSignMul(a: int, b: int, c: int, d: int)
    requires SameSign(a, c) && SameSign(b, d)
    ensures SameSign(a * b, c * d)
  {
    if a >= 0 && c >= 0 {
      if b >= 0 && d >= 0 {
        assert a * b >= 0 && c * d >= 0;
      } else {
        assert a * b <= 0 && c * d <= 0;
      }
    } else {
      if b >= 0 && d >= 0 {
        assert a * b <= 0 && c * d <= 0;
      } else {
        assert a * b >= 0 && c * d >= 0;
      }
    }
  }

  // ---------------------------------------------------------------------
  // Powers
  // ---------------------------------------------------------------------

  lemma {:induction false} PowAdd(b: int, e1: nat, e2: nat)
    ensures Pow(b, e1 + e2) == Pow(b, e1) * Pow(b, e2)
    decreases e1
  {
    if e1 > 0 {
      PowAdd(b, e1 - 1, e2);
      assert Pow(b, e1 + e2) == b * Pow(b, e1 - 1 + e2);
    }
  }

  lemma {:induction false} PowMul(b: int, e1: nat, e2: nat)
    ensures Pow(Pow(b, e1), e2) == Pow(b, e1 * e2)
    decreases e2
  {
    if e2 > 0 {
      PowMul(b, e1, e2 - 1);
      assert e1 * e2 == e1 + e1 * (e2 - 1);
      PowAdd(b, e1, e1 * (e2 - 1));
    }
  }

  /** One halving step of square-and-multiply. */
  lemma PowSquare(b: int, e: nat)
    ensures Pow(b, e) == (if e % 2 == 1 then b else 1) * Pow(b * b, e / 2)
  {
    PowMul(b, 2, e / 2);
    assert Pow(b, 2) == b * b;
    if e % 2 == 1 {
      PowAdd(b, 1, 2 * (e / 2));
      assert e == 1 + 2 * (e / 2);
    } else {
      assert e == 2 * (e / 2);
    }
  }

  lemma {:induction false} PowCongruent(x: int, y: int, e: nat, m: int)
    requires m > 0 && x % m == y % m
    ensures Pow(x, e) % m == Pow(y, e) % m
    decreases e
  {
    if e > 0 {
      PowCongruent(x, y, e - 1, m);
      MulCongruent(x, Pow(x, e - 1), y, Pow(y, e - 1), m);
    }
  }

  lemma {:induction false} PowSameSign(x: int, y: int, e: nat)
    requires SameSign(x, y)
    ensures SameSign(Pow(x, e), Pow(y, e))
    decreases e
  {
    if e > 0 {
      PowSameSign(x, y, e - 1);
      SameSignMul(x, Pow(x, e - 1), y, Pow(y, e - 1));
    }
  }

  lemma {:induction false} PowNonNegative(b: int, e: nat)
    requires b >= 0
    ensures Pow(b, e) >= 0
    decreases e
  {
    if e > 0 {
      PowNonNegative(b, e - 1);
    }
  }

  /** Reducing the base first does not change the reduced power. */
  lemma JsRemPowOfJsRem(x: int, e: nat, m: int)
    requires m != 0
    ensures JsRem(Pow(JsRem(x, m), e), m) == JsRem(Pow(x, e), m)
  {
    JsRemProperties(x, m);
    PowCongruent(JsRem(x, m), x, e, Abs(m));
    PowSameSign(JsRem(x, m), x, e);
    JsRemDeterminedBy(Pow(JsRem(x, m), e), Pow(x, e), m);
  }
}

/**
 Facts about real arithmetic and about the square root that the similarity
 computations rely on. `Math.sqrt` is modelled by any function that is an exact
 square root on the non-negative reals.
 */
module Reals {

  /** `sqrt` is an exact square root on the non-negative reals. */
  ghost predicate IsSqrt(sqrt: real -> real)
  {
    forall x :: 0.0 <= x ==> 0.0 <= sqrt(x) && sqrt(x) * sqrt(x) == x
  }

  lemma SqrtPositive(sqrt: real -> real, x: real)
    requires IsSqrt(sqrt)
    requires x > 0.0
    ensures sqrt(x) > 0.0
  {
    assert sqrt(x) * sqrt(x) == x;
  }

  /** The product of the roots of two positive numbers is positive. */
  lemma RootsProductPositive(sqrt: real -> real, x: real, y: real)
    requires IsSqrt(sqrt)
    requires x > 0.0 && y > 0.0
    ensures sqrt(x) * sqrt(y) > 0.0
  {
    SqrtPositive(sqrt, x);
    SqrtPositive(sqrt, y);
  }

  /** Multiplying by a positive factor keeps the sign. */
  lemma PositiveFactorSign(a: real, d: real)
    requires d > 0.0
    ensures a < 0.0 ==> a * d < 0.0
    ensures a > 0.0 ==> a * d > 0.0
  {
  }

  /** Dividing by a positive `d` compares the numerator with `d`. */
  lemma QuotientCompare(n: real, d: real)
    requires d > 0.0
    ensures n / d < 1.0 <==> n < d
    ensures n / d == 1.0 <==> n == d
    ensures n > 0.0 ==> n / d > 0.0
  {
    var q := n / d;
    assert q * d == n;
    assert (q - 1.0) * d == n - d;
    PositiveFactorSign(q - 1.0, d);
    PositiveFactorSign(q, d);
  }

  lemma SquareOfQuotient(p: real, m: real)
    requires m != 0.0
    ensures ((p / m) * (p / m)) * (m * m) == p * p
  {
    var q := p / m;
    assert q * m == p;
    assert (q * q) * (m * m) == (q * m) * (q * m);
  }

  lemma Distribute(p: real, q: real, d: real)
    ensures (p + q) * d == p * d + q * d
  {
  }

  lemma SquareNonNegative(q: real)
    ensures q * q >= 0.0
  {
  }

  /** The square `s` of a non-zero number is positive. */
  lemma SquarePositive(s: real, q: real)
    requires q != 0.0 && s == q * q
    ensures s > 0.0
  {
    calc {
      s;
    ==
      q * q;
    >
      0.0;
    }
  }

  lemma ZeroFactor(x: real, y: real)
    requires y == 0.0
    ensures x * y == 0.0
  {
  }

  /** A quantity that multiplied by a non-zero `s` gives `s` back is 1. */
  lemma FactorOne(x: real, q: real, s: real)
    requires s != 0.0 && q == s && x * q == s
    ensures x == 1.0
  {
    assert x * s == s;
    assert (x - 1.0) * s == 0.0;
  }

  /** A positive number divided by the square of its root is 1. */
  lemma RootQuotient(sqrt: real -> real, m: real)
    requires IsSqrt(sqrt) && m > 0.0
    ensures m / (sqrt(m) * sqrt(m)) == 1.0
  {
    assert sqrt(m) * sqrt(m) == m;
  }
}

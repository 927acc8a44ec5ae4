/**
 The engine computes weights with `Math.log`, `Math.log10` and `Math.sqrt` on
 doubles. The model works over exact reals and keeps the three functions
 uninterpreted: they are fields of a `Math` value passed to every operation
 that needs them, and each property that depends on their behaviour names the
 one fact it uses through a predicate below.
 */
module Numerics {

  datatype Math = Math(ln: real -> real, log10: real -> real, sqrt: real -> real)

  /** The logarithmic term-frequency weight 1 + ln(count) used for documents
      and queries alike. */
  function TermFrequencyWeight(count: real, m: Math): real
  {
    1.0 + m.ln(count)
  }

  /** The natural logarithm is positive above 1. */
  ghost predicate LnPositiveAbove1(m: Math)
  {
    forall x: real :: x > 1.0 ==> m.ln(x) > 0.0
  }

  /** The natural logarithm is non-negative from 1 on. */
  ghost predicate LnNonNegativeFrom1(m: Math)
  {
    forall x: real :: x >= 1.0 ==> m.ln(x) >= 0.0
  }

  /** The decimal logarithm is negative strictly between 0 and 1. */
  ghost predicate Log10NegativeBelow1(m: Math)
  {
    forall x: real :: 0.0 < x < 1.0 ==> m.log10(x) < 0.0
  }

  /** The square root of a non-negative number is non-negative. */
  ghost predicate SqrtNonNegative(m: Math)
  {
    forall x: real :: x >= 0.0 ==> m.sqrt(x) >= 0.0
  }

  /** The square root of a non-negative number is the non-negative number
      whose square it is. */
  ghost predicate SqrtExact(m: Math)
  {
    forall x: real :: x >= 0.0 ==> m.sqrt(x) >= 0.0 && m.sqrt(x) * m.sqrt(x) == x
  }

  /** The square root of a positive number is positive (so it can divide). */
  ghost predicate SqrtPositiveOnPositive(m: Math)
  {
    forall x: real :: x > 0.0 ==> m.sqrt(x) > 0.0
  }

  lemma ExactSqrtPositive(m: Math)
    requires SqrtExact(m)
    ensures SqrtPositiveOnPositive(m)
  {
    forall x: real | x > 0.0
      ensures m.sqrt(x) > 0.0
    {
      SqrtPositive(m, x);
    }
  }

  /** An exact square root is positive on positive arguments. */
  lemma SqrtPositive(m: Math, x: real)
    requires SqrtExact(m) && x > 0.0
    ensures m.sqrt(x) > 0.0
  {
    assert m.sqrt(x) * m.sqrt(x) == x;
  }

  /** An exact square root is monotone. */
  lemma SqrtMonotone(m: Math, x: real, y: real)
    requires SqrtExact(m) && 0.0 <= x <= y
    ensures m.sqrt(x) <= m.sqrt(y)
  {
    var a, b := m.sqrt(x), m.sqrt(y);
    assert a * a == x && b * b == y;
    SquaresGrow(a, b);
  }

  lemma SquaresGrow(a: real, b: real)
    ensures a > b >= 0.0 ==> a * a > b * b
  {
    if a > b >= 0.0 {
      MulPositive(a - b, a + b);
      assert (a - b) * (a + b) == a * a - b * b;
    }
  }

  lemma MulPositive(u: real, v: real)
    requires u > 0.0 && v > 0.0
    ensures u * v > 0.0
  {
  }

  /** A common non-zero factor cancels from a quotient. */
  lemma CancelCommon(a: real, b: real, x: real)
    requires a != 0.0 && b != 0.0
    ensures (a * x) / (a * b) == x / b
  {
    var s := x / b;
    assert s * b == x;
    assert (a * b) * s == a * x;
  }
}

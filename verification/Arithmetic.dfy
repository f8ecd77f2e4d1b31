/** Facts about products and quotients. */
module Arithmetic {

  /** A quotient and a remainder are the only ones. */
  lemma DivisionIs(a: int, q: int, r: int, d: int)
    requires d > 0 && 0 <= r < d && a == q * d + r
    ensures a / d == q && a % d == r
  {
    var quot, rest := a / d, a % d;
    assert a == quot * d + rest;
    if quot < q {
      Multiples(quot, q, d);
    } else if q < quot {
      Multiples(q, quot, d);
    }
  }

  /** Distinct multiples are a whole divisor apart. */
  lemma Multiples(a: int, b: int, d: int)
    requires d > 0 && a < b
    ensures a * d + d <= b * d
  {
    assert (b - a - 1) * d >= 0;
    assert b * d == a * d + d + (b - a - 1) * d;
  }

  lemma QuotientMonotone(a: int, b: int, d: int)
    requires d > 0 && a <= b
    ensures a / d <= b / d
  {
    if b / d < a / d {
      Multiples(b / d, a / d, d);
    }
  }
}

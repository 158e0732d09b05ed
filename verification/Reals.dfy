/** Small facts about products of reals. */
module Reals {

  lemma Square(a: real)
    ensures a * a >= 0.0
  {
  }

  lemma ProductNonNegative(a: real, b: real)
    requires a >= 0.0 && b >= 0.0
    ensures a * b >= 0.0
  {
  }

  lemma Distribute(a: real, b: real, c: real)
    ensures (a + b) * c == a * c + b * c && c * (a + b) == c * a + c * b
  {
  }

  lemma Monotone(a: real, b: real, c: real)
    requires a <= b && c >= 0.0
    ensures a * c <= b * c && c * a <= c * b
  {
    ProductNonNegative(b - a, c);
    Distribute(b - a, a, c);
  }

  /** A common positive factor cancels. */
  lemma Cancel(a: real, b: real, c: real)
    requires c > 0.0 && c * a <= c * b
    ensures a <= b
  {
    if a > b {
      Distribute(a - b, b, c);
      ProductPositive(c, a - b);
    }
  }

  lemma CancelStrictly(a: real, b: real, c: real)
    requires c > 0.0 && a * c < b * c
    ensures a < b
  {
    if b <= a {
      Monotone(b, a, c);
    }
  }

  lemma PositiveFactor(a: real, c: real)
    requires c > 0.0 && a * c > 0.0
    ensures a > 0.0
  {
    if a <= 0.0 {
      Monotone(a, 0.0, c);
    }
  }

  lemma ProductPositive(a: real, b: real)
    requires a > 0.0 && b > 0.0
    ensures a * b > 0.0
  {
  }

  lemma Quotient(a: real, n: real)
    requires n > 0.0
    ensures n * (a / n) == a && (a / n) * n == a
  {
    var q := a / n;
    assert q * n == a;
  }

  lemma Binomial(a: real, b: real)
    ensures (a + b) * (a + b) == a * a + 2.0 * (a * b) + b * b
  {
  }

  lemma Associate(a: real, b: real, c: real)
    ensures a * (b * c) == (a * b) * c == b * (a * c)
  {
  }
}

/** Sign facts about products of reals. They are stated over distinct variables
    and applied with repeated arguments (a square is ProductPositive(x, x)),
    which keeps each proof a plain sign argument. */
module RealFacts {

  lemma ProductPositive(a: real, b: real)
    requires (a > 0.0 && b > 0.0) || (a < 0.0 && b < 0.0)
    ensures a * b > 0.0
  {
  }

  lemma ProductNonNegative(a: real, b: real)
    requires (a >= 0.0 && b >= 0.0) || (a <= 0.0 && b <= 0.0)
    ensures a * b >= 0.0
  {
    if a != 0.0 && b != 0.0 {
      ProductPositive(a, b);
    }
  }

  lemma SumPositive(s: real, t: real, n: real)
    requires n == s + t
    requires s > 0.0
    requires t >= 0.0
    ensures n > 0.0
  {
  }

  lemma SumOfProductsPositive(a: real, b: real, c: real, d: real, n: real)
    requires n == a * b + c * d
    requires (a > 0.0 && b > 0.0) || (a < 0.0 && b < 0.0)
    requires (c >= 0.0 && d >= 0.0) || (c <= 0.0 && d <= 0.0)
    ensures n > 0.0
  {
    ProductPositive(a, b);
    ProductNonNegative(c, d);
    SumPositive(a * b, c * d, n);
  }

  lemma SumNonNegative(s: real, t: real, n: real)
    requires n == s + t
    requires s >= 0.0
    requires t >= 0.0
    ensures n >= 0.0
  {
  }

  /** x*x + y*y is never negative, and is zero only at the origin. */
  lemma SumOfSquaresSign(x: real, y: real, n: real)
    requires n == x * x + y * y
    ensures n >= 0.0
    ensures x != 0.0 || y != 0.0 ==> n > 0.0
  {
    ProductNonNegative(x, x);
    ProductNonNegative(y, y);
    SumNonNegative(x * x, y * y, n);
    if x != 0.0 {
      SumOfProductsPositive(x, x, y, y, n);
    } else if y != 0.0 {
      SumOfProductsPositive(y, y, x, x, n);
    }
  }
}

/** Division facts that the solver does not find by itself. */
module Arithmetic {

  lemma MultipleAtLeast(d: int, m: nat)
    requires d >= 1
    ensures d * m >= m
  {
    assert d * m == (d - 1) * m + m;
  }

  lemma MultipleBetween(d: int, m: nat)
    requires 0 - m < d * m < m
    ensures d == 0
  {
    Negated(d, m);
    if d >= 1 {
      MultipleAtLeast(d, m);
    } else if d <= -1 {
      MultipleAtLeast(-d, m);
    }
  }

  lemma Negated(d: int, m: int)
    ensures (-d) * m == -(d * m)
  {
  }

  /** Rows of the same width. */
  lemma RowBefore(a: nat, b: nat, width: nat)
    requires a <= b
    ensures a * width <= b * width && (a + 1) * width == a * width + width
  {
    var d := b - a;
    assert b * width == a * width + d * width;
  }

  /** Quotient and remainder are determined by their defining equation. */
  lemma DivMod(x: nat, m: nat, q: int, v: nat)
    requires v < m && x == q * m + v
    ensures x / m == q && x % m == v
  {
    var d := x / m - q;
    assert x == x / m * m + x % m;
    assert d * m == x / m * m - q * m;
    MultipleBetween(d, m);
  }

  /** Wrapping around once. */
  lemma Wrap(x: nat, n: nat)
    requires x < 2 * n
    ensures x % n == if x < n then x else x - n
  {
    if x < n {
      DivMod(x, n, 0, x);
    } else {
      DivMod(x, n, 1, x - n);
    }
  }
}

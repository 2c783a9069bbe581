/** Division with remainder, and cancelling a factor. */
module Arithmetic {

  lemma Cancel(d: nat, x: int, y: int)
    requires d * x < d * y
    ensures x < y
  {
    assert x >= y ==> d * (x - y) >= 0;
    assert d * x == d * y + d * (x - y);
  }

  lemma DivBounds(n: int, d: nat)
    requires d > 0
    ensures d * (n / d) <= n < d * (n / d) + d
  {
  }

  /** Quotient and remainder are determined. */
  lemma DivModIs(n: int, d: nat, q: int, r: int)
    requires 0 <= r < d && n == d * q + r
    ensures n / d == q && n % d == r
  {
    DivBounds(n, d);
    assert d * (q + 1) == d * q + d && d * (n / d + 1) == d * (n / d) + d;
    Cancel(d, q, n / d + 1);
    Cancel(d, n / d, q + 1);
  }
}

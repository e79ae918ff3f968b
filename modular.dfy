/** Facts about Dafny's Euclidean `/` and `%` that the solver does not find alone. */
module Modular {

  /** Quotient and remainder are determined by `x == d * n + r` with `0 <= r < n`. */
  lemma DivModUnique(x: int, n: int, d: int, r: int)
    requires n > 0 && 0 <= r < n && x == d * n + r
    ensures x % n == r && x / n == d
  {
    var q, m := x / n, x % n;
    assert q * n + m == d * n + r;
    assert (q - d) * n == r - m;
    if q > d {
      MulAtLeast(q - d, n);
    } else if q < d {
      MulAtLeast(d - q, n);
    }
  }

  lemma MulAtLeast(a: int, n: int)
    requires a >= 1 && n > 0
    ensures a * n >= n
  {
  }

  /** Adding a multiple of n does not change the remainder. */
  lemma ModAddMultiple(a: int, q: int, n: int)
    requires n > 0
    ensures (a + q * n) % n == a % n
  {
    DivModUnique(a, n, a / n, a % n);
    assert a + q * n == (a / n + q) * n + a % n;
    DivModUnique(a + q * n, n, a / n + q, a % n);
  }
}

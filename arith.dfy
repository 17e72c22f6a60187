/** Facts about Euclidean division that the index and time arithmetic rely on. */
module Arith {
  /** The Euclidean quotient and remainder are the only q, r with x == q * n + r and 0 <= r < n. */
  lemma DivModUnique(x: int, q: int, r: int, n: int)
    requires n > 0 && 0 <= r < n && x == q * n + r
    ensures x / n == q && x % n == r
  {
    var q2, r2 := x / n, x % n;
    assert x == q2 * n + r2;
    assert (q - q2) * n == r2 - r;
    MulBound(q - q2, n);
  }

  lemma MulBound(d: int, n: int)
    requires n > 0 && -n < d * n < n
    ensures d == 0
  {
  }
}

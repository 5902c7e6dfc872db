/** Facts about Euclidean `%` used for walks around the ring and the copy offset. */
module ModArith {
  /** The remainder is determined by any quotient/remainder decomposition. */
  lemma DivModUnique(a: int, n: int, q: int, r: int)
    requires n > 0 && 0 <= r < n && a == q * n + r
    ensures a % n == r
  {
    var d := q - a / n;
    assert d * n == a % n - r;
    NoMultipleInside(d, n);
  }

  /** The only multiple of n strictly between -n and n is 0. */
  lemma NoMultipleInside(d: int, n: int)
    requires n > 0 && -n < d * n < n
    ensures d == 0
  {
  }
}

/** Integer facts about row-major grid positions and ring-buffer slots,
    shared by the sliding puzzle, the percolation grid and the resizing
    queue. */
module GridArith {

  lemma MulAtLeast(d: int, n: int)
    requires d >= 1 && n > 0
    ensures d * n >= n
  {
    assert d * n == (d - 1) * n + n;
  }

  /** Euclidean division is determined by quotient and remainder. */
  lemma DivModUnique(x: int, n: int, q: int, r: int)
    requires n > 0 && 0 <= r < n && x == q * n + r
    ensures x / n == q && x % n == r
  {
    var q', r' := x / n, x % n;
    assert (q - q') * n == r' - r && (q' - q) * n == r - r' by {
      assert x == q' * n + r';
      assert (q - q') * n == q * n - q' * n;
      assert (q' - q) * n == q' * n - q * n;
    }
    if q > q' {
      MulAtLeast(q - q', n);
      assert false;
    } else if q < q' {
      MulAtLeast(q' - q, n);
      assert false;
    }
  }

  lemma RowBound(n: int, p: int)
    requires n > 0 && 0 <= p < n * n
    ensures p == (p / n) * n + p % n
    ensures 0 <= p / n < n && 0 <= p % n < n
  {
    var r, c := p / n, p % n;
    assert p == r * n + c;
    if r >= n {
      assert r * n == (r - n) * n + n * n;
      if r - n >= 1 { MulAtLeast(r - n, n); }
      assert false;
    }
  }
}

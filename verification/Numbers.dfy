/** Integer facts that several modules need. */
module Numbers {

  function Min(a: int, b: int): int { if a < b then a else b }

  function Max(a: int, b: int): int { if a < b then b else a }

  /** Quotient and remainder are fixed by the equation they satisfy. */
  lemma DivisionUnique(x: int, n: nat, q: int, r: int)
    requires n > 0 && 0 <= r < n && x == q * n + r
    ensures x % n == r && x / n == q
  {
    var d := x / n - q;
    assert x == x / n * n + x % n;
    assert d * n == r - x % n by { assert d * n == x / n * n - q * n; }
    assert d >= 1 ==> d * n >= n;
    assert d <= -1 ==> d * n <= -1 * n;
  }
}

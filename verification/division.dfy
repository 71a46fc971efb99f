/** Quotient and remainder, for the counters and rounds that wrap. */
module Division {
  lemma OneMore(n: nat, p: int, q: int)
    requires p < q
    ensures n * p + n <= n * q
  {
    assert n * q == n * (p + 1) + n * (q - p - 1);
  }

  /** Only one quotient and remainder fit. */
  lemma DivMod(m: nat, n: nat, q: int, r: nat)
    requires n > 0 && m == n * q + r && r < n
    ensures m / n == q && m % n == r
  {
    var p := m / n;
    assert m == n * p + m % n;
    if p < q { OneMore(n, p, q); }
    if q < p { OneMore(n, q, p); }
  }
}

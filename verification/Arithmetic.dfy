/** Division facts shared by the other modules. */
module Arithmetic {

  lemma ProductGrows(d: int, m: int)
    requires 0 < m
    ensures d >= 1 ==> d * m >= m
    ensures d <= -1 ==> d * m <= -m
  {
  }

  /** Quotient and remainder are unique. */
  lemma DivUnique(x: int, m: int, q: int, r: int)
    requires 0 < m && x == q * m + r && 0 <= r < m
    ensures x / m == q && x % m == r
  {
    var d := q - x / m;
    assert x == x / m * m + x % m;
    assert d * m == x % m - r;
    ProductGrows(d, m);
  }

  lemma Multiple(x: int, m: int)
    requires 0 < m
    ensures (x - x % m) % m == 0
  {
    assert x == x / m * m + x % m;
    DivUnique(x - x % m, m, x / m, 0);
  }
}

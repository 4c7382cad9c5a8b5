/** Facts about products and quotients that several modules use. */
module Arithmetic {

  lemma MulMonotone(x: int, y: int, z: int)
    requires x <= y && 0 <= z
    ensures x * z <= y * z
  {
    assert (y - x) * z >= 0;
  }

  lemma Multiple(d: int, c: int)
    requires c > 0
    ensures (d > 0 ==> d * c >= c) && (d < 0 ==> d * c <= -c)
  {
  }

  /** Quotient and remainder are determined by n == q * c + r with r < c. */
  lemma DivMod(n: int, c: int, q: int, r: int)
    requires c > 0 && n == q * c + r && 0 <= r < c
    ensures n / c == q && n % c == r
  {
    var d := q - n / c;
    assert n == (n / c) * c + n % c;
    assert d * c == n % c - r;
    Multiple(d, c);
  }
}

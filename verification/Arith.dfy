/** Steps of non-linear arithmetic, one at a time. */
module Arith {

  lemma MulLe(a: int, b: int, c: int)
    requires a <= b && 0 <= c
    ensures a * c <= b * c
  {}

  lemma MulLt(a: int, b: int, c: int)
    requires a < b && 0 < c
    ensures a * c < b * c
  {}

  lemma MulAdd(a: int, b: int, c: int)
    ensures (a + b) * c == a * c + b * c
  {}

  lemma MulEq(c: int, a: int, b: int)
    requires a == b
    ensures c * a == c * b
  {}

  lemma MulAssoc(a: int, b: int, c: int)
    ensures (a * b) * c == a * (b * c)
  {}

  lemma DivMod(n: int, d: int)
    requires n >= 0 && d > 0
    ensures n == (n / d) * d + n % d && 0 <= n % d < d && 0 <= n / d
  {}

  /** Quotient and remainder are determined by the division identity. */
  lemma DivModUnique(n: int, d: int, q: int, r: int)
    requires d > 0 && n == q * d + r && 0 <= r < d
    ensures q == n / d && r == n % d
  {
    var q', r' := n / d, n % d;
    assert n == q' * d + r';
    assert (q - q') * d == r' - r by { MulAdd(q, -q', d); }
    if q > q' { MulLe(1, q - q', d); }
    else if q < q' { MulLe(1, q' - q, d); }
  }
}

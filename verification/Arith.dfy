/** Powers of two and division, for the modules that count in numbers. */
module Arith {

  function Pow2(n: nat): (p: nat)
    ensures p > 0
  {
    if n == 0 then 1 else 2 * Pow2(n - 1)
  }

  /** Quotient and remainder are the only pair that fits. */
  lemma DivUnique(d: int, m: int, q: int, r: int)
    requires m > 0 && 0 <= r < m && d == m * q + r
    ensures d / m == q && d % m == r
  {
    var q', r' := d / m, d % m;
    assert m * (q - q') == r' - r;
    if q > q' {
      Grows(m, q - q');
    } else if q < q' {
      Grows(m, q' - q);
    }
  }

  lemma Grows(m: int, k: int)
    requires m > 0 && k >= 1
    ensures m * k >= m
  {
  }
}

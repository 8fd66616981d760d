/** Facts about integer multiplication and Euclidean division used by the proofs. */
module Arith {
  lemma MulAtLeast(a: int, m: int)
    requires a >= 1 && m > 0
    ensures a * m >= m
  {
    assert a * m == (a - 1) * m + m;
  }

  /** Euclidean division has one quotient and one remainder. */
  lemma DivUnique(v: int, m: int, q: int, r: int)
    requires m > 0 && 0 <= r < m && v == q * m + r
    ensures v / m == q && v % m == r
  {
    var q0, r0 := v / m, v % m;
    assert v == q0 * m + r0;
    if q0 < q {
      MulAtLeast(q - q0, m);
    } else if q < q0 {
      MulAtLeast(q0 - q, m);
    }
  }

  lemma MulMonotone(a: int, b: int, p: int)
    requires a <= b && p > 0
    ensures a * p <= b * p
  {
    assert b * p == a * p + (b - a) * p;
    if a < b {
      MulAtLeast(b - a, p);
    }
  }
}

/** Division facts the solver does not find by itself. */
module Arith {
  lemma ModShift(a: int, k: int, m: int)
    requires m > 0
    ensures (a - k * m) % m == a % m
  {
    var b := a - k * m;
    assert a == m * (a / m) + a % m;
    assert b == m * (a / m - k) + a % m by {
      assert m * (a / m - k) == m * (a / m) - k * m;
    }
    DivModUnique(b, m, a / m - k, a % m);
  }

  lemma DivModUnique(b: int, m: int, q: int, r: int)
    requires m > 0 && 0 <= r < m && b == m * q + r
    ensures b % m == r
  {
    QuotientUnique(m, q, r, b / m, b % m);
  }

  lemma QuotientUnique(m: int, q: int, r: int, q2: int, r2: int)
    requires m > 0 && 0 <= r < m && 0 <= r2 < m && m * q + r == m * q2 + r2
    ensures r == r2
  {
    if q > q2 {
      AtLeast(m, q, q2);
    } else if q < q2 {
      AtLeast(m, q2, q);
    }
  }

  lemma AtLeast(m: int, q: int, p: int)
    requires m > 0 && q > p
    ensures m * q >= m * p + m
  {
    Positive(m, q - p);
    Distribute(m, p, q - p);
  }

  lemma Positive(m: int, d: int)
    requires m > 0 && d >= 1
    ensures m * d >= m
  {
  }

  lemma Distribute(m: int, p: int, d: int)
    ensures m * (p + d) == m * p + m * d
  {
  }
}

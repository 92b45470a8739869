module Arithmetic {

  lemma Scaled(m: int, d: int)
    requires m >= 1
    ensures d >= 1 ==> m * d >= m
    ensures d <= -1 ==> m * d <= -m
  {
  }

  /** Quotient and remainder are unique. */
  lemma ModIs(a: int, m: int, q: int, r: int)
    requires m >= 1 && a == m * q + r && 0 <= r < m
    ensures a % m == r
  {
    var d := a / m - q;
    assert a == m * (a / m) + a % m;
    assert m * d == m * (a / m) - m * q;
    assert m * d == r - a % m;
    Scaled(m, d);
  }
}

/** Division and products of variables, for the modules that compute with them. */
module Arithmetic {

  lemma {:induction false} NoMultipleBetween(m: int, d: int)
    requires m > 0
    ensures -m < m * d < m ==> d == 0
  {
    assert d >= 1 ==> m * d >= m;
    assert d <= -1 ==> m * d <= -m;
  }

  /** Quotient and remainder are the only way to split a number like this. */
  lemma {:induction false} Remainder(x: nat, m: nat, q: nat, r: nat)
    requires m > 0 && x == m * q + r && r < m
    ensures x % m == r && x / m == q
  {
    assert x == m * (x / m) + x % m;
    NoMultipleBetween(m, q - x / m);
    assert m * (q - x / m) == x % m - r;
  }

  lemma {:induction false} Distribute(p: nat, a: nat, b: nat)
    ensures p * (a + b) == p * a + p * b
  {
  }

  lemma {:induction false} TimesAtMost(p: nat, a: nat, b: nat)
    requires a <= b
    ensures p * a <= p * b
  {
  }
}

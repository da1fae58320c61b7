/** Quotient and remainder are determined by what they add up to. */
module Division {

  lemma {:induction false} DivisionUnique(x: int, m: int, q: int, r: int)
    requires m > 0 && x == q * m + r && 0 <= r < m
    ensures x / m == q && x % m == r
  {
    var d := x / m - q;
    assert x == (x / m) * m + x % m;
    assert (x / m) * m == q * m + d * m;
    TimesAtLeast(d, m);
  }

  lemma {:induction false} TimesAtLeast(d: int, m: int)
    requires m > 0
    ensures d >= 1 ==> d * m >= m
    ensures d <= -1 ==> d * m <= -m
  {
  }
}

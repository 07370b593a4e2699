/** Facts about products and quotients. */
module Arithmetic {

  lemma AtLeastOnce(k: int, d: int)
    requires k >= 1 && d > 0
    ensures k * d >= d
  {
  }

  lemma QuotientUnique(n: int, d: int, q: int, r: int)
    requires d > 0 && n == q * d + r && 0 <= r < d
    ensures n / d == q
  {
    var e := n / d - q;
    assert n == (n / d) * d + n % d;
    assert (n / d) * d == q * d + e * d;
    assert (-e) * d == -(e * d);
    if e > 0 {
      AtLeastOnce(e, d);
    } else if e < 0 {
      AtLeastOnce(-e, d);
    }
  }

  lemma QuotientAtLeast(n: int, k: int, d: int)
    requires d > 0 && k * d <= n
    ensures k <= n / d
  {
    var e := k - n / d;
    assert n == (n / d) * d + n % d;
    assert k * d == (n / d) * d + e * d;
    if e > 0 {
      AtLeastOnce(e, d);
    }
  }
}

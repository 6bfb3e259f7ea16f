/** Powers of two and the division facts about them that bit tests come down to. */
module Arithmetic {
  function Pow2(n: nat): (p: nat)
    ensures p > 0
  {
    if n == 0 then 1 else 2 * Pow2(n - 1)
  }

  lemma Pow2Sum(m: nat, n: nat)
    ensures Pow2(m + n) == Pow2(m) * Pow2(n)
  {
    if m > 0 {
      Pow2Sum(m - 1, n);
    }
  }

  lemma NextMultiple(a: int, b: int, d: nat)
    requires a < b
    ensures a * d + d <= b * d
  {
    assert (b - a - 1) * d >= 0;
  }

  lemma QuotientUnique(x: int, d: nat, q: int, r: nat)
    requires r < d && x == q * d + r
    ensures x / d == q && x % d == r
  {
    var q', r' := x / d, x % d;
    assert x == q' * d + r' && 0 <= r' < d;
    if q < q' {
      NextMultiple(q, q', d);
    } else if q' < q {
      NextMultiple(q', q, d);
    }
  }

  lemma HalveThenDivide(x: int, d: nat)
    requires d > 0
    ensures x / 2 / d == x / (2 * d)
    ensures x % (2 * d) == x % 2 + 2 * (x / 2 % d)
  {
    var h, b := x / 2, x % 2;
    var q, r := h / d, h % d;
    assert x == 2 * h + b && h == q * d + r;
    assert x == q * (2 * d) + (2 * r + b);
    QuotientUnique(x, 2 * d, q, 2 * r + b);
  }

  lemma DivideTwice(x: nat, c: nat, d: nat)
    requires c > 0 && d > 0
    ensures x / c / d == x / (c * d)
  {
    var h, b := x / c, x % c;
    var q, r := h / d, h % d;
    assert x == c * h + b && h == q * d + r;
    assert x == q * (c * d) + (c * r + b);
    NextMultiple(r, d, c);
    QuotientUnique(x, c * d, q, c * r + b);
  }
}

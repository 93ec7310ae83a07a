/** Facts about products and remainders that the other modules use. */
module Arithmetic {

  lemma MulLe(a: int, b: int, c: int)
    requires a <= b && c >= 0
    ensures a * c <= b * c
    ensures c * a <= c * b
  {
    assert (b - a) * c >= 0;
  }

  lemma MulLeCancel(a: int, b: int, c: int)
    requires c > 0 && a * c <= b * c
    ensures a <= b
  {
    if a > b {
      MulLe(b + 1, a, c);
    }
  }

  lemma MulSwap(a: int, b: int, c: int)
    ensures (a * b) * c == b * (a * c)
  {
  }

  lemma Distribute(a: int, b: int, c: int)
    ensures (a + b) * c == a * c + b * c
    ensures c * (a + b) == c * a + c * b
  {
  }

  // Quotient and remainder are determined by x == q * m + r.
  lemma DivUnique(x: int, m: int, q: int, r: int)
    requires m > 0 && x == q * m + r && 0 <= r < m
    ensures x / m == q && x % m == r
  {
    var d := x / m - q;
    assert d * m == r - x % m;
    if d >= 1 {
      MulLe(1, d, m);
    } else if d <= -1 {
      MulLe(d, -1, m);
    }
  }

  lemma ModPlus(k: int, m: int)
    requires m > 0
    ensures (k + m) % m == k % m
  {
    assert k + m == (k / m + 1) * m + k % m;
    DivUnique(k + m, m, k / m + 1, k % m);
  }
}

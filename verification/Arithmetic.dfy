/** Facts about products, quotients and remainders of variables. */
module Arithmetic {
  lemma MulAtLeast(d: int, n: int)
    requires d > 0 && n >= 1
    ensures d * n >= d
  {
    assert d * n == d + d * (n - 1);
    NonNegativeProduct(d, n - 1);
  }

  lemma NonNegativeProduct(a: int, b: int)
    requires a >= 0 && b >= 0
    ensures a * b >= 0
  {
  }

  /** Quotient and remainder are determined by the equation they solve. */
  lemma OnlyQuotient(d: int, q: int, r: int, q': int, r': int)
    requires d > 0 && 0 <= r < d && 0 <= r' < d && d * q + r == d * q' + r'
    ensures q == q' && r == r'
  {
    assert d * (q - q') == r' - r && d * (q' - q) == r - r';
    if q > q' { MulAtLeast(d, q - q'); }
    if q < q' { MulAtLeast(d, q' - q); }
  }

  lemma DivModUnique(x: int, d: int, q: int, r: int)
    requires d > 0 && 0 <= r < d && x == d * q + r
    ensures x / d == q && x % d == r
  {
    OnlyQuotient(d, x / d, x % d, q, r);
  }

  /** Dividing by a product is dividing twice. */
  lemma DivDiv(x: nat, m: nat, n: nat)
    requires m > 0 && n > 0
    ensures m * n > 0 && x / (m * n) == (x / m) / n
  {
    DivDivFrom(x, m, n, x / m / n, x / m % n, x % m);
  }

  lemma DivDivFrom(x: int, m: nat, n: nat, q: int, r: int, s: int)
    requires m > 0 && n > 0 && 0 <= r < n && 0 <= s < m && x == m * (n * q + r) + s
    ensures m * n > 0 && x / (m * n) == q
  {
    MulAtLeast(m, n);
    assert m * (n * q + r) == (m * n) * q + m * r;
    assert m * n == m * r + m * (n - r);
    MulAtLeast(m, n - r);
    NonNegativeProduct(m, r);
    DivModUnique(x, m * n, q, m * r + s);
  }

  /** Counting one more either advances the remainder or completes a multiple. */
  lemma NextMultiple(k: nat, m: nat)
    requires m > 0
    ensures (k + 1) / m == k / m + (if k % m + 1 == m then 1 else 0)
    ensures (k + 1) % m == (if k % m + 1 == m then 0 else k % m + 1)
  {
    var q, r := k / m, k % m;
    assert k == m * q + r;
    if r + 1 == m {
      assert m * (q + 1) == m * q + m;
      DivModUnique(k + 1, m, q + 1, 0);
    } else {
      DivModUnique(k + 1, m, q, r + 1);
    }
  }
}

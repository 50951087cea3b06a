// Quotients and remainders of products, which the solver does not find on its own.
module Arithmetic {
  lemma DivMod(x: int, p: nat)
    requires p > 0
    ensures x == p * (x / p) + x % p
  {}

  lemma ProductAtLeast(p: nat, k: int)
    ensures k >= 1 ==> p * k >= p
    ensures k <= -1 ==> p * k + p <= 0
  {
    if k >= 1 {
      assert p * (k - 1) >= 0;
    } else if k <= -1 {
      assert p * (-1 - k) >= 0;
    }
  }

  lemma QuotientUnique(p: nat, d: int, e: int, q: int, r: int)
    requires 0 <= e < p && 0 <= r < p && p * d + e == p * q + r
    ensures d == q && e == r
  {
    ProductAtLeast(p, d - q);
    assert p * (d - q) == p * d - p * q;
  }

  // A number in [p * q, p * q + p) has quotient q.
  lemma QuotientIs(x: int, p: nat, q: int)
    requires p * q <= x < p * q + p
    ensures x / p == q && x % p == x - p * q
  {
    DivMod(x, p);
    QuotientUnique(p, x / p, x % p, q, x - p * q);
  }

  lemma ShiftQuotient(c: int, p: nat, j: int)
    requires p > 0
    ensures (c + j * p) / p == c / p + j
  {
    DivMod(c, p);
    assert c + j * p == p * (c / p + j) + c % p;
    QuotientIs(c + j * p, p, c / p + j);
  }

  lemma ShiftRemainder(c: int, p: nat, j: int)
    requires p > 0
    ensures (c + j * p) % p == c % p
  {
    DivMod(c, p);
    assert c + j * p == p * (c / p + j) + c % p;
    QuotientIs(c + j * p, p, c / p + j);
  }

  // Products keep order.
  lemma ProductMonotone(p: nat, a: int, b: int)
    requires a <= b
    ensures p * a <= p * b
  {
    ProductAtLeast(p, b - a);
    assert p * (b - a) == p * b - p * a;
  }

  lemma ProductAssoc(a: int, b: int, c: int)
    ensures a * (b * c) == b * (a * c) == (a * b) * c
  {}
}

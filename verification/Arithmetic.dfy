/** Facts about products and remainders the solver does not find by itself. */
module Arithmetic {
  lemma MulMonotone(a: int, b: int, d: int)
    requires a + 1 <= b && d >= 0
    ensures a * d + d <= b * d
  {
    var k := b - a - 1;
    assert k * d >= 0;
    assert (a + 1 + k) * d == a * d + d + k * d;
  }

  lemma Distribute(k: int, d: int)
    ensures (k - 1) * d + d == k * d
  {
  }

  lemma QuotientUnique(q: int, r: int, q': int, r': int, d: int)
    requires 0 <= r < d && 0 <= r' < d && q * d + r == q' * d + r'
    ensures q == q' && r == r'
  {
    if q > q' {
      MulMonotone(q', q, d);
    } else if q < q' {
      MulMonotone(q, q', d);
    }
  }

  /** The remainder is the only number below the divisor that completes a multiple of it. */
  lemma ModUnique(x: int, q: int, r: int, d: int)
    requires 0 <= r < d && x == q * d + r
    ensures x % d == r && x / d == q
  {
    QuotientUnique(q, r, x / d, x % d, d);
  }
}

/** Integer division by a variable divisor. */
module Arithmetic {

  lemma DivideBounds(a: nat, d: nat)
    requires d > 0
    ensures a / d * d <= a < a / d * d + d
  {
    assert a == a / d * d + a % d;
  }

  lemma {:induction false} ProductOrder(a: nat, b: nat, d: nat)
    ensures a < b ==> a * d + d <= b * d
  {
    if a < b {
      ProductOrder(a, b - 1, d);
      assert b * d == (b - 1) * d + d;
    }
  }

  /** The quotient is the only multiple of the divisor that close below. */
  lemma QuotientIs(a: nat, d: nat, q: nat)
    requires d > 0 && q * d <= a < q * d + d
    ensures a / d == q
  {
    DivideBounds(a, d);
    ProductOrder(a / d, q, d);
    ProductOrder(q, a / d, d);
  }

  lemma QuotientOrder(a: nat, b: nat, d: nat)
    requires d > 0 && a <= b
    ensures a / d <= b / d
  {
    DivideBounds(a, d);
    DivideBounds(b, d);
    ProductOrder(b / d, a / d, d);
  }

  lemma QuotientShift(a: nat, d: nat, k: nat)
    requires d > 0
    ensures (a + k * d) / d == a / d + k
  {
    DivideBounds(a, d);
    assert (a / d + k) * d == a / d * d + k * d;
    QuotientIs(a + k * d, d, a / d + k);
  }
}

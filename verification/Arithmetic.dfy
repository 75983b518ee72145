/** Products and quotients of natural numbers. */
module Arithmetic {

  lemma DivisionBrackets(a: nat, b: nat)
    requires b > 0
    ensures a / b * b <= a < (a / b + 1) * b
  {
    Distribute(a / b, 1, b);
  }

  lemma Distribute(p: int, q: int, d: int)
    ensures (p + q) * d == p * d + q * d
  {
  }

  lemma Cancel(p: int, q: int, d: nat)
    requires p * d < q * d
    ensures p < q
  {
    if q <= p {
      Distribute(q, p - q, d);
    }
  }

  lemma Monotone(p: int, q: int, d: nat)
    requires p <= q
    ensures p * d <= q * d
  {
    Distribute(p, q - p, d);
  }

  lemma QuotientBetween(lo: nat, hi: nat, a: nat, b: nat)
    requires b > 0 && lo * b <= a < (hi + 1) * b
    ensures lo <= a / b <= hi
  {
    DivisionBrackets(a, b);
    Cancel(lo, a / b + 1, b);
    Cancel(a / b, hi + 1, b);
  }

  lemma QuotientMonotone(a: nat, b: nat, d: nat)
    requires a <= b && d > 0
    ensures a / d <= b / d
  {
    DivisionBrackets(a, d);
    DivisionBrackets(b, d);
    Cancel(a / d, b / d + 1, d);
  }

  lemma OneMore(a: nat, d: nat)
    requires d > 0
    ensures (a + d) / d == a / d + 1
  {
    DivisionBrackets(a, d);
    Distribute(a / d, 1, d);
    Distribute(a / d + 1, 1, d);
    QuotientBetween(a / d + 1, a / d + 1, a + d, d);
  }
}

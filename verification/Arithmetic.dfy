// Products and quotients of integers that are not constants.
module Arithmetic {

  lemma MulLess(x: int, y: int, d: int)
    requires x < y && 0 < d
    ensures x * d + d <= y * d
  {
    MulLe(x + 1, y, d);
    assert (x + 1) * d == x * d + d;
  }

  lemma MulLe(x: int, y: int, d: int)
    requires x <= y && 0 < d
    ensures x * d <= y * d
  {}

  lemma Division(a: int, q: int, r: int, d: int)
    requires 0 < d && 0 <= r < d && a == q * d + r
    ensures a / d == q && a % d == r
  {
    var q' := a / d;
    assert a == q' * d + a % d;
    if q' < q { MulLess(q', q, d); } else if q < q' { MulLess(q, q', d); }
  }
}

/** The order of products and quotients of reals. */
module Reals {
  lemma ProductOrder(x: real, y: real, factor: real)
    requires x <= y && factor >= 0.0
    ensures x * factor <= y * factor
  {
  }

  lemma ProductCancel(x: real, y: real, factor: real)
    requires x * factor <= y * factor && factor > 0.0
    ensures x <= y
  {
  }

  lemma QuotientBound(x: real, y: real, k: real)
    requires y > 0.0
    ensures x >= k * y <==> x / y >= k
    ensures x <= k * y <==> x / y <= k
    ensures x == k * y <==> x / y == k
  {
    var q := x / y;
    assert q * y == x;
    assert q < k ==> q * y < k * y;
    assert q > k ==> q * y > k * y;
  }

  lemma QuotientOrder(x: real, y: real, d: real)
    requires d > 0.0
    ensures x <= y ==> x / d <= y / d
  {
    assert (x / d) * d == x && (y / d) * d == y;
    assert x / d > y / d ==> (x / d) * d > (y / d) * d;
  }
}

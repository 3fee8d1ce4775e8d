/** Euclidean division by a divisor that is not a constant. */
module Division {

  lemma MulAtLeast(d: int, x: int)
    requires d >= 1 && x > 0
    ensures d * x >= x
  {
  }

  lemma Unique(a: int, x: int, k: int, j: int)
    requires 0 <= j < x && a == k * x + j
    ensures a / x == k && a % x == j
  {
    var q, r := a / x, a % x;
    assert a == q * x + r;
    assert (q - k) * x == q * x - k * x && (k - q) * x == k * x - q * x;
    if q > k {
      MulAtLeast(q - k, x);
    } else if q < k {
      MulAtLeast(k - q, x);
    }
  }

  lemma Shift(a: int, x: int)
    requires x > 0
    ensures (a + x) % x == a % x
  {
    var q, r := a / x, a % x;
    assert a == q * x + r;
    assert a + x == (q + 1) * x + r;
    Unique(a + x, x, q + 1, r);
  }
}

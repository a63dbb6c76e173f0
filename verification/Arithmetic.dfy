/** 64-bit integers, and division with a divisor that is not a constant. */
module Arithmetic {
  const TWO_63: int := 0x8000_0000_0000_0000
  const TWO_64: int := 0x1_0000_0000_0000_0000

  predicate IsInt64(k: int) { -TWO_63 <= k < TWO_63 }

  lemma Remainder(x: nat, n: nat, q: nat, r: nat)
    requires r < n && x == n * q + r
    ensures x % n == r
  {
    var d := x / n - q;
    assert n * d == r - x % n;
    assert d > 0 ==> n * d >= n;
    assert d < 0 ==> n * d <= 0 - n;
  }
}

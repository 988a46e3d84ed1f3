/** Integer division facts the calendar and the rotation rely on. */
module Arith {

  lemma {:induction false} MulAtLeast(len: nat, d: int)
    requires d >= 1
    ensures d * len >= len
    decreases d
  {
    if d > 1 {
      MulAtLeast(len, d - 1);
      assert d * len == (d - 1) * len + len;
    }
  }

  /** Quotient and remainder are unique. */
  lemma DivModUnique(x: int, len: nat, q: int, r: int)
    requires 0 <= r < len
    requires x == q * len + r
    ensures x / len == q && x % len == r
  {
    var q0, r0 := x / len, x % len;
    assert x == q0 * len + r0;
    if q0 > q {
      assert (q0 - q) * len == r - r0;
      MulAtLeast(len, q0 - q);
    } else if q0 < q {
      assert (q - q0) * len == r0 - r;
      MulAtLeast(len, q - q0);
    }
  }
}

/** Minimum, powers of two, and quotient and remainder known from their product. */
module Arithmetic {

  function Min(a: nat, b: nat): nat
  {
    if a < b then a else b
  }

  /** 2^k. */
  function Pow2(k: nat): (p: int)
    ensures 0 < p
  {
    if k == 0 then 1 else 2 * Pow2(k - 1)
  }

  lemma DivUnique(x: int, d: int, q: int, r: int)
    requires 0 < d && x == d * q + r && 0 <= r < d
    ensures x / d == q && x % d == r
  {
    var m := x / d - q;
    assert d * m == r - x % d;
    assert m > 0 ==> d * m >= d;
    assert m < 0 ==> d * m <= -d;
  }
}

/** Integer facts shared by the table cache and the bit-string formatter. */
module Arith {

  /** `1 << n` on unbounded integers. */
  function Pow2(n: nat): (r: nat)
    ensures r >= 1
  {
    if n == 0 then 1 else 2 * Pow2(n - 1)
  }

  /** Multiplying by a natural number keeps the order. */
  lemma MulLe(x: int, y: int, t: nat)
    requires x <= y
    ensures x * t <= y * t
  {
  }
}

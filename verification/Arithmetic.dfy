/** Powers of two and products. */
module Arithmetic {
  function Pow2(n: nat): nat {
    if n == 0 then 1 else 2 * Pow2(n - 1)
  }

  lemma MulMonotone(m: nat, x: nat, y: nat)
    ensures x <= y ==> m * x <= m * y
  {
    if x <= y {
      assert m * y == m * x + m * (y - x);
    }
  }
}

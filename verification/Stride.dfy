/** Offsets of consecutive pieces of equal size. */
module Stride {
  /** The bytes in `k` full pieces. */
  function Off(gsoSize: nat, k: nat): (n: nat) {
    if k == 0 then 0 else Off(gsoSize, k - 1) + gsoSize
  }

  lemma OffStep(gsoSize: nat, k: nat)
    ensures Off(gsoSize, k + 1) == Off(gsoSize, k) + gsoSize && Off(gsoSize, 0) == 0
  {
  }

  lemma {:induction false} OffIsProduct(gsoSize: nat, k: nat)
    ensures Off(gsoSize, k) == gsoSize * k
  {
    if k == 0 {
    } else {
      OffIsProduct(gsoSize, k - 1);
    }
  }

  lemma {:induction false} OffMonotone(g: nat, m: nat, n: nat)
    requires m <= n
    ensures Off(g, m) <= Off(g, n)
  {
    if m >= n {
    } else {
      OffMonotone(g, m, n - 1);
    }
  }
}

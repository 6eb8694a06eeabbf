/** Address masks. Every mask in the modelled code is ~(2^k - 1), the mask of an aligned
    range of 2^k bytes, so it is given by its k: shifting it left by one bit is k + 1, and
    the conjunction of two masks is the one with the larger k. */
module Masks {

  function Pow2(k: nat): (r: nat)
    ensures r > 0
  {
    if k == 0 then 1 else 2 * Pow2(k - 1)
  }

  /** a & ~(2^k - 1) */
  function ClearLow(a: nat, k: nat): nat {
    if k == 0 then a else 2 * ClearLow(a / 2, k - 1)
  }

  predicate Aligned(a: nat, k: nat) { ClearLow(a, k) == a }

  /** ClearLow(a, k) is the start of the aligned range of 2^k bytes that `a` is in. */
  lemma {:induction false} ClearLowBounds(a: nat, k: nat)
    ensures ClearLow(a, k) <= a < ClearLow(a, k) + Pow2(k)
  {
    if k == 0 {
    } else {
      ClearLowBounds(a / 2, k - 1);
    }
  }

  /** Aligned ranges are told apart by any of their bytes. */
  lemma {:induction false} RangeHolds(a: nat, x: nat, k: nat)
    requires Aligned(a, k)
    ensures a <= x < a + Pow2(k) <==> ClearLow(x, k) == a
  {
    if k == 0 {
    } else {
      RangeHolds(a / 2, x / 2, k - 1);
    }
  }

  /** Clearing more bits forgets more. */
  lemma {:induction false} Coarser(a: nat, b: nat, j: nat, k: nat)
    requires j <= k && ClearLow(a, j) == ClearLow(b, j)
    ensures ClearLow(a, k) == ClearLow(b, k)
  {
    if j == 0 {
    } else {
      Coarser(a / 2, b / 2, j - 1, k - 1);
    }
  }

  lemma {:induction false} ClearTwice(a: nat, j: nat, k: nat)
    ensures j <= k ==> ClearLow(ClearLow(a, j), k) == ClearLow(a, k) && ClearLow(ClearLow(a, k), j) == ClearLow(a, k)
  {
    if j == 0 || j > k {
    } else {
      ClearTwice(a / 2, j - 1, k - 1);
    }
  }

  lemma {:induction false} ClearAll(a: nat, k: nat)
    requires a < Pow2(k)
    ensures ClearLow(a, k) == 0
  {
    if k == 0 {
    } else {
      ClearAll(a / 2, k - 1);
    }
  }

  lemma {:induction false} Pow2Add(j: nat, k: nat)
    ensures Pow2(j + k) == Pow2(j) * Pow2(k)
  {
    if j == 0 {
    } else {
      Pow2Add(j - 1, k);
    }
  }

  lemma Pow2Of4()
    ensures Pow2(4) == 16
  {
  }

  lemma Pow2Values()
    ensures Pow2(12) == 4096 && Pow2(16) == 0x1_0000 && Pow2(32) == 0x1_0000_0000 && Pow2(64) == 0x1_0000_0000_0000_0000
  {
    hide Pow2;
    Pow2Of4();
    Pow2Add(4, 4);
    Pow2Add(4, 8);
    Pow2Add(8, 8);
    Pow2Add(16, 16);
    Pow2Add(32, 32);
  }
}

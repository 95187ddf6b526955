// Shifts and masks of natural numbers: n >> k, the k low bits that it drops,
// and single bits.

module Shifts {
  import opened Bits

  function Shr(n: nat, k: nat): nat {
    if k == 0 then n else Shr(n / 2, k - 1)
  }

  /** n modulo 2^k. */
  function Low(n: nat, k: nat): nat {
    if k == 0 then 0 else n % 2 + 2 * Low(n / 2, k - 1)
  }

  predicate BitAt(n: nat, i: nat) { Shr(n, i) % 2 == 1 }

  lemma {:induction false} ShrSplit(n: nat, k: nat)
    ensures n == Shl(Shr(n, k), k) + Low(n, k) && Low(n, k) < Pow2(k)
  {
    if k > 0 {
      ShrSplit(n / 2, k - 1);
    }
  }

  /** The split is unique. */
  lemma {:induction false} ShrOfSum(a: nat, r: nat, k: nat)
    requires r < Pow2(k)
    ensures Shr(Shl(a, k) + r, k) == a && Low(Shl(a, k) + r, k) == r
  {
    if k > 0 {
      assert (Shl(a, k) + r) / 2 == Shl(a, k - 1) + r / 2;
      ShrOfSum(a, r / 2, k - 1);
    }
  }

  lemma {:induction false} ShrShr(n: nat, j: nat, k: nat)
    ensures Shr(Shr(n, j), k) == Shr(n, j + k)
  {
    if j > 0 {
      ShrShr(n / 2, j - 1, k);
    }
  }

  lemma {:induction false} Pow2Mono(i: nat, j: nat)
    ensures i <= j ==> Pow2(i) <= Pow2(j)
    ensures i < j ==> 2 * Pow2(i) <= Pow2(j)
    decreases i + j
  {
    if i < j {
      Pow2Mono(i, j - 1);
    }
  }

  /** A bound on n bounds the shifted n, from both sides. */
  lemma ShrBounds(n: nat, lo: nat, hi: nat, k: nat)
    ensures Shl(lo, k) <= n ==> lo <= Shr(n, k)
    ensures n < Shl(hi, k) ==> Shr(n, k) < hi
  {
    var m := Shr(n, k);
    ShrSplit(n, k);
    ShlAdd(m, 1, k);
    ShlMono(m + 1, lo, k);
    ShlMono(hi, m, k);
  }

  lemma ShrOfSmall(n: nat, j: nat, k: nat)
    requires n < Pow2(j) && j <= k
    ensures Shr(n, k) == 0 && Low(n, k) == n
  {
    Pow2Mono(j, k);
    ShlGrows(0, k);
    ShrOfSum(0, n, k);
  }

  /** Bits below k do not see what is added above. */
  lemma {:induction false} LowBitsOnly(a: nat, n: nat, j: nat, k: nat)
    ensures k <= j ==> Low(Shl(a, j) + n, k) == Low(n, k)
    ensures k < j ==> BitAt(Shl(a, j) + n, k) == BitAt(n, k)
  {
    if k > 0 && j > 0 {
      assert (Shl(a, j) + n) / 2 == Shl(a, j - 1) + n / 2;
      LowBitsOnly(a, n / 2, j - 1, k - 1);
    }
  }

  /** The top dropped bit says whether at least half a unit is dropped. */
  lemma {:induction false} TopDroppedBit(n: nat, k: nat)
    requires k > 0
    ensures BitAt(n, k - 1) <==> 2 * Low(n, k) >= Pow2(k)
  {
    if k > 1 {
      TopDroppedBit(n / 2, k - 1);
    }
  }

  /** Shifting out j + k bits at once or in two steps, and back. */
  lemma DropTwice(n: nat, j: nat, k: nat)
    ensures Shl(Shl(Shr(Shr(n, j), k), k), j) == Shl(Shr(n, j + k), j + k)
  {
    ShrShr(n, j, k);
    ShlShl(Shr(n, j + k), k, j);
  }

  lemma {:induction false} ShlIsTimes(a: nat, k: nat)
    ensures Shl(a, k) == a * Pow2(k)
  {
    if k > 0 {
      ShlIsTimes(a, k - 1);
      assert 2 * (a * Pow2(k - 1)) == a * (2 * Pow2(k - 1));
    }
  }

  lemma {:induction false} LowSplit(n: nat, j: nat, k: nat)
    ensures Low(n, j + k) == Low(n, j) + Shl(Low(Shr(n, j), k), j)
  {
    if j > 0 {
      LowSplit(n / 2, j - 1, k);
    }
  }
}

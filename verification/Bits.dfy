// Bit vectors as sequences of booleans, least significant bit first, and their
// unsigned values.

module Bits {
  type Bv = seq<bool>

  /** d * 2^k. */
  function Shl(d: nat, k: nat): nat {
    if k == 0 then d else 2 * Shl(d, k - 1)
  }

  function Pow2(n: nat): (p: nat)
    ensures p > 0
  {
    ShlGrows(1, n);
    Shl(1, n)
  }

  function Bit(b: bool): nat { if b then 1 else 0 }

  function Val(b: Bv): nat {
    if b == [] then 0 else Bit(b[0]) + 2 * Val(b[1..])
  }

  function Zeros(n: nat): Bv { seq(n, _ => false) }

  function Rev(b: Bv): Bv { seq(|b|, i requires 0 <= i < |b| => b[|b| - 1 - i]) }

  function Not(b: Bv): Bv { seq(|b|, i requires 0 <= i < |b| => !b[i]) }

  /** Logical right shift. */
  function ShiftRight(b: Bv, k: nat): Bv
    requires k <= |b|
  {
    b[k..] + Zeros(k)
  }

  /** The left shift of the ALU: reverse, shift right, reverse back. */
  function ShiftLeft(b: Bv, k: nat): Bv
    requires k <= |b|
  {
    Rev(ShiftRight(Rev(b), k))
  }

  lemma {:induction false} ShlAdd(d: nat, e: nat, k: nat)
    ensures Shl(d + e, k) == Shl(d, k) + Shl(e, k)
  {
    if k > 0 {
      ShlAdd(d, e, k - 1);
    }
  }

  lemma {:induction false} ShlShl(d: nat, j: nat, k: nat)
    ensures Shl(Shl(d, j), k) == Shl(d, j + k)
  {
    if k > 0 {
      ShlShl(d, j, k - 1);
    }
  }

  lemma {:induction false} ShlMono(d: nat, e: nat, k: nat)
    ensures d < e ==> Shl(d, k) < Shl(e, k)
    ensures d == e ==> Shl(d, k) == Shl(e, k)
  {
    if k > 0 {
      ShlMono(d, e, k - 1);
    }
  }

  lemma {:induction false} ShlGrows(d: nat, k: nat)
    ensures d <= Shl(d, k) && (d == 0 <==> Shl(d, k) == 0)
  {
    if k > 0 {
      ShlGrows(d, k - 1);
    }
  }

  /** Splitting a vector splits its value. */
  lemma {:induction false} ValAppend(a: Bv, b: Bv)
    ensures Val(a + b) == Val(a) + Shl(Val(b), |a|)
  {
    if a == [] {
      assert a + b == b;
    } else {
      assert (a + b)[1..] == a[1..] + b;
      ValAppend(a[1..], b);
    }
  }

  lemma {:induction false} ValBound(b: Bv)
    ensures Val(b) < Pow2(|b|)
  {
    if b != [] {
      ValBound(b[1..]);
    }
  }

  lemma {:induction false} ValZeros(n: nat)
    ensures Val(Zeros(n)) == 0
  {
    if n > 0 {
      assert Zeros(n)[1..] == Zeros(n - 1);
      ValZeros(n - 1);
    }
  }

  lemma {:induction false} ValNot(b: Bv)
    ensures Val(Not(b)) + Val(b) == Pow2(|b|) - 1
  {
    if b != [] {
      assert Not(b)[1..] == Not(b[1..]);
      ValNot(b[1..]);
    }
  }

  lemma ValAllZero(b: Bv)
    requires forall i :: 0 <= i < |b| ==> !b[i]
    ensures Val(b) == 0
  {
    assert b == Zeros(|b|);
    ValZeros(|b|);
  }

  /** The position of the highest set bit bounds the value on both sides. */
  lemma ValTopBit(b: Bv, h: nat)
    requires h < |b| && b[h] && forall i :: h < i < |b| ==> !b[i]
    ensures Pow2(h) <= Val(b) < Pow2(h + 1)
  {
    ValAppend(b[..h], b[h..]);
    assert b == b[..h] + b[h..];
    ValBound(b[..h]);
    ValAllZero(b[h..][1..]);
    assert Val(b[h..]) == 1;
  }

  /** The top bit is the sign bit. */
  lemma ValSign(b: Bv)
    requires b != []
    ensures b[|b| - 1] <==> 2 * Val(b) >= Pow2(|b|)
  {
    var n := |b| - 1;
    assert b == b[..n] + [b[n]];
    ValAppend(b[..n], [b[n]]);
    ValBound(b[..n]);
    ShlGrows(0, n);
  }

  lemma ShiftLeftDrops(b: Bv, k: nat)
    requires k <= |b|
    ensures ShiftLeft(b, k) == Zeros(k) + b[..|b| - k]
    ensures Val(ShiftLeft(b, k)) == Shl(Val(b[..|b| - k]), k)
  {
    var r := ShiftRight(Rev(b), k);
    assert |r| == |b|;
    forall i | 0 <= i < |b| ensures ShiftLeft(b, k)[i] == (Zeros(k) + b[..|b| - k])[i] {
      assert ShiftLeft(b, k)[i] == r[|b| - 1 - i];
    }
    ValZeros(k);
    ValAppend(Zeros(k), b[..|b| - k]);
  }

  /** A value that fits into the low bits is all in the low bits. */
  lemma LowPart(b: Bv, n: nat)
    requires n <= |b| && Val(b) < Pow2(n)
    ensures Val(b[..n]) == Val(b)
  {
    assert b == b[..n] + b[n..];
    ValAppend(b[..n], b[n..]);
    ShlMono(Val(b[n..]), 1, n);
    ShlMono(1, Val(b[n..]), n);
    ShlGrows(0, n);
  }

  lemma ShiftLeftExact(b: Bv, k: nat)
    requires k <= |b| && Val(b) < Pow2(|b| - k)
    ensures Val(ShiftLeft(b, k)) == Shl(Val(b), k)
  {
    ShiftLeftDrops(b, k);
    LowPart(b, |b| - k);
  }

  /** The low bits of the two's complement of a small d are again its two's
      complement. */
  lemma LowPartNegative(b: Bv, d: nat, n: nat)
    requires n <= |b| && Val(b) + d == Pow2(|b|) && 0 < d <= Pow2(n)
    ensures Val(b[..n]) + d == Pow2(n)
  {
    ValNot(b);
    LowPart(Not(b), n);
    assert Not(b)[..n] == Not(b[..n]);
    ValNot(b[..n]);
  }

  /** Shifting the two's complement of d gives that of the shifted d. */
  lemma ShiftLeftNegative(b: Bv, d: nat, k: nat)
    requires k <= |b| && Val(b) + d == Pow2(|b|) && 0 < d <= Pow2(|b| - k)
    ensures Val(ShiftLeft(b, k)) + Shl(d, k) == Pow2(|b|)
  {
    hide Val, ShiftLeft, Shl;
    var low := Val(b[..|b| - k]);
    assert Val(ShiftLeft(b, k)) == Shl(low, k) by { ShiftLeftDrops(b, k); }
    assert low + d == Pow2(|b| - k) by { LowPartNegative(b, d, |b| - k); }
    ShlAdd(low, d, k);
    ShlShl(1, |b| - k, k);
  }
}

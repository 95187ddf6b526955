// The ALU's bit counting and its operand preparation for the serial divider.

module AluBits {
  import opened Bits

  // ------------------------------------------------------------------- alu_ff

  /** Levels of the selection tree: the smallest k with 2^k >= n. */
  function CLog2(n: nat): nat {
    if n <= 1 then 0 else 1 + CLog2((n + 1) / 2)
  }

  lemma {:induction false} CLog2Covers(n: nat)
    ensures n <= Pow2(CLog2(n))
    ensures n >= 2 ==> CLog2(n) >= 1
  {
    if n > 1 {
      CLog2Covers((n + 1) / 2);
    }
  }

  datatype Node = Node(sel: bool, index: nat)

  /** Node l of one level of the selection tree; the last level reads the
      input, of any length, two bits at a time. */
  function FfNode(input: Bv, level: nat, l: nat): Node
    requires |input| >= 2 && level < CLog2(|input|)
    decreases CLog2(|input|) - level
  {
    if level < CLog2(|input|) - 1 then
      var left, right := FfNode(input, level + 1, 2 * l), FfNode(input, level + 1, 2 * l + 1);
      Node(left.sel || right.sel, if left.sel then left.index else right.index)
    else if 2 * l < |input| - 1 then
      Node(input[2 * l] || input[2 * l + 1], if input[2 * l] then 2 * l else 2 * l + 1)
    else if 2 * l == |input| - 1 then
      Node(input[2 * l], 2 * l)
    else
      Node(false, 0)
  }

  /** What a node must say about the input bits lo..hi. */
  predicate FirstOneIn(input: Bv, lo: nat, hi: nat, n: Node) {
    if n.sel then
      && lo <= n.index < hi && n.index < |input| && input[n.index]
      && forall i :: lo <= i < n.index ==> !input[i]
    else forall i :: lo <= i < hi && i < |input| ==> !input[i]
  }

  lemma {:induction false} FfNodeCorrect(input: Bv, level: nat, l: nat)
    requires |input| >= 2 && level < CLog2(|input|)
    ensures var k := CLog2(|input|) - level;
            FirstOneIn(input, Shl(l, k), Shl(l + 1, k), FfNode(input, level, l))
    decreases CLog2(|input|) - level
  {
    var k := CLog2(|input|) - level;
    ShlShl(l, 1, k - 1);
    ShlShl(l + 1, 1, k - 1);
    if level < CLog2(|input|) - 1 {
      ShlMono(2 * l, 2 * l + 1, k - 1);
      ShlMono(2 * l + 1, 2 * l + 2, k - 1);
      FfNodeCorrect(input, level + 1, 2 * l);
      FfNodeCorrect(input, level + 1, 2 * l + 1);
    }
  }

  /** What the outputs of alu_ff mean: the lowest set bit, or none. */
  predicate IsFirstOne(input: Bv, ff: Node) {
    && (ff.sel <==> exists i :: 0 <= i < |input| && input[i])
    && (ff.sel ==> ff.index < |input| && input[ff.index] && forall i :: 0 <= i < ff.index ==> !input[i])
  }

  /** The outputs of alu_ff, for every input length: first_one_o fits its width,
      and sel is the negation of no_ones_o. */
  function FirstOne(input: Bv): (ff: Node)
    requires |input| >= 2
    ensures IsFirstOne(input, ff)
    ensures ff.index < |input| <= Pow2(CLog2(|input|))
  {
    CLog2Covers(|input|);
    FfNodeCorrect(input, 0, 0);
    ShlGrows(0, CLog2(|input|));
    FfIndexBound(input, 0, 0);
    FfNode(input, 0, 0)
  }

  lemma {:induction false} FfIndexBound(input: Bv, level: nat, l: nat)
    requires |input| >= 2 && level < CLog2(|input|)
    ensures FfNode(input, level, l).index < |input| <= Pow2(CLog2(|input|))
    decreases CLog2(|input|) - level
  {
    CLog2Covers(|input|);
    if level < CLog2(|input|) - 1 {
      FfIndexBound(input, level + 1, 2 * l);
      FfIndexBound(input, level + 1, 2 * l + 1);
    }
  }

  // --------------------------------------------------------------- alu_popcnt

  function Ones(b: Bv): nat { if b == [] then 0 else Bit(b[0]) + Ones(b[1..]) }

  /** The adder of one level over 2^level bits: level + 1 bits wide, fed by two
      adders of the level below. */
  function CntNode(b: Bv, level: nat): nat
    requires |b| == Pow2(level)
    decreases level
  {
    if level == 0 then Bit(b[0])
    else
      var half := Pow2(level - 1);
      (CntNode(b[..half], level - 1) + CntNode(b[half..], level - 1)) % Pow2(level + 1)
  }

  lemma {:induction false} OnesAppend(a: Bv, b: Bv)
    ensures Ones(a + b) == Ones(a) + Ones(b)
  {
    if a == [] {
      assert a + b == b;
    } else {
      assert (a + b)[1..] == a[1..] + b;
      OnesAppend(a[1..], b);
    }
  }

  /** No adder overflows its width. */
  lemma {:induction false} CntNodeCorrect(b: Bv, level: nat)
    requires |b| == Pow2(level)
    ensures CntNode(b, level) == Ones(b) <= Pow2(level)
    decreases level
  {
    if level > 0 {
      var half := Pow2(level - 1);
      CntNodeCorrect(b[..half], level - 1);
      CntNodeCorrect(b[half..], level - 1);
      assert b == b[..half] + b[half..];
      OnesAppend(b[..half], b[half..]);
      NoOverflow(CntNode(b[..half], level - 1), CntNode(b[half..], level - 1), level);
    }
  }

  lemma NoOverflow(x: nat, y: nat, level: nat)
    requires level > 0 && x <= Pow2(level - 1) && y <= Pow2(level - 1)
    ensures (x + y) % Pow2(level + 1) == x + y <= Pow2(level)
  {
    assert Pow2(level) == 2 * Pow2(level - 1) && Pow2(level + 1) == 2 * Pow2(level);
    SmallMod(x + y, Pow2(level + 1));
  }

  lemma SmallMod(x: nat, m: nat)
    requires x < m
    ensures x % m == x
  {
  }

  lemma {:induction false} OnesZero(b: Bv)
    ensures Ones(b) == 0 <==> Val(b) == 0
  {
    if b != [] {
      OnesZero(b[1..]);
    }
  }

  /** The population count of a 32-bit word, and its use as a zero test. */
  function PopCount(b: Bv): (n: nat)
    requires |b| == 32
    ensures n == Ones(b) && (n == 0 <==> Val(b) == 0)
  {
    assert Pow2(5) == 32;
    CntNodeCorrect(b, 5);
    OnesZero(b);
    CntNode(b, 5)
  }

  // ------------------------------------------------------ division preparation

  datatype DivOp = Divu | Div | Remu | Rem {
    /** Operator bit 0. */
    predicate IsSigned() { Div? || Rem? }
    /** Operator bit 1. */
    predicate IsRem() { Remu? || Rem? }
  }

  /** The divisor, ALU operand a, as it is handed to the divider. */
  datatype Prep = Prep(shift: nat, shifted: Bv, isZero: bool, bSign: bool)

  function Prepare(op: DivOp, a: Bv): Prep
    requires |a| == 32
  {
    var bSign := a[31] && op.IsSigned();
    var shift := DivShift(FfInput(op, a), bSign);
    Prep(shift, ShiftLeft(a, shift % 32), PopCount(a) == 0, bSign)
  }

  function FfInput(op: DivOp, a: Bv): Bv
    requires |a| == 32
  {
    if op.IsSigned() && a[31] then Rev(Not(a)) else Rev(a)
  }

  /** div_shift, with the wrap-around of its 6-bit fields. */
  function DivShift(ffInput: Bv, bSign: bool): nat
    requires |ffInput| == 32
  {
    var ff := FirstOne(ffInput);
    var clb := (ff.index + 64 - 1) % 64;
    ((if !ff.sel then 31 else clb) + (if bSign then 0 else 1)) % 64
  }

  /** The magnitude of the divisor. */
  function DivisorMag(op: DivOp, a: Bv): nat
    requires |a| == 32
  {
    ValBound(a);
    if a[31] && op.IsSigned() then Pow2(|a|) - Val(a) else Val(a)
  }

  /** The shifted magnitude x fills the word up to its top bit, or just below if
      it is negative. */
  predicate Normalised(bSign: bool, shifted: nat, m: nat, x: nat) {
    if bSign then shifted + x == m && m < 4 * x <= 2 * m
    else shifted == x && m <= 2 * x < 2 * m
  }

  /** A nonzero divisor of magnitude d leaves as d * 2^shift, with its sign. */
  lemma PrepareNormalises(op: DivOp, a: Bv)
    requires |a| == 32 && Val(a) != 0
    ensures var (p, d) := (Prepare(op, a), DivisorMag(op, a));
            && !p.isZero && p.shift <= 31 && |p.shifted| == |a| && d > 0
            && Normalised(p.bSign, Val(p.shifted), Pow2(|a|), Shl(d, p.shift))
  {
    ValBound(a);
    var p, d := Prepare(op, a), DivisorMag(op, a);
    if p.bSign {
      NegativeShift(a);
      NegativeDivisor(a, d, FirstOne(Rev(Not(a))), p.shift);
    } else {
      PositiveShift(a);
      PositiveDivisor(a, FirstOne(Rev(a)));
    }
    SmallMod(p.shift, 32);
    assert Normalised(p.bSign, Val(ShiftLeft(a, p.shift)), Pow2(|a|), Shl(d, p.shift));
  }

  /** A zero divisor stays zero and makes the divider count one step more. */
  lemma PrepareZero(op: DivOp, a: Bv)
    requires |a| == 32 && Val(a) == 0
    ensures var p := Prepare(op, a);
            p.shift == 32 && |p.shifted| == |a| && Val(p.shifted) == 0 && p.isZero && !p.bSign
  {
    assert !a[31] by {
      ValSign(a);
      assert Pow2(|a|) == 2 * Pow2(|a| - 1);
    }
    assert DivShift(Rev(a), false) == 32 by { ZeroShift(a); }
    ZeroShifted(a, Prepare(op, a).shift % 32);
  }

  lemma ZeroShifted(a: Bv, k: nat)
    requires Val(a) == 0 && k <= |a|
    ensures |ShiftLeft(a, k)| == |a| && Val(ShiftLeft(a, k)) == 0
  {
    ShiftLeftExact(a, k);
    ShlGrows(0, k);
  }

  lemma ZeroShift(a: Bv)
    requires |a| == 32 && Val(a) == 0
    ensures DivShift(Rev(a), false) == 32
  {
    TopBitOfReversed(a, FirstOne(Rev(a)));
  }

  lemma NegativeShift(a: Bv)
    requires |a| == 32 && a[31]
    ensures var (ff, k) := (FirstOne(Rev(Not(a))), DivShift(Rev(Not(a)), true));
            k <= 31 && k == if ff.sel then ff.index - 1 else |a| - 1
  {
    assert Rev(Not(a))[0] == !a[31];
  }

  lemma PositiveShift(a: Bv)
    requires |a| == 32 && Val(a) != 0
    ensures FirstOne(Rev(a)).sel && DivShift(Rev(a), false) == FirstOne(Rev(a)).index <= 31
  {
    TopBitOfReversed(a, FirstOne(Rev(a)));
    ShiftField(FirstOne(Rev(a)).index);
  }

  /** The 6-bit decrement wraps for index 0 and the increment undoes it. */
  lemma ShiftField(i: nat)
    requires i < 32
    ensures ((i + 64 - 1) % 64 + 1) % 64 == i
  {
  }

  /** The lowest set bit of the reversed word is the highest of the word. */
  lemma TopBitOfReversed(b: Bv, ff: Node)
    requires IsFirstOne(Rev(b), ff)
    ensures ff.sel ==> ff.index < |b| && Pow2(|b| - 1 - ff.index) <= Val(b) < Pow2(|b| - ff.index)
    ensures !ff.sel ==> Val(b) == 0
  {
    forall i | 0 <= i < |b| && (ff.sel ==> |b| - 1 - ff.index < i) ensures !b[i] {
      assert !Rev(b)[|b| - 1 - i];
    }
    if ff.sel {
      ValTopBit(b, |b| - 1 - ff.index);
    } else {
      ValAllZero(b);
    }
  }

  lemma PositiveDivisor(a: Bv, ff: Node)
    requires IsFirstOne(Rev(a), ff) && Val(a) != 0
    ensures ff.sel && ff.index < |a|
    ensures Normalised(false, Val(ShiftLeft(a, ff.index)), Pow2(|a|), Shl(Val(a), ff.index))
  {
    hide Val, ShiftLeft, Shl, Pow2;
    TopBitOfReversed(a, ff);
    ShiftLeftExact(a, ff.index);
    NormalisedPositive(Val(a), ff.index, |a|);
  }

  lemma NormalisedPositive(v: nat, k: nat, n: nat)
    requires k < n && Pow2(n - 1 - k) <= v < Pow2(n - k)
    ensures Normalised(false, Shl(v, k), Pow2(n), Shl(v, k))
  {
    ShlScale(Pow2(n - 1 - k), v, Pow2(n - k), k);
    ShlShl(1, n - 1 - k, k);
    ShlShl(1, n - k, k);
  }

  lemma ShlScale(lo: nat, d: nat, hi: nat, k: nat)
    requires lo <= d <= hi
    ensures Shl(lo, k) <= Shl(d, k) <= Shl(hi, k)
    ensures lo < d ==> Shl(lo, k) < Shl(d, k)
    ensures d < hi ==> Shl(d, k) < Shl(hi, k)
  {
    ShlMono(lo, d, k);
    ShlMono(d, hi, k);
  }

  lemma SignIsNotFirst(a: Bv, ff: Node)
    requires a != [] && a[|a| - 1] && IsFirstOne(Rev(Not(a)), ff)
    ensures ff.sel ==> 1 <= ff.index < |a|
    ensures |Not(a)| == |a|
  {
    assert !Rev(Not(a))[0];
  }

  /** d - 1 is the value of the complement, so a magnitude that is a power of
      two gets the shift of the next smaller one. */
  lemma ComplementTop(a: Bv, d: nat, ff: Node)
    requires a != [] && a[|a| - 1] && IsFirstOne(Rev(Not(a)), ff)
    requires d > 0 && Val(a) + d == Pow2(|a|)
    ensures ff.sel ==> 1 <= ff.index < |a| && Pow2(|a| - 1 - ff.index) < d <= Pow2(|a| - ff.index)
    ensures !ff.sel ==> d == 1
  {
    hide Val, Pow2, IsFirstOne, Rev, Not;
    ValNot(a);
    TopBitOfReversed(Not(a), ff);
    SignIsNotFirst(a, ff);
  }

  lemma NegativeDivisor(a: Bv, d: nat, ff: Node, k: nat)
    requires a != [] && a[|a| - 1] && IsFirstOne(Rev(Not(a)), ff)
    requires k == if ff.sel then ff.index - 1 else |a| - 1
    requires d > 0 && Val(a) + d == Pow2(|a|)
    ensures k <= |a| && Normalised(true, Val(ShiftLeft(a, k)), Pow2(|a|), Shl(d, k))
  {
    ComplementTop(a, d, ff);
    NormalisedNegative(d, k, |a|);
    ShiftLeftNegative(a, d, k);
  }

  lemma NormalisedNegative(d: nat, k: nat, n: nat)
    requires (k + 2 <= n && Pow2(n - 2 - k) < d <= Pow2(n - 1 - k)) || (k + 1 == n && d == 1)
    ensures d <= Pow2(n - k) && Pow2(n) < 4 * Shl(d, k) <= 2 * Pow2(n)
  {
    assert Pow2(n) == 2 * Pow2(n - 1) && Pow2(n - k) == 2 * Pow2(n - 1 - k);
    if k + 2 <= n {
      ShlScale(Pow2(n - 2 - k), d, Pow2(n - 1 - k), k);
      ShlShl(1, n - 2 - k, k);
      ShlShl(1, n - 1 - k, k);
      assert Pow2(n - 1) == 2 * Pow2(n - 2);
    }
  }
}

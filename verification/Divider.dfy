// The serial divider and the DIV, DIVU, REM and REMU instructions built on it.
// Registers A, B and the counter hold unsigned words of `width` bits; the result
// register is a bit vector because it is read out in reverse.

module Divider {
  import opened Bits
  import opened AluBits

  datatype Fsm = Idle | Divide | Finish

  /** opRem is OpCode_SI[1], opSigned is OpCode_SI[0]. */
  datatype Input = Input(
    opA: nat, opB: nat, shift: nat, bIsZero: bool, bSign: bool, opRem: bool, opSigned: bool,
    inVld: bool, outRdy: bool)

  datatype State = State(
    fsm: Fsm, a: nat, b: nat, res: Bv, cnt: nat, remSel: bool, compInv: bool, resInv: bool)

  // ------------------------------------------------------------------ datapath

  /** Two's complement negation and subtraction on `width` bits. */
  function Sub(width: nat, x: nat, y: nat): nat
    requires x < Pow2(width) && y < Pow2(width)
  {
    if y <= x then x - y else x + Pow2(width) - y
  }

  function Neg(width: nat, x: nat): nat
    requires x < Pow2(width)
  {
    Sub(width, 0, x)
  }

  predicate Msb(width: nat, x: nat) { 2 * x >= Pow2(width) }

  predicate Ranged(width: nat, s: State, x: Input) {
    && s.a < Pow2(width) && s.b < Pow2(width) && |s.res| == width
    && x.opA < Pow2(width) && x.opB < Pow2(width)
  }

  predicate LoadEn(s: State, x: Input) { s.fsm.Idle? && x.inVld }

  /** ABComp: B can be subtracted from A.  The order is inverted for negative
      operands, whose zero must be excluded. */
  predicate AbComp(s: State, x: Input) {
    (s.a == s.b || (s.a > s.b) != s.compInv) && (s.a != 0 || x.bIsZero)
  }

  /** The operands have opposite signs. */
  predicate SignsDiffer(width: nat, x: Input) { x.opSigned && Msb(width, x.opA) != x.bSign }

  /** B one place to the right, keeping its sign. */
  function HalveB(width: nat, s: State): nat {
    s.b / 2 + if s.compInv then Pow2(width) / 2 else 0
  }

  /** The one adder: it loads A, negated if the signs differ, and subtracts B. */
  function AddOut(width: nat, s: State, x: Input): (r: nat)
    requires Ranged(width, s, x)
    ensures r < Pow2(width)
    ensures LoadEn(s, x) ==> r == if SignsDiffer(width, x) then Neg(width, x.opA) else x.opA
    ensures !LoadEn(s, x) ==> r == Sub(width, s.a, s.b)
  {
    var pmSel := LoadEn(s, x) && !SignsDiffer(width, x);
    var addTmp, addMux := if LoadEn(s, x) then 0 else s.a, if LoadEn(s, x) then x.opA else s.b;
    if pmSel then addTmp + addMux else Sub(width, addTmp, addMux)
  }

  function Step(width: nat, s: State, x: Input): State
    requires width > 0 && Ranged(width, s, x)
  {
    match s.fsm
    case Idle =>
      if !x.inVld then s.(cnt := if s.cnt == 0 then 0 else s.cnt - 1)
      else State(Divide, if SignsDiffer(width, x) then Neg(width, x.opA) else x.opA, x.opB, Zeros(width),
                 x.shift, x.opRem, x.bSign, (!x.bIsZero || x.opRem) && SignsDiffer(width, x))
    case Divide =>
      s.(fsm := if s.cnt == 0 then Finish else Divide,
         a := if AbComp(s, x) then Sub(width, s.a, s.b) else s.a,
         b := HalveB(width, s),
         res := s.res[1..] + [AbComp(s, x)],
         cnt := if s.cnt == 0 then 0 else s.cnt - 1)
    case Finish =>
      s.(fsm := if x.outRdy then Idle else Finish, cnt := if s.cnt == 0 then 0 else s.cnt - 1)
  }

  function OutVld(s: State, x: Input): bool { (s.fsm.Idle? && !x.inVld) || s.fsm.Finish? }

  /** The result register is bit-reversed on its way out. */
  function ResDo(width: nat, s: State): nat
    requires s.a < Pow2(width) && |s.res| == width
  {
    ValBound(Rev(s.res));
    var out := if s.remSel then s.a else Val(Rev(s.res));
    if s.resInv then Neg(width, out) else out
  }

  lemma StepRanged(width: nat, s: State, x: Input)
    requires width > 0 && Ranged(width, s, x)
    ensures var t := Step(width, s, x); t.a < Pow2(width) && t.b < Pow2(width) && |t.res| == width
  {
    assert Pow2(width) == 2 * Pow2(width - 1);
  }

  // --------------------------------------------------------------- one division

  /** The magnitude of a register whose sign is compInv's. */
  function Mag(width: nat, inv: bool, v: nat): nat
    requires v < Pow2(width)
  {
    if inv then Neg(width, v) else v
  }

  /** The quotient bits collected so far, as a number. */
  function Quotient(s: State): nat { Val(Rev(s.res)) }

  /** In the middle of dividing n by d: B holds d * 2^cnt, and what is left of n
      is in A. */
  predicate Dividing(width: nat, s: State, n: nat, d: nat) {
    && s.a < Pow2(width) && s.b < Pow2(width) && |s.res| == width
    && var (a, b) := (Mag(width, s.compInv, s.a), Mag(width, s.compInv, s.b));
       && d > 0 && b == Shl(d, s.cnt)
       && a < 2 * b && n == Quotient(s) * (2 * b) + a && n < Pow2(width)
  }

  /** Shifting a bit into the result register doubles the quotient. */
  lemma ShiftInBit(res: Bv, bit: bool)
    requires res != [] && 2 * Val(Rev(res)) + Bit(bit) < Pow2(|res|)
    ensures Val(Rev(res[1..] + [bit])) == 2 * Val(Rev(res)) + Bit(bit)
  {
    var w := |res| - 1;
    assert Rev(res) == Rev(res[1..]) + [res[0]];
    ValAppend(Rev(res[1..]), [res[0]]);
    assert Val([res[0]]) == Bit(res[0]);
    assert Pow2(w + 1) == 2 * Pow2(w);
    assert Val(Rev(res)) == Val(Rev(res[1..])) + Shl(Bit(res[0]), w) < Pow2(w);
    ShlGrows(0, w);
    assert Rev(res[1..] + [bit]) == [bit] + Rev(res[1..]);
    ValAppend([bit], Rev(res[1..]));
  }

  /** One DIVIDE cycle with a nonzero divisor: either the counter was zero and
      quotient and remainder are there, or division goes on with half of B. */
  lemma DivideStep(width: nat, s: State, x: Input, n: nat, d: nat)
    requires width > 0 && Ranged(width, s, x) && s.fsm.Divide? && !x.bIsZero
    requires Dividing(width, s, n, d)
    ensures var t := Step(width, s, x);
            && (s.cnt > 0 ==> t.fsm.Divide? && Dividing(width, t, n, d))
            && (s.cnt == 0 ==> t.fsm.Finish? && Divided(width, t, n, d))
  {
    hide Val, Rev, Neg;
    var inv, ge := s.compInv, AbComp(s, x);
    var a, b := Mag(width, inv, s.a), Mag(width, inv, s.b);
    CompareAndSubtract(width, s, x);
    QuotientGrows(n, Quotient(s), a, b, ge);
    ShiftInBit(s.res, ge);
    if s.cnt > 0 {
      HalveMagnitude(width, s, Shl(d, s.cnt - 1));
    }
  }

  /** The comparator orders the magnitudes, whatever their common sign. */
  lemma CompareAndSubtract(width: nat, s: State, x: Input)
    requires Ranged(width, s, x) && !x.bIsZero && Mag(width, s.compInv, s.b) > 0
    ensures var (a, b) := (Mag(width, s.compInv, s.a), Mag(width, s.compInv, s.b));
            && (AbComp(s, x) <==> a >= b)
            && (a >= b ==> Mag(width, s.compInv, Sub(width, s.a, s.b)) == a - b)
  {
  }

  lemma HalveMagnitude(width: nat, s: State, half: nat)
    requires width > 0 && s.b < Pow2(width) && half > 0 && Mag(width, s.compInv, s.b) == 2 * half
    ensures HalveB(width, s) < Pow2(width) && Mag(width, s.compInv, HalveB(width, s)) == half
  {
    assert Pow2(width) == 2 * Pow2(width - 1);
  }

  /** The finished registers: quotient and magnitude of the remainder. */
  predicate Divided(width: nat, s: State, n: nat, d: nat) {
    && s.a < Pow2(width) && |s.res| == width
    && n == Quotient(s) * d + Mag(width, s.compInv, s.a)
    && Mag(width, s.compInv, s.a) < d
  }

  lemma QuotientGrows(n: nat, q: nat, a: nat, b: nat, ge: bool)
    requires n == q * (2 * b) + a && b > 0 && (ge ==> a >= b)
    ensures n == (2 * q + Bit(ge)) * b + if ge then a - b else a
    ensures 2 * q + Bit(ge) <= n
  {
    var q' := 2 * q + Bit(ge);
    assert q' * b == q * (2 * b) + Bit(ge) * b;
    AtLeast(q', b);
  }

  lemma AtLeast(q: nat, b: nat)
    requires b > 0
    ensures q <= q * b
  {
  }

  // ------------------------------------------------------------- whole divisions

  /** The state after a sequence of clock edges. */
  function Run(width: nat, s: State, xs: seq<Input>): State
    requires width > 0 && s.a < Pow2(width) && s.b < Pow2(width) && |s.res| == width
    requires forall x :: x in xs ==> x.opA < Pow2(width) && x.opB < Pow2(width)
    decreases xs
  {
    if xs == [] then s
    else
      StepRanged(width, s, xs[0]);
      Run(width, Step(width, s, xs[0]), xs[1..])
  }

  /** No cycle of the run shows a valid output. */
  predicate Silent(width: nat, s: State, xs: seq<Input>)
    requires width > 0 && s.a < Pow2(width) && s.b < Pow2(width) && |s.res| == width
    requires forall x :: x in xs ==> x.opA < Pow2(width) && x.opB < Pow2(width)
    decreases xs
  {
    xs == [] ||
    (StepRanged(width, s, xs[0]);
     !OutVld(s, xs[0]) && Silent(width, Step(width, s, xs[0]), xs[1..]))
  }

  /** The divider is done after exactly cnt + 1 DIVIDE cycles. */
  lemma {:induction false} DivideLoop(width: nat, s: State, xs: seq<Input>, n: nat, d: nat)
    requires width > 0 && s.fsm.Divide? && Dividing(width, s, n, d)
    requires |xs| == s.cnt + 1
    requires forall x :: x in xs ==> x.opA < Pow2(width) && x.opB < Pow2(width) && !x.bIsZero
    ensures var t := Run(width, s, xs);
            && t.fsm.Finish? && Divided(width, t, n, d)
            && t.remSel == s.remSel && t.compInv == s.compInv && t.resInv == s.resInv
    decreases s.cnt
  {
    var t := Step(width, s, xs[0]);
    StepRanged(width, s, xs[0]);
    assert xs[0] in xs;
    DivideStep(width, s, xs[0], n, d);
    if s.cnt > 0 {
      DivideLoop(width, t, xs[1..], n, d);
    } else {
      assert xs[1..] == [];
    }
  }

  /** Until the counter has run out the divider neither stops nor shows a result;
      then it shows one, whatever its inputs do. */
  lemma {:induction false} BusyWhileCounting(width: nat, s: State, xs: seq<Input>)
    requires width > 0 && s.fsm.Divide? && s.a < Pow2(width) && s.b < Pow2(width) && |s.res| == width
    requires |xs| <= s.cnt + 1
    requires forall x :: x in xs ==> x.opA < Pow2(width) && x.opB < Pow2(width)
    ensures Silent(width, s, xs)
    ensures |xs| <= s.cnt ==> forall y: Input :: !OutVld(Run(width, s, xs), y)
    ensures |xs| == s.cnt + 1 ==> forall y: Input :: OutVld(Run(width, s, xs), y)
    decreases xs
  {
    if xs != [] {
      var t := Step(width, s, xs[0]);
      StepRanged(width, s, xs[0]);
      if s.cnt > 0 {
        BusyWhileCounting(width, t, xs[1..]);
      } else {
        assert xs[1..] == [];
      }
    }
  }

  /** Dividing by zero: every bit of the quotient is set, the dividend stays. */
  predicate DividingByZero(width: nat, s: State, n: nat, steps: nat) {
    && s.a == n < Pow2(width) && s.b == 0 && |s.res| == width && !s.compInv
    && forall i :: 0 <= i < width && width - steps <= i ==> s.res[i]
  }

  lemma {:induction false} ZeroLoop(width: nat, s: State, xs: seq<Input>, n: nat, steps: nat)
    requires width > 0 && s.fsm.Divide? && DividingByZero(width, s, n, steps)
    requires |xs| == s.cnt + 1
    requires forall x :: x in xs ==> x.opA < Pow2(width) && x.opB < Pow2(width) && x.bIsZero
    ensures var t := Run(width, s, xs);
            && t.fsm.Finish? && DividingByZero(width, t, n, steps + s.cnt + 1)
            && t.remSel == s.remSel && t.resInv == s.resInv
    decreases s.cnt
  {
    var t := Step(width, s, xs[0]);
    StepRanged(width, s, xs[0]);
    assert xs[0] in xs;
    assert DividingByZero(width, t, n, steps + 1);
    if s.cnt > 0 {
      ZeroLoop(width, t, xs[1..], n, steps + 1);
    } else {
      assert xs[1..] == [];
    }
  }

  lemma AllOnes(b: Bv)
    requires forall i :: 0 <= i < |b| ==> b[i]
    ensures Val(Rev(b)) == Pow2(|b|) - 1
  {
    ValNot(Rev(b));
    ValAllZero(Not(Rev(b)));
  }

  // --------------------------------------- section 7.2 of the RISC-V unprivileged ISA

  function Signed(width: nat, v: nat): int { if Msb(width, v) then v - Pow2(width) else v }

  /** The word that represents i. */
  function ToWord(width: nat, i: int): nat
    requires 0 - Pow2(width) < i < Pow2(width)
  {
    if i < 0 then i + Pow2(width) else i
  }

  function Abs(i: int): nat { if i < 0 then -i else i }

  /** Division rounding towards zero. */
  function TruncQuo(n: int, d: int): int
    requires d != 0
  {
    if (n < 0) == (d < 0) then Abs(n) / Abs(d) else -(Abs(n) / Abs(d))
  }

  /** The sign of the remainder is that of the dividend. */
  function TruncRem(n: int, d: int): int
    requires d != 0
  {
    if n < 0 then -(Abs(n) % Abs(d)) else Abs(n) % Abs(d)
  }

  /** DIV, DIVU, REM and REMU on words, with division by zero and signed
      overflow as tabulated there. */
  function IsaResult(width: nat, op: DivOp, rs1: nat, rs2: nat): nat
    requires width > 0 && rs1 < Pow2(width) && rs2 < Pow2(width)
  {
    if rs2 == 0 then if op.IsRem() then rs1 else Pow2(width) - 1
    else
      var n, d := if op.IsSigned() then Signed(width, rs1) else rs1, if op.IsSigned() then Signed(width, rs2) else rs2;
      if op.IsSigned() && 2 * n == 0 - Pow2(width) && d == -1 then if op.IsRem() then 0 else rs1
      else
        QuoBounds(n, d);
        ToWord(width, if op.IsRem() then TruncRem(n, d) else TruncQuo(n, d))
  }

  lemma QuoBounds(n: int, d: int)
    requires d != 0
    ensures Abs(TruncQuo(n, d)) <= Abs(n) && Abs(TruncRem(n, d)) <= Abs(n)
  {
    var a, b := Abs(n), Abs(d);
    assert a == b * (a / b) + a % b;
    AtLeast(a / b, b);
  }

  /** The two functions are division as the specification describes it:
      dividend = divisor * quotient + remainder, with the remainder smaller than
      the divisor and never of the sign opposite to the dividend. */
  lemma TruncIsDivision(n: int, d: int)
    requires d != 0
    ensures n == d * TruncQuo(n, d) + TruncRem(n, d)
    ensures Abs(TruncRem(n, d)) < Abs(d)
    ensures (n >= 0 ==> TruncRem(n, d) >= 0) && (n <= 0 ==> TruncRem(n, d) <= 0)
  {
    var a, b := Abs(n), Abs(d);
    assert a == b * (a / b) + a % b;
    Signs(a / b, b);
  }

  lemma Signs(q: int, b: int)
    ensures (-b) * q == -(b * q) && (-b) * (-q) == b * q && b * (-q) == -(b * q)
  {
  }

  // -------------------------------------------------- any width, given a divisor

  function OperandMag(width: nat, signed: bool, v: nat): nat
    requires v < Pow2(width)
  {
    if signed && Msb(width, v) then Pow2(width) - v else v
  }

  /** What the divider is told about a divisor word. */
  predicate Prepared(width: nat, x: Input, divisor: nat) {
    && divisor < Pow2(width) && x.opB < Pow2(width)
    && x.bSign == (x.opSigned && Msb(width, divisor))
    && x.bIsZero == (divisor == 0)
    && (divisor == 0 ==> x.opB == 0 && x.shift + 1 >= width)
    && (divisor != 0 ==> Normalised(x.bSign, x.opB, Pow2(width), Shl(OperandMag(width, x.opSigned, divisor), x.shift)))
  }

  lemma ClearedQuotient(width: nat)
    ensures Val(Rev(Zeros(width))) == 0
  {
    assert Rev(Zeros(width)) == Zeros(width);
    ValZeros(width);
  }

  /** Loading gives the dividend the sign of the divisor and keeps its magnitude. */
  lemma LoadStarts(width: nat, s: State, x: Input, divisor: nat)
    requires width > 0 && Ranged(width, s, x) && LoadEn(s, x) && Prepared(width, x, divisor) && divisor != 0
    ensures Dividing(width, Step(width, s, x), OperandMag(width, x.opSigned, x.opA), OperandMag(width, x.opSigned, divisor))
  {
    var t, b := Step(width, s, x), Shl(OperandMag(width, x.opSigned, divisor), x.shift);
    ClearedQuotient(width);
    StepRanged(width, s, x);
    assert Mag(width, t.compInv, t.b) == b;
    assert Mag(width, t.compInv, t.a) == OperandMag(width, x.opSigned, x.opA) < 2 * b by {
      assert Pow2(width) == 2 * Pow2(width - 1);
    }
  }

  lemma LoadStartsByZero(width: nat, s: State, x: Input)
    requires width > 0 && Ranged(width, s, x) && LoadEn(s, x) && Prepared(width, x, 0)
    ensures Step(width, s, x).a < Pow2(width)
    ensures DividingByZero(width, Step(width, s, x), Step(width, s, x).a, 0)
  {
    StepRanged(width, s, x);
  }

  /** Reading out: after the last cycle quotient or remainder, with the output
      negation, is the specified word. */
  lemma ReadOut(width: nat, op: DivOp, rs1: nat, rs2: nat, s: State)
    requires width > 0 && rs1 < Pow2(width) && 0 < rs2 < Pow2(width)
    requires Divided(width, s, OperandMag(width, op.IsSigned(), rs1), OperandMag(width, op.IsSigned(), rs2))
    requires s.remSel == op.IsRem() && s.compInv == (op.IsSigned() && Msb(width, rs2))
    requires s.resInv == (op.IsSigned() && Msb(width, rs1) != Msb(width, rs2))
    ensures ResDo(width, s) == IsaResult(width, op, rs1, rs2)
  {
    var n, d := OperandMag(width, op.IsSigned(), rs1), OperandMag(width, op.IsSigned(), rs2);
    DivisionUnique(n, d, Quotient(s), Mag(width, s.compInv, s.a));
    ValBound(Rev(s.res));
    QuoBounds(n, d);
  }

  lemma DivisionUnique(n: nat, d: nat, q: nat, r: nat)
    requires n == q * d + r && r < d
    ensures q == n / d && r == n % d
  {
    var e := q - n / d;
    assert n == d * (n / d) + n % d;
    assert e * d == q * d - (n / d) * d;
    if e >= 1 {
      AtLeastOnce(e, d);
    } else if e <= -1 {
      AtLeastOnce(-e, d);
      Signs(e, d);
    }
  }

  lemma AtLeastOnce(e: int, d: nat)
    requires e >= 1
    ensures e * d >= d
  {
  }

  /** The output of a request becomes valid after exactly shift + 2 cycles and not
      earlier, whatever is on the inputs after the first. */
  lemma DividerBusy(width: nat, s: State, xs: seq<Input>)
    requires width > 0 && s.fsm.Idle? && s.a < Pow2(width) && s.b < Pow2(width) && |s.res| == width
    requires xs != [] && |xs| <= xs[0].shift + 2 && xs[0].inVld
    requires forall x :: x in xs ==> x.opA < Pow2(width) && x.opB < Pow2(width)
    ensures Silent(width, s, xs)
    ensures |xs| <= xs[0].shift + 1 ==> forall y: Input :: !OutVld(Run(width, s, xs), y)
    ensures |xs| == xs[0].shift + 2 ==> forall y: Input :: OutVld(Run(width, s, xs), y)
  {
    StepRanged(width, s, xs[0]);
    BusyWhileCounting(width, Step(width, s, xs[0]), xs[1..]);
  }

  /** One division of any width, from any idle state: no output is valid in the load
      cycle and the shift + 1 DIVIDE cycles; then the specified result is. */
  lemma DividerCorrect(width: nat, op: DivOp, s: State, xs: seq<Input>, divisor: nat)
    requires width > 0 && s.fsm.Idle? && s.a < Pow2(width) && s.b < Pow2(width) && |s.res| == width
    requires xs != [] && |xs| == xs[0].shift + 2 && xs[0].inVld && xs[0].opA < Pow2(width)
    requires xs[0].opRem == op.IsRem() && xs[0].opSigned == op.IsSigned()
    requires Prepared(width, xs[0], divisor)
    requires forall x :: x in xs ==> x == xs[0].(outRdy := x.outRdy)
    ensures var t := Run(width, s, xs);
            && t.fsm.Finish? && t.a < Pow2(width) && |t.res| == width
            && ResDo(width, t) == IsaResult(width, op, xs[0].opA, divisor)
    ensures Silent(width, s, xs) && forall y: Input :: OutVld(Run(width, s, xs), y)
  {
    hide AbComp, HalveB, Silent, OutVld, Signed, TruncQuo, TruncRem;
    DividerBusy(width, s, xs);
    var x := xs[0];
    var t := Step(width, s, x);
    StepRanged(width, s, x);
    assert forall y :: y in xs[1..] ==> y in xs;
    if divisor != 0 {
      LoadStarts(width, s, x, divisor);
      DivideLoop(width, t, xs[1..], OperandMag(width, x.opSigned, x.opA), OperandMag(width, x.opSigned, divisor));
      ReadOut(width, op, x.opA, divisor, Run(width, t, xs[1..]));
    } else {
      LoadStartsByZero(width, s, x);
      ZeroLoop(width, t, xs[1..], t.a, 0);
      AllOnes(Run(width, t, xs[1..]).res);
    }
  }

  /** In FINISH the result stays on the output until it is accepted. */
  lemma ResultHeld(width: nat, s: State, x: Input)
    requires width > 0 && Ranged(width, s, x) && s.fsm.Finish?
    ensures var t := Step(width, s, x);
            && OutVld(s, x) && t.a == s.a && t.res == s.res && ResDo(width, t) == ResDo(width, s)
            && t.fsm == if x.outRdy then Idle else Finish
  {
  }

  // ------------------------------------------------ the instructions end to end

  /** The divider's inputs while a division instruction is in EX.  Source 2, the
      divisor, is ALU operand a; source 1 is operand b. */
  function AluInput(op: DivOp, rs1: Bv, rs2: Bv, outRdy: bool): Input
    requires |rs1| == 32 && |rs2| == 32
  {
    var p := Prepare(op, rs2);
    Input(Val(rs1), Val(p.shifted), p.shift, p.isZero, p.bSign, op.IsRem(), op.IsSigned(), true, outRdy)
  }

  /** Every division instruction on every pair of operands, from any idle state:
      the first valid output comes after at most 33 DIVIDE cycles and is exactly
      the specified one. */
  lemma DivisionInstruction(op: DivOp, rs1: Bv, rs2: Bv, s: State, xs: seq<Input>)
    requires |rs1| == 32 && |rs2| == 32
    requires s.fsm.Idle? && s.a < Pow2(32) && s.b < Pow2(32) && |s.res| == 32
    requires |xs| == Prepare(op, rs2).shift + 2
    requires forall x :: x in xs ==> x == AluInput(op, rs1, rs2, x.outRdy)
    ensures |xs| <= 34 && Val(rs1) < Pow2(32) && Val(rs2) < Pow2(32)
    ensures forall x :: x in xs ==> x.opA < Pow2(32) && x.opB < Pow2(32)
    ensures var t := Run(32, s, xs);
            && t.fsm.Finish? && t.a < Pow2(32) && |t.res| == 32
            && ResDo(32, t) == IsaResult(32, op, Val(rs1), Val(rs2))
    ensures Silent(32, s, xs) && forall y: Input :: OutVld(Run(32, s, xs), y)
  {
    hide IsaResult, Prepared, Step, Run, Silent, OutVld, Val;
    assert xs[0] in xs;
    PreparedByAlu(op, rs1, rs2, xs[0].outRdy);
    ValBound(rs1);
    DividerCorrect(32, op, s, xs, Val(rs2));
  }

  lemma PreparedByAlu(op: DivOp, rs1: Bv, rs2: Bv, outRdy: bool)
    requires |rs1| == 32 && |rs2| == 32
    ensures Prepared(32, AluInput(op, rs1, rs2, outRdy), Val(rs2)) && Prepare(op, rs2).shift <= 32
  {
    ValBound(rs2);
    ValSign(rs2);
    ValBound(Prepare(op, rs2).shifted);
    if Val(rs2) != 0 {
      PrepareNormalises(op, rs2);
      MagnitudesAgree(op, rs2);
    } else {
      PrepareZero(op, rs2);
    }
  }

  lemma MagnitudesAgree(op: DivOp, a: Bv)
    requires |a| == 32
    ensures Val(a) < Pow2(32) && DivisorMag(op, a) == OperandMag(32, op.IsSigned(), Val(a))
  {
    ValBound(a);
    ValSign(a);
  }

  // ------------------------------------------------------- the clocked registers

  class SerialDivider {
    const width: nat
    var fsm: Fsm
    var aReg: nat
    var bReg: nat
    var resReg: Bv
    var cnt: nat
    var remSel: bool
    var compInv: bool
    var resInv: bool

    predicate Valid() reads this {
      width > 0 && aReg < Pow2(width) && bReg < Pow2(width) && |resReg| == width
    }

    function Abs(): State reads this { State(fsm, aReg, bReg, resReg, cnt, remSel, compInv, resInv) }

    constructor (width: nat)
      requires width > 0
      ensures Valid() && this.width == width && fsm == Idle && OutVld(Abs(), Input(0, 0, 0, false, false, false, false, false, false))
    {
      this.width := width;
      fsm, aReg, bReg, resReg, cnt := Idle, 0, 0, Zeros(width), 0;
      remSel, compInv, resInv := false, false, false;
    }

    /** IDLE with a request: load the operands and the flags. */
    method Load(x: Input)
      requires Valid() && Ranged(width, Abs(), x) && LoadEn(Abs(), x)
      modifies this
      ensures Abs() == Step(width, old(Abs()), x)
    {
      var s := Abs();
      fsm, aReg, bReg, resReg, cnt := Divide, AddOut(width, s, x), x.opB, Zeros(width), x.shift;
      remSel, compInv := x.opRem, x.bSign;
      resInv := (!x.bIsZero || x.opRem) && SignsDiffer(width, x);
    }

    /** DIVIDE: subtract B if it fits, halve B, shift the quotient bit in. */
    method DivideOnce(x: Input)
      requires Valid() && Ranged(width, Abs(), x) && fsm.Divide?
      modifies this
      ensures Abs() == Step(width, old(Abs()), x)
    {
      var s := Abs();
      var abComp, addOut, halfB := AbComp(s, x), AddOut(width, s, x), HalveB(width, s);
      fsm, cnt := if cnt == 0 then Finish else Divide, if cnt == 0 then 0 else cnt - 1;
      aReg, bReg, resReg := if abComp then addOut else aReg, halfB, resReg[1..] + [abComp];
    }

    /** One cycle: the outputs before the rising edge, and the edge. */
    method Clock(x: Input) returns (outVld: bool, res: nat)
      requires Valid() && Ranged(width, Abs(), x)
      modifies this
      ensures Valid() && Abs() == Step(width, old(Abs()), x)
      ensures outVld == OutVld(old(Abs()), x) && res == ResDo(width, old(Abs()))
    {
      StepRanged(width, Abs(), x);
      outVld, res := (fsm.Idle? && !x.inVld) || fsm.Finish?, ResDo(width, Abs());
      match fsm {
        case Idle =>
          if x.inVld {
            Load(x);
          } else if cnt != 0 {
            cnt := cnt - 1;
          }
        case Divide =>
          DivideOnce(x);
        case Finish =>
          fsm := if x.outRdy then Idle else Finish;
          if cnt != 0 {
            cnt := cnt - 1;
          }
      }
    }
  }
}

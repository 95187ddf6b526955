// Hardware loops: end-address detection in IF, the decrement that travels with
// the loop target through IF and ID, and the loop registers.  The instruction
// flow itself (which instruction is in IF, when it moves) is an input.

module HwLoop {
  import opened Bits

  const N := 2
  const COUNTS := 0x1_0000_0000

  type Mask = m: seq<bool> | |m| == N witness [false, false]
  type Regs = r: seq<nat> | |r| == N witness [0, 0]

  // ---------------------------------------------------------- loop controller

  /** The counter comparator: bits 31..2, then the last two bits. */
  function CounterTest(counter: nat, decInFlight: bool): bool {
    if (counter / 4) % 0x4000_0000 != 0 then true
    else if counter % 4 == 3 then true
    else if counter % 4 == 2 then !decInFlight
    else false
  }

  /** It asks whether at least two iterations are left once the decrement that
      is still in flight has landed. */
  lemma CounterTestMeansTwoLeft(counter: nat, decInFlight: bool)
    requires counter < COUNTS
    ensures CounterTest(counter, decInFlight) <==> counter - (if decInFlight then 1 else 0) >= 2
  {
  }

  function PcIsEnd(pc: nat, end: Regs, counter: Regs, inFlight: Mask, i: nat): bool
    requires i < N
  {
    pc == end[i] && CounterTest(counter[i], inFlight[i])
  }

  /** The loop that jumps and is charged: the lowest-numbered one, N if none. */
  function Charged(pc: nat, end: Regs, counter: Regs, inFlight: Mask): (i: nat)
    ensures i <= N && forall j :: 0 <= j < i ==> !PcIsEnd(pc, end, counter, inFlight, j)
    ensures i < N ==> PcIsEnd(pc, end, counter, inFlight, i)
  {
    if PcIsEnd(pc, end, counter, inFlight, 0) then 0
    else if PcIsEnd(pc, end, counter, inFlight, 1) then 1
    else N
  }

  // ------------------------------------------------------------------ hardware

  /** Loop registers, hwlp_dec_cnt_if, the IF/ID register, and the instruction
      at the fetch output with its loop-target flag. */
  datatype State = State(
    start: Regs, end: Regs, counter: Regs,
    decIf: Mask, decId: Mask, isHwlpId: bool, idValid: bool,
    pc: nat, pcIsHwlp: bool)

  datatype Write = Write(start: bool, end: bool, counter: bool, regid: nat, startData: nat, endData: nat, cntData: nat)

  /** idClears: the ID instruction is done; ifValid: the IF instruction moves into
      ID, whose size in bytes is given. */
  datatype Input = Input(idClears: bool, ifValid: bool, size: nat, we: Write)

  predicate Fits(s: State, x: Input) {
    && (forall i :: 0 <= i < N ==> s.counter[i] < COUNTS)
    && x.we.regid < N && x.we.cntData < COUNTS
    && (x.ifValid ==> x.idClears)
  }

  function InFlightId(s: State): Mask { [s.idValid && s.isHwlpId && s.decId[0], s.idValid && s.isHwlpId && s.decId[1]] }

  function Jumping(s: State): nat { Charged(s.pc, s.end, s.counter, InFlightId(s)) }

  function OneHot(i: nat): Mask { [i == 0, i == 1] }

  function WriteOne(r: Regs, we: bool, i: nat, v: nat): Regs { if we && i < N then r[i := v] else r }

  /** A write wins over a decrement of the same counter. */
  function NextCount(counter: nat, i: nat, dec: bool, we: Write): nat {
    if we.counter && i == we.regid then we.cntData
    else if dec then (counter + COUNTS - 1) % COUNTS
    else counter
  }

  function NextCounter(counter: Regs, dec: Mask, valid: bool, we: Write): Regs {
    [NextCount(counter[0], 0, dec[0] && valid, we), NextCount(counter[1], 1, dec[1] && valid, we)]
  }

  function Step(s: State, x: Input): State {
    var j := Jumping(s);
    var hwloopValid := s.idValid && x.idClears && s.isHwlpId;
    var t := s.(
      start := WriteOne(s.start, x.we.start, x.we.regid, x.we.startData),
      end := WriteOne(s.end, x.we.end, x.we.regid, x.we.endData),
      counter := NextCounter(s.counter, s.decId, hwloopValid, x.we),
      decIf := if j < N then OneHot(j) else s.decIf);
    if x.ifValid then
      t.(idValid := true, isHwlpId := s.pcIsHwlp, decId := if s.pcIsHwlp then s.decIf else s.decId,
         pc := if j < N then s.start[j] else s.pc + x.size, pcIsHwlp := j < N)
    else if x.idClears then t.(idValid := false)
    else t
  }

  // ----------------------------------------------------------------- properties

  /** The instruction at the fetch output was reached by a jump of loop i. */
  predicate AtTarget(s: State, i: nat) requires i < N { s.pcIsHwlp && s.decIf[i] }

  /** A decrement of loop i is under way. */
  predicate Pending(s: State, i: nat) requires i < N { AtTarget(s, i) || InFlightId(s)[i] }

  /** The iterations of loop i that are left, all decrements landed. */
  function Left(s: State, i: nat): int
    requires i < N
  {
    s.counter[i] - Bit(AtTarget(s, i)) - Bit(InFlightId(s)[i])
  }

  /** The body of loop i is one instruction. */
  predicate Short(s: State, i: nat) requires i < N { s.start[i] == s.end[i] }

  predicate Live(s: State, i: nat) requires i < N { s.counter[i] >= 2 || Pending(s, i) }

  /** No loop in use starts where another one in use ends.  Loops that have run out
      or were never set may have any registers. */
  predicate Apart(s: State) {
    forall i, j :: 0 <= i < N && 0 <= j < N && i != j && Live(s, i) && s.counter[j] >= 2 ==> s.start[i] != s.end[j]
  }

  predicate Inv(s: State) {
    && (forall i :: 0 <= i < N ==> s.counter[i] < COUNTS && Left(s, i) >= if Short(s, i) then 0 else Bit(Pending(s, i)))
    && Apart(s)
    && (s.pcIsHwlp ==> exists i :: 0 <= i < N && s.decIf == OneHot(i) && s.pc == s.start[i])
  }

  function ResetState(pc: nat): State {
    State([0, 0], [0, 0], [0, 0], [false, false], [false, false], false, false, pc, false)
  }

  lemma ResetHasInv(pc: nat)
    ensures Inv(ResetState(pc))
  {
  }

  /** The last instruction of loop i is at the fetch output, and at least two
      iterations are left; its own target, which the decision cannot see, is charged
      later. */
  predicate Iterates(s: State, i: nat)
    requires i < N
  {
    s.pc == s.end[i] && Left(s, i) + Bit(AtTarget(s, i)) >= 2
  }

  /** The jump decision sees the iterations left, although decrements may be on
      their way; only at its own target does a loop jump with one less. */
  lemma JumpsIffTwoLeft(s: State, i: nat)
    requires Inv(s) && i < N
    ensures PcIsEnd(s.pc, s.end, s.counter, InFlightId(s), i) <==> Iterates(s, i)
    ensures AtTarget(s, i) ==> s.pc == s.start[i]
    ensures !Short(s, i) ==>
              (PcIsEnd(s.pc, s.end, s.counter, InFlightId(s), i) <==> s.pc == s.end[i] && Left(s, i) >= 2)
  {
    CounterTestMeansTwoLeft(s.counter[i], InFlightId(s)[i]);
    if AtTarget(s, i) {
      var k :| 0 <= k < N && s.decIf == OneHot(k) && s.pc == s.start[k];
      assert OneHot(k)[i];
    }
  }

  /** The loop whose turn it is: the lowest-numbered one that iterates. */
  predicate Turn(s: State, i: nat)
    requires i < N
  {
    Iterates(s, i) && forall j :: 0 <= j < i ==> !Iterates(s, j)
  }

  lemma JumpingIsTurn(s: State, i: nat)
    requires Inv(s) && i < N
    ensures Jumping(s) == i <==> Turn(s, i)
  {
    hide CounterTest, Inv;
    JumpsIffTwoLeft(s, 0);
    JumpsIffTwoLeft(s, 1);
  }

  /** Where the fetch goes: to the start of the lowest-numbered loop that iterates,
      marked as its target, and otherwise to the instruction behind; and nowhere
      while the instruction has not moved on. */
  lemma NextFetch(s: State, x: Input)
    requires Inv(s)
    ensures var t := Step(s, x);
            && (forall i :: 0 <= i < N && x.ifValid && Turn(s, i) ==> t.pc == s.start[i] && AtTarget(t, i))
            && (x.ifValid && (forall i :: 0 <= i < N ==> !Iterates(s, i)) ==> t.pc == s.pc + x.size && !t.pcIsHwlp)
            && (!x.ifValid ==> t.pc == s.pc && t.pcIsHwlp == s.pcIsHwlp)
  {
    hide CounterTest, Inv, Charged, Iterates;
    JumpsIffTwoLeft(s, 0);
    JumpsIffTwoLeft(s, 1);
  }

  /** At a loop target nothing but a one-instruction loop of its own jumps. */
  lemma TargetJumpsOnlyItself(s: State)
    requires Inv(s)
    ensures s.pcIsHwlp && Jumping(s) < N ==> s.decIf == OneHot(Jumping(s)) && Short(s, Jumping(s))
  {
    var j := Jumping(s);
    if s.pcIsHwlp && j < N {
      var i :| 0 <= i < N && s.decIf == OneHot(i) && s.pc == s.start[i];
      assert OneHot(i)[i] && Live(s, i);
      JumpsIffTwoLeft(s, j);
    }
  }

  /** A loop that is in use and at its end with iterations left is the one that
      jumps, if it starts there or the other loop does not end there. */
  lemma ShortLoopJumps(s: State, i: nat)
    requires Inv(s) && i < N && Short(s, i) && Live(s, i)
    requires PcIsEnd(s.pc, s.end, s.counter, InFlightId(s), i)
    ensures Jumping(s) == i
  {
    JumpsIffTwoLeft(s, Jumping(s));
  }

  lemma Decrement(counter: nat)
    requires 0 < counter < COUNTS
    ensures (counter + COUNTS - 1) % COUNTS == counter - 1
  {
  }

  /** How many decrements of loop i are still under way after the edge. */
  function UnderWay(s: State, x: Input, i: nat): nat
    requires i < N
  {
    if x.ifValid then Bit(Jumping(s) == i) + Bit(AtTarget(s, i))
    else Bit(AtTarget(s, i)) + Bit(InFlightId(s)[i] && !x.idClears)
  }

  predicate Writes(x: Input, i: nat) { (x.we.start || x.we.end || x.we.counter) && x.we.regid == i }

  lemma StepUnderWay(s: State, x: Input, i: nat)
    requires Inv(s) && Fits(s, x) && i < N
    ensures var t := Step(s, x); Bit(AtTarget(t, i)) + Bit(InFlightId(t)[i]) == UnderWay(s, x, i)
  {
    hide CounterTest, PcIsEnd, Charged, Apart, NextCounter;
    TargetJumpsOnlyItself(s);
  }

  lemma StepRegisters(s: State, x: Input, i: nat)
    requires Fits(s, x) && i < N && (InFlightId(s)[i] ==> s.counter[i] > 0)
    ensures Step(s, x).counter[i] == if x.we.counter && x.we.regid == i then x.we.cntData
                                     else s.counter[i] - Bit(InFlightId(s)[i] && x.idClears)
    ensures Step(s, x).start[i] == if x.we.start && x.we.regid == i then x.we.startData else s.start[i]
    ensures Step(s, x).end[i] == if x.we.end && x.we.regid == i then x.we.endData else s.end[i]
  {
    hide Charged, Jumping;
    if InFlightId(s)[i] {
      Decrement(s.counter[i]);
    }
  }

  /** One edge, any write: only a jump uses up an iteration, and only of its loop; a
      counter write wins over a decrement that lands with it, and decides together
      with the decrements still under way. */
  lemma StepLeft(s: State, x: Input, i: nat)
    requires Inv(s) && Fits(s, x) && i < N
    ensures var t := Step(s, x);
            && t.counter[i] < COUNTS
            && Bit(AtTarget(t, i)) + Bit(InFlightId(t)[i]) == UnderWay(s, x, i)
            && Left(t, i) == if x.we.counter && x.we.regid == i then x.we.cntData - UnderWay(s, x, i)
                             else Left(s, i) - Bit(x.ifValid && Jumping(s) == i)
  {
    hide CounterTest, PcIsEnd, Charged, Apart, Jumping, Step;
    StepUnderWay(s, x, i);
    StepRegisters(s, x, i);
  }

  /** A write of the counter sets the iterations, less what is under way; the start
      and end of a loop are what was written to them last. */
  lemma WritingSetsIterations(s: State, x: Input, i: nat)
    requires Inv(s) && Fits(s, x) && i < N
    ensures var t := Step(s, x);
            && (x.we.counter && x.we.regid == i ==> Left(t, i) == x.we.cntData - UnderWay(s, x, i))
            && t.start[i] == (if x.we.start && x.we.regid == i then x.we.startData else s.start[i])
            && t.end[i] == (if x.we.end && x.we.regid == i then x.we.endData else s.end[i])
  {
    StepLeft(s, x, i);
    StepRegisters(s, x, i);
  }

  /** A write to a loop register is in order when no decrement of that loop stays
      under way and the loop, as written, keeps apart from the other one. */
  predicate InOrder(s: State, x: Input) {
    var t := Step(s, x);
    forall r :: 0 <= r < N && Writes(x, r) ==>
      && UnderWay(s, x, r) == 0
      && forall j :: 0 <= j < N && j != r && t.counter[r] >= 2 ==>
           (s.counter[j] >= 2 ==> t.start[r] != s.end[j]) && (Live(s, j) ==> s.start[j] != t.end[r])
  }

  /** While the other loop is not in use every write to a settled loop is in order,
      whatever the registers of the other loop hold. */
  lemma SingleLoopIsInOrder(s: State, x: Input, r: nat)
    requires r < N && UnderWay(s, x, r) == 0 && forall j :: 0 <= j < N && j != r ==> !Live(s, j) && !Writes(x, j)
    ensures InOrder(s, x)
  {
  }

  lemma StepKeepsLive(s: State, x: Input, i: nat)
    requires Inv(s) && Fits(s, x) && i < N && !Writes(x, i)
    ensures Live(Step(s, x), i) ==> Live(s, i)
    ensures Step(s, x).counter[i] <= s.counter[i]
    ensures Step(s, x).start[i] == s.start[i] && Step(s, x).end[i] == s.end[i]
  {
    hide CounterTest, Charged, Apart;
    StepLeft(s, x, i);
    JumpsIffTwoLeft(s, i);
    if InFlightId(s)[i] {
      Decrement(s.counter[i]);
    }
  }

  lemma StepKeepsApart(s: State, x: Input)
    requires Inv(s) && Fits(s, x) && InOrder(s, x)
    ensures Apart(Step(s, x))
  {
    var t := Step(s, x);
    forall i, j | 0 <= i < N && 0 <= j < N && i != j && Live(t, i) && t.counter[j] >= 2 ensures t.start[i] != t.end[j] {
      hide Step, Fits;
      if !Writes(x, i) {
        StepKeepsLive(s, x, i);
      } else {
        StepLeft(s, x, i);
      }
      if !Writes(x, j) {
        StepKeepsLive(s, x, j);
      } else {
        StepLeft(s, x, j);
      }
    }
  }

  lemma StepKeepsTarget(s: State, x: Input)
    requires Inv(s) && Fits(s, x) && InOrder(s, x)
    ensures var t := Step(s, x);
            t.pcIsHwlp ==> exists i :: 0 <= i < N && t.decIf == OneHot(i) && t.pc == t.start[i]
  {
    hide CounterTest, PcIsEnd, Charged, Apart;
    var t := Step(s, x);
    TargetJumpsOnlyItself(s);
    if t.pcIsHwlp {
      var i: nat;
      if x.ifValid {
        i := Jumping(s);
      } else {
        i :| i < N && s.decIf == OneHot(i) && s.pc == s.start[i];
      }
      assert OneHot(i)[i];
      assert !Writes(x, i);
      assert t.decIf == OneHot(i) && t.pc == t.start[i];
    }
  }

  /** The invariant survives every cycle with no write or one that is in order. */
  lemma StepKeepsInv(s: State, x: Input)
    requires Inv(s) && Fits(s, x) && InOrder(s, x)
    ensures Inv(Step(s, x))
  {
    StepKeepsApart(s, x);
    StepKeepsTarget(s, x);
    forall i | 0 <= i < N
      ensures var t := Step(s, x);
              t.counter[i] < COUNTS && Left(t, i) >= if Short(t, i) then 0 else Bit(Pending(t, i))
    {
      StepKeepsBudget(s, x, i);
    }
  }

  lemma StepKeepsBudget(s: State, x: Input, i: nat)
    requires Inv(s) && Fits(s, x) && InOrder(s, x) && i < N
    ensures var t := Step(s, x);
            t.counter[i] < COUNTS && Left(t, i) >= if Short(t, i) then 0 else Bit(Pending(t, i))
  {
    hide CounterTest, PcIsEnd, Charged, Apart, Step;
    StepLeft(s, x, i);
    JumpsIffTwoLeft(s, i);
    if !Writes(x, i) {
      StepKeepsLive(s, x, i);
    }
  }

  // ------------------------------------------------------------------- all runs

  function Run(s: State, xs: seq<Input>): State
    decreases xs
  {
    if xs == [] then s else Run(Step(s, xs[0]), xs[1..])
  }

  /** A run whose writes, if any, are in order. */
  predicate Orderly(s: State, xs: seq<Input>)
    decreases xs
  {
    xs != [] ==> Fits(s, xs[0]) && InOrder(s, xs[0]) && Orderly(Step(s, xs[0]), xs[1..])
  }

  /** Nobody writes the registers of loop i; the other loop may be set again. */
  predicate LeavesAlone(xs: seq<Input>, i: nat) { forall x :: x in xs ==> !Writes(x, i) }

  lemma {:induction false} RunKeepsInv(s: State, xs: seq<Input>)
    requires Inv(s) && Orderly(s, xs)
    ensures Inv(Run(s, xs))
    decreases xs
  {
    if xs != [] {
      StepKeepsInv(s, xs[0]);
      RunKeepsInv(Step(s, xs[0]), xs[1..]);
    }
  }

  /** How often the fetch went from the end of loop i to its start, for loop i. */
  function Transfers(s: State, xs: seq<Input>, i: nat): nat
    requires i < N
    decreases xs
  {
    if xs == [] then 0
    else
      var t := Step(s, xs[0]);
      Bit(xs[0].ifValid && s.pc == s.end[i] && t.pc == s.start[i] && AtTarget(t, i)) + Transfers(t, xs[1..], i)
  }

  /** The same on the addresses alone. */
  function AddressTransfers(s: State, xs: seq<Input>, i: nat): nat
    requires i < N
    decreases xs
  {
    if xs == [] then 0
    else
      var t := Step(s, xs[0]);
      Bit(xs[0].ifValid && s.pc == s.end[i] && t.pc == s.start[i]) + AddressTransfers(t, xs[1..], i)
  }

  /** The addresses show which loop jumped: behind the end of loop i comes not its
      start, and no other loop has the same end and start. */
  predicate Telling(s: State, xs: seq<Input>, i: nat)
    requires i < N
    decreases xs
  {
    xs != [] ==>
      && (s.pc == s.end[i] ==> s.pc + xs[0].size != s.start[i])
      && (forall j :: 0 <= j < N && j != i && s.end[j] == s.end[i] ==> s.start[j] != s.start[i])
      && Telling(Step(s, xs[0]), xs[1..], i)
  }

  lemma StepTransfers(s: State, x: Input, i: nat)
    requires Inv(s) && Fits(s, x) && i < N
    ensures var t := Step(s, x);
            && (x.ifValid && s.pc == s.end[i] && t.pc == s.start[i] && AtTarget(t, i) <==> x.ifValid && Jumping(s) == i)
            && ((s.pc == s.end[i] ==> s.pc + x.size != s.start[i])
                && (forall j :: 0 <= j < N && j != i && s.end[j] == s.end[i] ==> s.start[j] != s.start[i])
                ==> (x.ifValid && s.pc == s.end[i] && t.pc == s.start[i] <==> x.ifValid && Jumping(s) == i))
  {
    hide CounterTest, Inv;
  }

  lemma {:induction false} TransfersAreJumps(s: State, xs: seq<Input>, i: nat)
    requires Inv(s) && i < N && Orderly(s, xs)
    ensures Transfers(s, xs, i) == JumpsBack(s, xs, i)
    ensures Telling(s, xs, i) ==> AddressTransfers(s, xs, i) == Transfers(s, xs, i)
    decreases xs
  {
    if xs != [] {
      hide Inv, Step, Jumping;
      StepTransfers(s, xs[0], i);
      StepKeepsInv(s, xs[0]);
      TransfersAreJumps(Step(s, xs[0]), xs[1..], i);
    }
  }

  /** How often loop i asked to jump back and was chosen. */
  function JumpsBack(s: State, xs: seq<Input>, i: nat): nat
    decreases xs
  {
    if xs == [] then 0 else Bit(xs[0].ifValid && Jumping(s) == i) + JumpsBack(Step(s, xs[0]), xs[1..], i)
  }

  /** Over any run that leaves loop i alone its jumps are the iterations it lost. */
  lemma {:induction false} JumpsUseUpIterations(s: State, xs: seq<Input>, i: nat)
    requires Inv(s) && i < N && Orderly(s, xs) && LeavesAlone(xs, i)
    ensures JumpsBack(s, xs, i) == Left(s, i) - Left(Run(s, xs), i)
    decreases xs
  {
    if xs != [] {
      assert !Writes(xs[0], i);
      StepLeft(s, xs[0], i);
      StepKeepsInv(s, xs[0]);
      JumpsUseUpIterations(Step(s, xs[0]), xs[1..], i);
    }
  }

  /** What is left of a loop that had n iterations when it was first reached. */
  predicate Phase(s: State, i: nat, n: nat)
    requires i < N
  {
    if Short(s, i) && n >= 2 then Left(s, i) == n || Left(s, i) == 0 || AtTarget(s, i)
    else Left(s, i) >= 1 && (Short(s, i) ==> Left(s, i) == n && !AtTarget(s, i))
  }

  lemma StepKeepsPhase(s: State, x: Input, i: nat, n: nat)
    requires Inv(s) && Fits(s, x) && i < N && !Writes(x, i) && Phase(s, i, n) && Left(s, i) <= n
    ensures Phase(Step(s, x), i, n) && Left(Step(s, x), i) <= n
  {
    hide CounterTest, PcIsEnd, Charged, Apart;
    StepLeft(s, x, i);
    StepKeepsLive(s, x, i);
    JumpsIffTwoLeft(s, i);
    TargetJumpsOnlyItself(s);
    if Short(s, i) && PcIsEnd(s.pc, s.end, s.counter, InFlightId(s), i) {
      ShortLoopJumps(s, i);
    }
  }

  lemma {:induction false} RunKeepsPhase(s: State, xs: seq<Input>, i: nat, n: nat)
    requires Inv(s) && i < N && Orderly(s, xs) && LeavesAlone(xs, i) && Phase(s, i, n) && Left(s, i) <= n
    ensures Phase(Run(s, xs), i, n) && Left(Run(s, xs), i) <= n
    ensures Run(s, xs).start[i] == s.start[i] && Run(s, xs).end[i] == s.end[i]
    decreases xs
  {
    if xs != [] {
      assert !Writes(xs[0], i);
      StepKeepsPhase(s, xs[0], i, n);
      StepKeepsLive(s, xs[0], i);
      StepKeepsInv(s, xs[0]);
      RunKeepsPhase(Step(s, xs[0]), xs[1..], i, n);
    }
  }

  /** The end of loop i is at the fetch output and it has no iteration left to go
      back to; an outer loop with the same end may. */
  predicate Passes(s: State, i: nat) requires i < N { s.pc == s.end[i] && !Iterates(s, i) }

  /** The fetch goes back from the end of a loop with n >= 1 iterations left to its
      start n - 1 times before the end is passed, whatever the stalls and whatever
      the other loop does; then, unless the other loop goes on, it goes to the
      instruction behind.  Only a body of one instruction, with two or more
      iterations, jumps once more: n - 1 is right exactly if the body has at least
      two instructions or n is 1. */
  lemma LoopJumpsBackExactly(s: State, xs: seq<Input>, i: nat)
    requires Inv(s) && i < N && Orderly(s, xs) && LeavesAlone(xs, i)
    requires Left(s, i) >= 1 && (Short(s, i) ==> !AtTarget(s, i))
    ensures Transfers(s, xs, i) <= if Short(s, i) && Left(s, i) >= 2 then Left(s, i) else Left(s, i) - 1
    ensures Passes(Run(s, xs), i) ==>
              Transfers(s, xs, i) == if Short(s, i) && Left(s, i) >= 2 then Left(s, i) else Left(s, i) - 1
    ensures Passes(Run(s, xs), i) ==>
              (Transfers(s, xs, i) == Left(s, i) - 1 <==> !Short(s, i) || Left(s, i) == 1)
    ensures Telling(s, xs, i) ==> AddressTransfers(s, xs, i) == Transfers(s, xs, i)
  {
    hide CounterTest, PcIsEnd, Apart;
    TransfersAreJumps(s, xs, i);
    JumpsUseUpIterations(s, xs, i);
    RunKeepsInv(s, xs);
    RunKeepsPhase(s, xs, i, Left(s, i));
    JumpsIffTwoLeft(Run(s, xs), i);
  }

  /** At the end that is passed the fetch goes on behind it or, for an outer loop with
      the same end, to the start of that one. */
  lemma PassedLoopIsLeft(s: State, xs: seq<Input>, x: Input, i: nat)
    requires Inv(s) && i < N && Orderly(s, xs) && Passes(Run(s, xs), i) && x.ifValid
    ensures var t := Run(s, xs);
            if Iterates(t, 1 - i) then Step(t, x).pc == t.start[1 - i]
            else Step(t, x).pc == t.end[i] + x.size && !Step(t, x).pcIsHwlp
  {
    hide Inv, Orderly, Step, Iterates;
    RunKeepsInv(s, xs);
    NextFetch(Run(s, xs), x);
    assert Turn(Run(s, xs), 1 - i) || !Iterates(Run(s, xs), 1 - i);
  }

  /** The overrun by itself: a one-instruction body with n >= 2 iterations left jumps
      n times, because each jump but the first is decided at its own target. */
  lemma OneInstructionBodyOverruns(s: State, xs: seq<Input>, i: nat)
    requires Inv(s) && i < N && Orderly(s, xs) && LeavesAlone(xs, i)
    requires Short(s, i) && !AtTarget(s, i) && Left(s, i) >= 2 && Passes(Run(s, xs), i)
    ensures Transfers(s, xs, i) == Left(s, i) && Left(Run(s, xs), i) == 0
  {
    TransfersAreJumps(s, xs, i);
    LoopJumpsBackExactly(s, xs, i);
    JumpsUseUpIterations(s, xs, i);
  }

  /** From setting the counter to n to passing the end, in one chain. */
  lemma ProgrammedLoopJumps(s: State, x: Input, xs: seq<Input>, i: nat)
    requires Inv(s) && Fits(s, x) && InOrder(s, x)
    requires i < N && x.we.counter && x.we.regid == i && x.we.cntData >= 1
    requires Orderly(Step(s, x), xs) && LeavesAlone(xs, i) && Passes(Run(Step(s, x), xs), i)
    ensures var (t, n) := (Step(s, x), x.we.cntData);
            Transfers(t, xs, i) == if t.start[i] == t.end[i] && n >= 2 then n else n - 1
  {
    assert Writes(x, i);
    StepLeft(s, x, i);
    StepKeepsInv(s, x);
    LoopJumpsBackExactly(Step(s, x), xs, i);
  }

  // ------------------------------------------------------- the clocked registers

  /** riscv_hwloop_regs. */
  class LoopRegs {
    const startQ: array<nat>
    const endQ: array<nat>
    const counterQ: array<nat>

    ghost predicate Valid() reads this {
      && startQ.Length == endQ.Length == counterQ.Length == N
      && startQ != endQ && startQ != counterQ && endQ != counterQ
    }

    constructor ()
      ensures Valid() && fresh(startQ) && fresh(endQ) && fresh(counterQ)
      ensures startQ[..] == [0, 0] && endQ[..] == [0, 0] && counterQ[..] == [0, 0]
    {
      startQ := new nat[N](_ => 0);
      endQ := new nat[N](_ => 0);
      counterQ := new nat[N](_ => 0);
    }

    method Clock(dec: Mask, valid: bool, we: Write)
      requires Valid() && we.regid < N
      modifies startQ, endQ, counterQ
      ensures startQ[..] == WriteOne(old(startQ[..]), we.start, we.regid, we.startData)
      ensures endQ[..] == WriteOne(old(endQ[..]), we.end, we.regid, we.endData)
      ensures counterQ[..] == NextCounter(old(counterQ[..]), dec, valid, we)
    {
      if we.start {
        startQ[we.regid] := we.startData;
      }
      if we.end {
        endQ[we.regid] := we.endData;
      }
      for i := 0 to N
        invariant startQ[..] == WriteOne(old(startQ[..]), we.start, we.regid, we.startData)
        invariant endQ[..] == WriteOne(old(endQ[..]), we.end, we.regid, we.endData)
        invariant forall k :: 0 <= k < i ==> counterQ[k] == NextCount(old(counterQ[k]), k, dec[k] && valid, we)
        invariant forall k :: i <= k < N ==> counterQ[k] == old(counterQ[k])
      {
        if we.counter && i == we.regid {
          counterQ[i] := we.cntData;
        } else if dec[i] && valid {
          counterQ[i] := (counterQ[i] + COUNTS - 1) % COUNTS;
        }
      }
    }
  }

  /** The fetch-side registers around the loop registers. */
  class LoopFetch {
    const regs: LoopRegs
    var decIf: Mask
    var decId: Mask
    var isHwlpIdQ: bool
    var instrValidId: bool
    /** The instruction at the fetch output. */
    var pc: nat
    var pcIsHwlp: bool

    ghost predicate Valid() reads this, regs { regs.Valid() }

    function Abs(): State
      requires regs.Valid()
      reads this, regs, regs.startQ, regs.endQ, regs.counterQ
    {
      State(regs.startQ[..], regs.endQ[..], regs.counterQ[..], decIf, decId, isHwlpIdQ, instrValidId, pc, pcIsHwlp)
    }

    constructor (pc: nat)
      ensures Valid() && fresh(regs) && Abs() == ResetState(pc)
    {
      regs := new LoopRegs();
      decIf, decId := [false, false], [false, false];
      isHwlpIdQ, instrValidId, this.pc, pcIsHwlp := false, false, pc, false;
    }

    method Clock(x: Input)
      requires Valid() && Fits(Abs(), x)
      modifies this, regs.startQ, regs.endQ, regs.counterQ
      ensures Valid() && Abs() == Step(old(Abs()), x)
    {
      var s := Abs();
      var j := Jumping(s);
      regs.Clock(decId, s.idValid && x.idClears && s.isHwlpId, x.we);
      if x.ifValid {
        instrValidId, isHwlpIdQ := true, pcIsHwlp;
        if pcIsHwlp {
          decId := decIf;
        }
        pc := if j < N then s.start[j] else pc + x.size;
        pcIsHwlp := j < N;
      } else if x.idClears {
        instrValidId := false;
      }
      if j < N {
        decIf := OneHot(j);
      }
    }
  }
}

// Interrupts in the machine-mode-only configuration: the interrupt controller,
// the main state machine of the core controller and the interrupt-enable bits
// of mstatus, clocked together.

module IrqHandshake {
  import opened Bits

  datatype IrqFsm = Idle | Pending | Done

  datatype Fsm =
    | Reset | BootSet | Sleep | WaitSleep | FirstFetch | Decode
    | IrqTakenId | IrqTakenIf | IrqFlush | ElwExe | FlushEx | FlushWb | XretJump
    | DbgTakenId | DbgTakenIf | DbgFlush | DbgWaitBranch

  /** What the decoder says about the instruction in ID. */
  datatype Insn = Jump | Branch | Ebreak | Wfi | Ecall | Fencei | Mret | Dret | CsrStatus | LoadEvent | Other

  datatype Status = Status(mie: bool, mpie: bool)

  /** What a CSR instruction of the status group that is in EX does to mstatus. */
  datatype CsrWrite = NoWrite | WriteStatus(status: Status)

  /** statusInEx: the EX stage holds a CSR instruction of the status group, the only
      ones that can write mstatus. */
  datatype Core = Core(
    fsm: Fsm, debugMode: bool, illegalQ: bool, dataErrQ: bool, irqFlushQ: bool, statusInEx: bool)

  datatype IrqReg = IrqReg(cs: IrqFsm, id: nat)

  datatype State = State(irq: IrqReg, core: Core, status: Status)

  datatype Input = Input(
    irq: bool, irqId: nat, csr: CsrWrite, insn: Insn, illegal: bool, instrValid: bool,
    idReady: bool, exReady: bool, exValid: bool, branchTaken: bool, dataErr: bool, fetchFailed: bool, fetchEnable: bool,
    debugReq: bool, singleStep: bool, ebreakToDebug: bool)

  // ------------------------------------------------------- interrupt controller

  predicate Requests(irq: IrqReg, mie: bool, x: Input) { irq.cs.Idle? && mie && x.irq }

  function NextIrq(irq: IrqReg, mie: bool, ack: bool, kill: bool, x: Input): IrqReg {
    match irq.cs
    case Idle => if mie && x.irq then IrqReg(Pending, x.irqId) else irq
    case Pending => irq.(cs := if ack then Done else if kill then Idle else Pending)
    case Done => irq.(cs := Idle)
  }

  // ------------------------------------------------------------ main controller

  predicate Ack(s: State) { s.core.fsm.IrqTakenId? || s.core.fsm.IrqTakenIf? }

  predicate Serves(s: State) { s.irq.cs.Pending? && s.status.mie }

  /** DECODE has an instruction in front of it and nothing older in its way. */
  predicate LooksAtInsn(s: State, x: Input) {
    !x.branchTaken && !x.dataErr && !x.fetchFailed && (x.instrValid || s.core.irqFlushQ)
  }

  predicate EntersDebug(s: State, x: Input) { x.debugReq && !s.core.debugMode }

  predicate TakesIrq(s: State, x: Input) { Serves(s) && !x.debugReq && !s.core.debugMode }

  /** DECODE goes on to execute the instruction. */
  predicate Executes(s: State, x: Input) {
    s.core.fsm.Decode? && LooksAtInsn(s, x) && !TakesIrq(s, x) && !EntersDebug(s, x)
  }

  predicate Kill(s: State, x: Input) {
    || (Executes(s, x) && s.irq.cs.Pending?)
    || (s.core.fsm.IrqFlush? && !x.dataErr && !(x.irq && s.status.mie))
  }

  function ExecuteNext(s: State, x: Input): Fsm {
    if x.illegal then FlushEx
    else match x.insn
      case Ebreak => if s.core.debugMode || x.ebreakToDebug then DbgFlush else FlushEx
      case Wfi => FlushEx
      case Ecall => FlushEx
      case Fencei => FlushEx
      case Mret => FlushEx
      case Dret => FlushEx
      case CsrStatus => if x.idReady then FlushEx else Decode
      case LoadEvent => if x.idReady then ElwExe else Decode
      case _ => Decode
  }

  function SingleStepNext(x: Input): Fsm {
    if x.illegal || x.insn.Ecall? then FlushEx
    else if x.insn.Ebreak? && !x.ebreakToDebug then FlushEx
    else if x.insn.Mret? then FlushEx
    else if x.insn.Branch? then DbgWaitBranch
    else DbgFlush
  }

  function DecodeNext(s: State, x: Input): Fsm {
    if x.branchTaken then Decode
    else if x.dataErr || x.fetchFailed then FlushWb
    else if !(x.instrValid || s.core.irqFlushQ) then Decode
    else if TakesIrq(s, x) then IrqFlush
    else if EntersDebug(s, x) then DbgFlush
    else if x.singleStep && !s.core.debugMode && x.idReady then SingleStepNext(x)
    else ExecuteNext(s, x)
  }

  function FlushWbNext(s: State, x: Input): Fsm {
    var stepped := if x.singleStep && !s.core.debugMode then DbgTakenIf else Decode;
    if s.core.dataErrQ || x.fetchFailed then Decode
    else if s.core.illegalQ then stepped
    else match x.insn
      case Ebreak => stepped
      case Ecall => stepped
      case Mret => if x.illegal then Decode else XretJump
      case Dret => if x.illegal then Decode else XretJump
      case Wfi => WaitSleep
      case _ => Decode
  }

  function NextFsm(s: State, x: Input): Fsm {
    match s.core.fsm
    case Reset => if x.fetchEnable then BootSet else Reset
    case BootSet => FirstFetch
    case WaitSleep => Sleep
    case Sleep => if x.irq || x.debugReq || s.core.debugMode || x.singleStep then FirstFetch else Sleep
    case FirstFetch =>
      if EntersDebug(s, x) then DbgTakenIf
      else if Serves(s) then IrqTakenIf
      else if x.idReady then Decode
      else FirstFetch
    case Decode => DecodeNext(s, x)
    case FlushEx => if x.dataErr || x.exValid then FlushWb else FlushEx
    case IrqFlush => if x.dataErr then FlushWb else if x.irq && s.status.mie then IrqTakenId else Decode
    case ElwExe => if !x.idReady then ElwExe else if EntersDebug(s, x) then DbgFlush else IrqFlush
    case FlushWb => FlushWbNext(s, x)
    case XretJump => if x.singleStep && !s.core.debugMode then DbgTakenIf else Decode
    case DbgWaitBranch => DbgFlush
    case DbgFlush =>
      if x.dataErr then FlushWb
      else if !s.core.debugMode && !x.insn.LoadEvent? && x.singleStep then DbgTakenIf
      else DbgTakenId
    case _ => Decode
  }

  /** A CSR instruction of the status group leaves ID; it halts only IF. */
  predicate StatusEntersEx(s: State, x: Input) {
    Executes(s, x) && !x.illegal && x.insn.CsrStatus? && x.idReady
  }

  function NextCore(s: State, x: Input): Core {
    var f := s.core.fsm;
    Core(NextFsm(s, x),
         f.DbgTakenId? || f.DbgTakenIf? || (s.core.debugMode && !(f.XretJump? && x.insn.Dret?)),
         if f.Decode? && Executes(s, x) && x.illegal then true
         else if f.FlushEx? && x.dataErr then false
         else if f.FlushWb? && !s.core.dataErrQ && !x.fetchFailed then false
         else s.core.illegalQ,
         x.dataErr,
         f.IrqFlush? && !x.dataErr && !(x.irq && s.status.mie),
         StatusEntersEx(s, x) || (s.core.statusInEx && !x.exReady))
  }

  // -------------------------------------------------------------------- mstatus

  /** A trap other than one into the debugger saves its cause. */
  predicate SavesCause(s: State, x: Input) {
    match s.core.fsm
    case Decode =>
      && !x.branchTaken
      && (x.dataErr || x.fetchFailed
          || (Executes(s, x) && (x.illegal || x.insn.Ecall?
                                 || (x.insn.Ebreak? && !s.core.debugMode && !x.ebreakToDebug))))
    case FlushEx => x.dataErr
    case IrqFlush => x.dataErr
    case DbgFlush => x.dataErr
    case IrqTakenId => true
    case IrqTakenIf => true
    case _ => false
  }

  predicate RestoresMret(s: State, x: Input) {
    && s.core.fsm.FlushWb? && !s.core.dataErrQ && !x.fetchFailed && !s.core.illegalQ
    && x.insn.Mret? && !x.illegal
  }

  /** The port is driven by the instruction in EX alone. */
  predicate WritesStatus(s: State, x: Input) { s.core.statusInEx && x.csr.WriteStatus? }

  function NextStatus(s: State, x: Input): Status {
    if SavesCause(s, x) then Status(false, s.status.mie)
    else if RestoresMret(s, x) then Status(s.status.mpie, true)
    else if WritesStatus(s, x) then x.csr.status
    else s.status
  }

  function Step(s: State, x: Input): State {
    State(NextIrq(s.irq, s.status.mie, Ack(s), Kill(s, x), x), NextCore(s, x), NextStatus(s, x))
  }

  const RESET := State(IrqReg(Idle, 0), Core(Reset, false, false, false, false, false), Status(false, false))

  // ------------------------------------------------------------------ invariant

  /** The controller acknowledges only a pending request, and right after the
      acknowledgement it is decoding.  The second half is what makes the first one
      inductive: a flush may be entered without a request, and it then relies on the
      interrupt controller being able to latch one. */
  predicate Inv(s: State) {
    && (Ack(s) ==> s.irq.cs.Pending?)
    && (s.irq.cs.Done? ==> s.core.fsm.Decode? && !s.status.mie)
  }

  lemma StepKeepsInv(s: State, x: Input)
    requires Inv(s)
    ensures Inv(Step(s, x))
  {
  }

  lemma ResetHasInv()
    ensures Inv(RESET)
  {
  }

  // ------------------------------------------------------------------- all runs

  /** The state before cycle k of a run from reset. */
  function At(xs: seq<Input>, k: nat): State
    requires k <= |xs|
  {
    if k == 0 then RESET else Step(At(xs, k - 1), xs[k - 1])
  }

  predicate AckAt(xs: seq<Input>, k: nat) requires k < |xs| { Ack(At(xs, k)) }

  predicate RequestAt(xs: seq<Input>, k: nat)
    requires k < |xs|
  {
    Requests(At(xs, k).irq, At(xs, k).status.mie, xs[k])
  }

  predicate WithdrawnAt(xs: seq<Input>, k: nat)
    requires k < |xs|
  {
    At(xs, k).irq.cs.Pending? && !AckAt(xs, k) && Kill(At(xs, k), xs[k])
  }

  lemma {:induction false} RunKeepsInv(xs: seq<Input>, k: nat)
    requires k <= |xs|
    ensures Inv(At(xs, k))
  {
    hide Step, Inv;
    if k == 0 {
      ResetHasInv();
    } else {
      RunKeepsInv(xs, k - 1);
      StepKeepsInv(At(xs, k - 1), xs[k - 1]);
    }
  }

  /** A pending request goes back to one accepting cycle, and nothing has
      happened to it or to its id since. */
  lemma {:induction false} PendingSince(xs: seq<Input>, k: nat) returns (r: nat)
    requires k <= |xs| && At(xs, k).irq.cs.Pending?
    ensures r < k && RequestAt(xs, r) && At(xs, k).irq.id == xs[r].irqId
    ensures forall j :: r < j < k ==> At(xs, j).irq.cs.Pending? && !AckAt(xs, j) && !WithdrawnAt(xs, j)
  {
    hide NextCore, NextStatus;
    if At(xs, k - 1).irq.cs.Pending? {
      r := PendingSince(xs, k - 1);
    } else {
      r := k - 1;
    }
  }

  /** Every acknowledgement answers a pending request, with the id that was
      presented in the cycle in which interrupts were enabled and it was accepted. */
  lemma AckAnswersARequest(xs: seq<Input>, k: nat) returns (r: nat)
    requires k < |xs| && AckAt(xs, k)
    ensures At(xs, k).irq.cs.Pending?
    ensures r < k && RequestAt(xs, r) && At(xs, r).status.mie && At(xs, k).irq.id == xs[r].irqId
    ensures forall j :: r < j < k ==> !RequestAt(xs, j) && !AckAt(xs, j) && !WithdrawnAt(xs, j)
  {
    RunKeepsInv(xs, k);
    r := PendingSince(xs, k);
  }

  lemma StepBalance(s: State, x: Input)
    ensures Inv(s) ==>
              Bit(s.irq.cs.Pending?) + Bit(Requests(s.irq, s.status.mie, x))
              == Bit(Step(s, x).irq.cs.Pending?) + Bit(Ack(s)) + Bit(s.irq.cs.Pending? && !Ack(s) && Kill(s, x))
  {
  }

  /** The same of a cycle of a run. */
  lemma CycleBalance(xs: seq<Input>, k: nat)
    requires k < |xs|
    ensures Bit(At(xs, k).irq.cs.Pending?) + Bit(RequestAt(xs, k))
         == Bit(At(xs, k + 1).irq.cs.Pending?) + Bit(AckAt(xs, k)) + Bit(WithdrawnAt(xs, k))
  {
    RunKeepsInv(xs, k);
    StepBalance(At(xs, k), xs[k]);
  }

  function Count(xs: seq<Input>, k: nat, what: (seq<Input>, nat) --> bool): nat
    requires k <= |xs| && forall j :: 0 <= j < k ==> what.requires(xs, j)
  {
    if k == 0 then 0 else Count(xs, k - 1, what) + Bit(what(xs, k - 1))
  }

  /** Every accepted request is acknowledged once, withdrawn once, or still
      pending: never two of these, never one of them twice. */
  lemma {:induction false} RequestBalance(xs: seq<Input>, k: nat)
    requires k <= |xs|
    ensures Count(xs, k, RequestAt)
         == Count(xs, k, AckAt) + Count(xs, k, WithdrawnAt) + Bit(At(xs, k).irq.cs.Pending?)
  {
    hide Step;
    if k > 0 {
      RequestBalance(xs, k - 1);
      CycleBalance(xs, k - 1);
    }
  }

  /** Software turns interrupts on in this cycle: an mret that restores a set
      mpie, or a CSR write of a set mie. */
  predicate Enables(s: State, x: Input) {
    || (RestoresMret(s, x) && s.status.mpie)
    || (WritesStatus(s, x) && x.csr.status.mie && !RestoresMret(s, x) && !SavesCause(s, x))
  }

  lemma OnlyEnablesEnable(xs: seq<Input>, k: nat)
    requires k < |xs|
    ensures !At(xs, k).status.mie && At(xs, k + 1).status.mie ==> Enables(At(xs, k), xs[k])
  {
    hide NextIrq, NextCore, SavesCause, RestoresMret;
  }

  lemma {:induction false} EnabledBetween(xs: seq<Input>, from: nat, to: nat) returns (m: nat)
    requires from <= to <= |xs| && !At(xs, from).status.mie && At(xs, to).status.mie
    ensures from <= m < to && !At(xs, m).status.mie && Enables(At(xs, m), xs[m])
  {
    hide At, Enables;
    OnlyEnablesEnable(xs, to - 1);
    if At(xs, to - 1).status.mie {
      m := EnabledBetween(xs, from, to - 1);
    } else {
      m := to - 1;
    }
  }

  lemma AckMasks(xs: seq<Input>, i: nat)
    requires i < |xs| && AckAt(xs, i)
    ensures !RequestAt(xs, i) && !At(xs, i + 1).status.mie
  {
    RunKeepsInv(xs, i);
  }

  /** Handlers do not nest by themselves: between two acknowledgements software
      enabled interrupts again, and only after that was the second one accepted. */
  lemma AcksAreSeparatedByAnEnable(xs: seq<Input>, i: nat, j: nat) returns (m: nat, r: nat)
    requires i < j < |xs| && AckAt(xs, i) && AckAt(xs, j)
    ensures i < m < r < j && Enables(At(xs, m), xs[m]) && RequestAt(xs, r)
    ensures !At(xs, m).status.mie && At(xs, j).irq.id == xs[r].irqId
  {
    hide At;
    r := AckAnswersARequest(xs, j);
    AckMasks(xs, i);
    assert AckAt(xs, i) && !RequestAt(xs, i);
    assert i < r;
    m := EnabledBetween(xs, i + 1, r);
  }

  /** A request that software does not mask and the device does not drop is
      served: from the decode stage in two cycles, whatever instruction is there. */
  lemma HeldRequestIsServed(s: State, x: Input, y: Input)
    requires s.core.fsm.Decode? && Serves(s) && LooksAtInsn(s, x)
    requires !x.debugReq && !s.core.debugMode && (WritesStatus(s, x) ==> x.csr.status.mie)
    requires y.irq && !y.dataErr
    ensures var t := Step(Step(s, x), y); Ack(t) && t.irq == s.irq && t.core.fsm.IrqTakenId?
  {
  }

  /** A request dropped by the device in the meantime is forgotten, and the
      instruction that was held back is decoded again. */
  lemma DroppedRequestIsForgotten(s: State, x: Input, y: Input)
    requires s.core.fsm.Decode? && Serves(s) && LooksAtInsn(s, x)
    requires !x.debugReq && !s.core.debugMode
    requires !y.irq && !y.dataErr
    ensures var t := Step(Step(s, x), y);
            t.core.fsm.Decode? && t.core.irqFlushQ && t.irq.cs.Idle? && !Ack(t) && !Ack(Step(s, x))
  {
  }

  // ------------------------------------------------------ sleep, debug and traps

  /** Units are ready, and nothing comes from outside. */
  predicate Calm(x: Input) {
    && x.idReady && x.exValid && x.fetchEnable
    && !x.dataErr && !x.fetchFailed && !x.debugReq && !x.singleStep && !x.irq
  }

  predicate Settled(s: State) { s.core.fsm.Decode? || s.core.fsm.Sleep? }

  /** From every state, reset included, four calm cycles suffice to decode or to sleep. */
  lemma ControllerSettles(s: State, w: Input, x: Input, y: Input, z: Input)
    requires Calm(w) && Calm(x) && Calm(y) && Calm(z)
    ensures var t1 := Step(s, w); var t2 := Step(t1, x); var t3 := Step(t2, y);
            Settled(s) || Settled(t1) || Settled(t2) || Settled(t3) || Settled(Step(t3, z))
  {
    hide NextIrq, NextStatus, Serves;
  }

  /** Nothing but an interrupt, masked or not, or the debugger ends the sleep. */
  lemma SleepsUntilWoken(s: State, x: Input)
    requires s.core.fsm.Sleep?
    ensures Step(s, x).core.fsm == if x.irq || x.debugReq || s.core.debugMode || x.singleStep then FirstFetch else Sleep
  {
  }

  /** An interrupt that wakes the core is taken before the next instruction if it is
      enabled, with the id it came with; a masked one lets the core go on. */
  lemma InterruptEndsSleep(s: State, x: Input, y: Input)
    requires Inv(s) && s.core.fsm.Sleep? && !s.core.statusInEx && x.irq && (y.debugReq ==> s.core.debugMode)
    ensures var t := Step(Step(s, x), y);
            && (s.status.mie ==> t.core.fsm.IrqTakenIf? && Ack(t)
                                 && t.irq == IrqReg(Pending, if s.irq.cs.Pending? then s.irq.id else x.irqId))
            && (!s.status.mie && y.idReady ==> t.core.fsm.Decode? && t.status == s.status)
  {
    SleepsUntilWoken(s, x);
  }

  /** A wfi that nothing interrupts puts the core to sleep. */
  lemma WfiSleeps(s: State, x: Input, y: Input, z: Input, w: Input)
    requires s.core.fsm.Decode? && LooksAtInsn(s, x) && !TakesIrq(s, x) && !EntersDebug(s, x) && !x.singleStep
    requires x.insn.Wfi? && !x.illegal && !s.core.illegalQ
    requires y.exValid && !y.dataErr && z.insn.Wfi? && !z.fetchFailed
    ensures var t := Step(Step(Step(Step(s, x), y), z), w); t.core.fsm.Sleep?
  {
    hide NextIrq, NextStatus;
  }

  /** A debug request goes before any interrupt: it enters debug mode in three cycles,
      with no acknowledgement on the way. */
  lemma DebugRequestIsTaken(s: State, x: Input, y: Input, z: Input)
    requires s.core.fsm.Decode? && LooksAtInsn(s, x) && x.debugReq && !s.core.debugMode && !y.dataErr
    ensures var (t, u) := (Step(s, x), Step(Step(s, x), y));
            && !Ack(t) && !Ack(u)
            && (u.core.fsm.DbgTakenId? || u.core.fsm.DbgTakenIf?)
            && Step(u, z).core.fsm.Decode? && Step(u, z).core.debugMode
  {
    hide NextIrq, NextStatus;
  }

  /** In debug mode the decode stage leaves interrupts pending. */
  lemma DebugModeHoldsInterrupts(s: State, x: Input)
    requires s.core.fsm.Decode? && s.core.debugMode
    ensures !Step(s, x).core.fsm.IrqFlush? && !Ack(Step(s, x))
  {
  }

  /** A single-stepped instruction of the plain kind is followed by debug mode. */
  lemma StepEntersDebug(s: State, x: Input, y: Input, z: Input)
    requires s.core.fsm.Decode? && LooksAtInsn(s, x) && !TakesIrq(s, x) && !x.debugReq && !s.core.debugMode
    requires x.singleStep && x.idReady && !x.illegal && x.insn.Other?
    requires y.singleStep && y.insn.Other? && !y.dataErr
    ensures Step(Step(s, x), y).core.fsm.DbgTakenIf? && Step(Step(Step(s, x), y), z).core.debugMode
  {
    hide NextIrq, NextStatus;
  }

  /** A dret leaves debug mode. */
  lemma DretLeavesDebug(s: State, x: Input, y: Input)
    requires s.core.fsm.FlushWb? && !s.core.dataErrQ && !x.fetchFailed && !s.core.illegalQ
    requires x.insn.Dret? && !x.illegal && y.insn.Dret?
    ensures !Step(Step(s, x), y).core.debugMode
  {
    hide NextIrq, NextStatus;
  }

  /** A load event that has arrived lets an enabled interrupt in. */
  lemma LoadEventServes(s: State, x: Input, y: Input)
    requires Inv(s) && s.core.fsm.ElwExe? && x.idReady && !EntersDebug(s, x) && !WritesStatus(s, x)
    requires y.irq && s.status.mie && !y.dataErr
    ensures var t := Step(Step(s, x), y); t.core.fsm.IrqTakenId? && t.irq.cs.Pending?
  {
    StepKeepsInv(s, x);
    StepKeepsInv(Step(s, x), y);
  }

  // ------------------------------------------------- what the handler's mret restores

  /** The instruction in ID traps: nothing older, no interrupt and no debugger comes
      before it, and it is illegal, an ecall or an ebreak not meant for the debugger. */
  predicate Traps(s: State, x: Input) {
    && s.core.fsm.Decode? && LooksAtInsn(s, x)
    && !(s.irq.cs.Pending? && s.status.mie && !s.core.debugMode) && (x.debugReq ==> s.core.debugMode)
    && (x.illegal || x.insn.Ecall? || (x.insn.Ebreak? && !s.core.debugMode && !x.ebreakToDebug))
  }

  /** It masks interrupts, keeps the old enable bit, forgets a pending request, and
      flushes the pipeline. */
  lemma TrapMasks(s: State, x: Input)
    requires Traps(s, x)
    ensures var t := Step(s, x);
            t.status == Status(false, s.status.mie) && t.core.fsm.FlushEx? && (s.irq.cs.Pending? ==> t.irq.cs.Idle?)
  {
  }

  /** EX and its neighbours in this configuration: ID is ready only if EX is, a CSR
      instruction in EX makes valid and ready the same, and without the protection
      unit there are no memory errors. */
  predicate Env(s: State, x: Input) {
    && (x.idReady ==> x.exReady)
    && (s.core.statusInEx ==> x.exValid == x.exReady)
    && !x.dataErr && !x.fetchFailed
  }

  predicate EnvRun(xs: seq<Input>) { forall k :: 0 <= k < |xs| ==> Env(At(xs, k), xs[k]) }

  /** While a status instruction is in EX the controller waits for it, or is on its
      way into the debugger, or decodes there, where it serves no interrupt. */
  predicate StatusInv(s: State) {
    s.core.statusInEx ==>
      || s.core.fsm.FlushEx? || s.core.fsm.DbgFlush? || s.core.fsm.DbgTakenId? || s.core.fsm.DbgTakenIf?
      || (s.core.fsm.Decode? && s.core.debugMode)
  }

  lemma StepKeepsStatusInv(s: State, x: Input)
    requires StatusInv(s) && Env(s, x)
    ensures StatusInv(Step(s, x))
    ensures !Ack(s) && Ack(Step(s, x)) ==> !s.core.statusInEx && Step(s, x).status == s.status && s.status.mie
  {
    hide NextIrq;
  }

  /** The invariant over a cycle of a run, and an interrupt taken with mie set. */
  predicate Masked(s: State) { StatusInv(s) && (Ack(s) ==> s.status.mie) }

  lemma CycleKeepsMasked(xs: seq<Input>, k: nat)
    requires k < |xs| && Env(At(xs, k), xs[k])
    ensures Masked(At(xs, k)) ==> Masked(At(xs, k + 1))
  {
    hide Step, Ack, StatusInv, Env;
    if Masked(At(xs, k)) {
      StepKeepsStatusInv(At(xs, k), xs[k]);
      AckIsBrief(At(xs, k), xs[k]);
    }
  }

  lemma {:induction false} RunKeepsStatusInv(xs: seq<Input>, k: nat)
    requires k <= |xs| && EnvRun(xs)
    ensures Masked(At(xs, k))
  {
    hide At, Masked, Env;
    if k > 0 {
      RunKeepsStatusInv(xs, k - 1);
      assert Env(At(xs, k - 1), xs[k - 1]);
      CycleKeepsMasked(xs, k - 1);
    } else {
      StartIsMasked(xs);
    }
  }

  lemma StartIsMasked(xs: seq<Input>)
    ensures Masked(At(xs, 0))
  {
  }

  lemma AckIsBrief(s: State, x: Input)
    ensures Ack(s) ==> !Ack(Step(s, x)) && NextStatus(s, x) == Status(false, s.status.mie)
  {
    hide NextIrq;
  }

  /** In every run an interrupt is taken with mie set, however long after the
      decision to serve it, so that the handler runs masked and its mret enables
      interrupts again. */
  lemma AckSavesEnabled(xs: seq<Input>, k: nat)
    requires k < |xs| && EnvRun(xs) && AckAt(xs, k)
    ensures At(xs, k).status.mie && At(xs, k + 1).status == Status(false, true)
  {
    hide NextIrq, NextCore;
    RunKeepsStatusInv(xs, k);
    AckIsBrief(At(xs, k), xs[k]);
  }

  /** Nothing happens to mstatus in this cycle. */
  predicate StatusRests(s: State, x: Input) {
    !WritesStatus(s, x) && !SavesCause(s, x) && !RestoresMret(s, x)
  }

  lemma RestKeepsStatus(xs: seq<Input>, k: nat)
    requires k < |xs|
    ensures StatusRests(At(xs, k), xs[k]) ==> At(xs, k + 1).status == At(xs, k).status
  {
    hide NextIrq, NextCore;
  }

  lemma {:induction false} StatusIsKept(xs: seq<Input>, k: nat, m: nat)
    requires k < m <= |xs| && EnvRun(xs) && AckAt(xs, k)
    requires forall j :: k < j < m ==> StatusRests(At(xs, j), xs[j])
    ensures At(xs, m).status == Status(false, true)
  {
    hide At, AckAt, EnvRun, StatusRests;
    if m == k + 1 {
      AckSavesEnabled(xs, k);
    } else {
      StatusIsKept(xs, k, m - 1);
      RestKeepsStatus(xs, m - 1);
    }
  }

  /** A handler that leaves mstatus alone and is not trapped returns with interrupts
      enabled. */
  lemma MretReenables(xs: seq<Input>, k: nat, m: nat)
    requires k < m < |xs| && EnvRun(xs) && AckAt(xs, k) && RestoresMret(At(xs, m), xs[m])
    requires forall j :: k < j < m ==> StatusRests(At(xs, j), xs[j])
    ensures At(xs, m + 1).status == Status(true, true)
  {
    hide NextIrq, NextCore;
    StatusIsKept(xs, k, m);
  }

  lemma {:induction false} SavedIsKept(xs: seq<Input>, k: nat, m: nat)
    requires k < m <= |xs| && Traps(At(xs, k), xs[k])
    requires forall j :: k < j < m ==> StatusRests(At(xs, j), xs[j])
    ensures At(xs, m).status == Status(false, At(xs, k).status.mie)
  {
    hide At, StatusRests;
    if m == k + 1 {
      TrapMasksAt(xs, k);
    } else {
      SavedIsKept(xs, k, m - 1);
      RestKeepsStatus(xs, m - 1);
    }
  }

  lemma TrapMasksAt(xs: seq<Input>, k: nat)
    requires k < |xs| && Traps(At(xs, k), xs[k])
    ensures At(xs, k + 1).status == Status(false, At(xs, k).status.mie)
  {
    TrapMasks(At(xs, k), xs[k]);
  }

  /** A handler of a trap that leaves mstatus alone returns with the enable bit that
      was set when the trap came. */
  lemma MretRestoresTrap(xs: seq<Input>, k: nat, m: nat)
    requires k < m < |xs| && Traps(At(xs, k), xs[k]) && RestoresMret(At(xs, m), xs[m])
    requires forall j :: k < j < m ==> StatusRests(At(xs, j), xs[j])
    ensures At(xs, m + 1).status == Status(At(xs, k).status.mie, true)
  {
    hide NextIrq, NextCore, Traps;
    SavedIsKept(xs, k, m);
  }

  // ------------------------------------------------------- the clocked registers

  class IntController {
    var cs: IrqFsm
    var irqId: nat

    function Abs(): IrqReg reads this { IrqReg(cs, irqId) }

    constructor ()
      ensures Abs() == RESET.irq
    {
      cs, irqId := Idle, 0;
    }

    method Clock(mie: bool, ack: bool, kill: bool, x: Input)
      modifies this
      ensures Abs() == NextIrq(old(Abs()), mie, ack, kill, x)
    {
      match cs {
        case Idle =>
          if mie && x.irq {
            cs, irqId := Pending, x.irqId;
          }
        case Pending =>
          if ack {
            cs := Done;
          } else if kill {
            cs := Idle;
          }
        case Done =>
          cs := Idle;
      }
    }
  }

  /** The controller and CSR registers, with the interrupt controller beside them. */
  class Machine {
    const intController: IntController
    var core: Core
    var status: Status

    function Abs(): State reads this, intController { State(intController.Abs(), core, status) }

    ghost predicate Valid() reads this, intController { Inv(Abs()) }

    constructor ()
      ensures Valid() && Abs() == RESET && fresh(intController)
    {
      intController := new IntController();
      core, status := RESET.core, RESET.status;
    }

    /** One edge.  The acknowledgement reaches the device with the latched id. */
    method Clock(x: Input) returns (ack: bool, id: nat)
      requires Valid()
      modifies this, intController
      ensures Valid() && Abs() == Step(old(Abs()), x)
      ensures ack == Ack(old(Abs())) && id == old(intController.irqId)
      ensures ack ==> old(intController.cs).Pending? && intController.cs.Done? && !status.mie
    {
      StepKeepsInv(Abs(), x);
      var s := Abs();
      ack, id := Ack(s), s.irq.id;
      core, status := NextCore(s, x), NextStatus(s, x);
      intController.Clock(s.status.mie, ack, Kill(s, x), x);
    }
  }
}

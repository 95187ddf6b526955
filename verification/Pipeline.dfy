// The in-order pipeline of the core: ID with its forwarding muxes and stalls,
// the ID/EX and EX/WB registers, and the register file with its two write
// ports.  One call of Step is one rising clock edge.  The load/store unit, the
// ALU's internal latency and the instruction stream are inputs.

module Pipeline {
  type Word = int
  type Reg = r: nat | r < 32
  type RegFile = rf: seq<Word> | |rf| == 32 witness seq(32, _ => 0)

  /** What an instruction computes from its (up to three) operands. */
  type Op = (Word, Word, Word) -> Word

  datatype Jump = NoJump | Jal | Jalr | Cond

  /** A decoded instruction: the sources it uses, the result it writes from EX
      (port B), the load result it writes from WB (port A), and its jump kind. */
  datatype Instr = Instr(
    usedA: bool, ra: Reg, usedB: bool, rb: Reg, usedC: bool, rc: Reg,
    aluEn: bool, multEn: bool, aluWe: bool, aluWaddr: Reg, alu: Op,
    memReq: bool, memWe: bool, memWaddr: Reg, load: Op,
    jump: Jump)

  /** What the decoder guarantees of every instruction. */
  ghost predicate WellFormed(i: Instr) {
    && (i.memWe ==> i.memReq)
    && (i.aluWe ==> i.aluEn || i.multEn)
    && (i.memReq || i.jump == Cond ==> i.aluEn)
    && (i.jump == Cond ==> !i.aluWe && !i.memReq)
    && (i.jump == Jalr ==> i.usedA)
  }

  // ---------------------------------------------------------------- sequential

  function Write(rf: RegFile, we: bool, r: Reg, v: Word): RegFile {
    if we && r != 0 then rf[r := v] else rf
  }

  function Read(rf: RegFile, used: bool, r: Reg): Word {
    if used then rf[r] else 0
  }

  /** One instruction executed alone, with everything older already written. */
  function Exec(rf: RegFile, i: Instr): RegFile {
    var a, b, c := Read(rf, i.usedA, i.ra), Read(rf, i.usedB, i.rb), Read(rf, i.usedC, i.rc);
    Write(Write(rf, i.aluWe, i.aluWaddr, i.alu(a, b, c)), i.memWe, i.memWaddr, i.load(a, b, c))
  }

  function ExecAll(rf: RegFile, prog: seq<Instr>): RegFile {
    if prog == [] then rf else Exec(ExecAll(rf, prog[..|prog| - 1]), prog[|prog| - 1])
  }

  // ------------------------------------------------------------------ hardware

  /** ID/EX register.  `load` is not hardware: it is the value that the load in
      EX will receive from memory. */
  datatype ExReg = ExReg(
    aluEn: bool, multEn: bool, aluWe: bool, aluWaddr: Reg, op: Op, a: Word, b: Word, c: Word,
    dataReq: bool, memWe: bool, memWaddr: Reg, load: Word, branch: bool)

  /** EX/WB register, with the value its load will receive. */
  datatype WbReg = WbReg(we: bool, waddr: Reg, load: Word)

  datatype State = State(rf: RegFile, ex: ExReg, wb: WbReg, jumpDone: bool)

  /** What the controller does with ID: decode it, decode it but hold it back
      (interrupt or debug entry, illegal instruction), or not decode at all. */
  datatype Mode = Decoding | Held | NotDecoding(halt: bool)

  /** One cycle's inputs.  `junk` is what the ALU port carries while a
      multi-cycle operation is not finished, `rdata` what the load/store unit
      returns (meaningless until wbReady). */
  datatype Input = Input(
    instr: Instr, mode: Mode, taken: bool,
    aluReady: bool, junk: Word, lsuReadyEx: bool, wbReady: bool, rdata: Word)

  function BranchTaken(s: State, x: Input): bool { s.ex.branch && x.taken }

  function IsDecoding(s: State, x: Input): bool { !BranchTaken(s, x) && !x.mode.NotDecoding? }

  function HaltId(s: State, x: Input): bool {
    !BranchTaken(s, x) && (x.mode.Held? || (x.mode.NotDecoding? && x.mode.halt))
  }

  function AluWdata(s: State, x: Input): Word {
    if x.aluReady then s.ex.op(s.ex.a, s.ex.b, s.ex.c) else x.junk
  }

  function Depends(waddr: Reg, used: bool, r: Reg): bool { waddr == r && used && r != 0 }

  function ExReady(s: State, x: Input): bool {
    (x.aluReady && x.lsuReadyEx && x.wbReady) || s.ex.branch
  }

  function ExValid(s: State, x: Input): bool {
    (s.ex.aluEn || s.ex.multEn || s.ex.dataReq) && x.aluReady && x.lsuReadyEx && x.wbReady
  }

  function LoadStall(s: State, x: Input): bool {
    && ((s.ex.dataReq && s.ex.memWe) || (!x.wbReady && s.wb.we))
    && (|| Depends(s.ex.memWaddr, x.instr.usedA, x.instr.ra)
        || Depends(s.ex.memWaddr, x.instr.usedB, x.instr.rb)
        || Depends(s.ex.memWaddr, x.instr.usedC, x.instr.rc)
        || (IsDecoding(s, x) && x.instr.aluWe && s.ex.memWaddr == x.instr.aluWaddr))
  }

  function JrStall(s: State, x: Input): bool {
    && x.instr.jump == Jalr
    && (|| (s.wb.we && Depends(s.wb.waddr, x.instr.usedA, x.instr.ra))
        || (s.ex.memWe && Depends(s.ex.memWaddr, x.instr.usedA, x.instr.ra))
        || (s.ex.aluWe && Depends(s.ex.aluWaddr, x.instr.usedA, x.instr.ra)))
  }

  function IdReady(s: State, x: Input): bool { !JrStall(s, x) && !LoadStall(s, x) && ExReady(s, x) }

  function IdValid(s: State, x: Input): bool { !HaltId(s, x) && IdReady(s, x) }

  /** deassert_we: the write enables of the ID instruction are gated off. */
  function DeassertWe(s: State, x: Input): bool {
    !IsDecoding(s, x) || LoadStall(s, x) || JrStall(s, x)
  }

  /** The ID instruction enters EX with its effects enabled. */
  function Issues(s: State, x: Input): bool { IdValid(s, x) && !DeassertWe(s, x) }

  function Forward(s: State, x: Input, used: bool, r: Reg): Word {
    if s.ex.aluWe && Depends(s.ex.aluWaddr, used, r) then AluWdata(s, x)
    else if s.wb.we && Depends(s.wb.waddr, used, r) then x.rdata
    else s.rf[r]
  }

  /** The operand muxes pick a forwarded source only if the decoder uses it. */
  function Operand(s: State, x: Input, used: bool, r: Reg): Word {
    if used then Forward(s, x, used, r) else 0
  }

  /** pc_set for a jump decoded in ID. */
  function PcSetJump(s: State, x: Input): bool {
    && IsDecoding(s, x) && x.mode == Decoding
    && (x.instr.jump == Jal || x.instr.jump == Jalr)
    && !JrStall(s, x) && !s.jumpDone
  }

  /** Port B wins over port A; register 0 is never written. */
  function WritePorts(rf: RegFile, weA: bool, waddrA: Reg, wdataA: Word,
                      weB: bool, waddrB: Reg, wdataB: Word): RegFile {
    seq(32, i requires 0 <= i < 32 =>
      if i == 0 then 0 else if weB && waddrB == i then wdataB
      else if weA && waddrA == i then wdataA else rf[i])
  }

  function NextRf(s: State, x: Input): RegFile {
    WritePorts(s.rf, s.wb.we, s.wb.waddr, x.rdata, s.ex.aluWe, s.ex.aluWaddr, AluWdata(s, x))
  }

  function LatchWb(wb: WbReg, ex: ExReg, exValid: bool, wbReady: bool): WbReg {
    if exValid then if ex.memWe then WbReg(true, ex.memWaddr, ex.load) else wb.(we := false)
    else if wbReady then wb.(we := false)
    else wb
  }

  function NextWb(s: State, x: Input): WbReg { LatchWb(s.wb, s.ex, ExValid(s, x), x.wbReady) }

  /** ID/EX when the ID instruction moves on, with its write enables if `on`.
      Note which fields keep their old value. */
  function Unstall(ex: ExReg, i: Instr, on: bool, taken: bool, a: Word, b: Word, c: Word): ExReg {
    var capture := (i.aluEn && !taken) || (on && i.multEn);
    ExReg(
      i.aluEn || taken, on && i.multEn,
      on && i.aluWe, if on && i.aluWe then i.aluWaddr else ex.aluWaddr,
      if capture then i.alu else ex.op,
      if capture then a else ex.a, if capture then b else ex.b, if capture then c else ex.c,
      on && i.memReq,
      on && i.memWe, if on && i.memWe then i.memWaddr else ex.memWaddr,
      if on && i.memWe then i.load(a, b, c) else ex.load,
      on && i.jump == Cond)
  }

  /** ID/EX when EX is ready and ID has nothing for it. */
  function Bubble(ex: ExReg): ExReg {
    ex.(aluEn := true, multEn := false, aluWe := false, memWe := false, dataReq := false, branch := false)
  }

  function NextEx(s: State, x: Input): ExReg {
    var i := x.instr;
    if IdValid(s, x) then
      Unstall(s.ex, i, !DeassertWe(s, x), BranchTaken(s, x),
              Operand(s, x, i.usedA, i.ra), Operand(s, x, i.usedB, i.rb), Operand(s, x, i.usedC, i.rc))
    else if ExReady(s, x) then Bubble(s.ex)
    else s.ex
  }

  function Step(s: State, x: Input): State {
    State(NextRf(s, x), NextEx(s, x), NextWb(s, x), (s.jumpDone || PcSetJump(s, x)) && !IdReady(s, x))
  }

  // ---------------------------------------------------------------- invariants

  /** The register file once EX and WB have written what they still hold. */
  function Drained(s: State): RegFile {
    Write(Write(Write(s.rf, s.wb.we, s.wb.waddr, s.wb.load),
                s.ex.aluWe, s.ex.aluWaddr, s.ex.op(s.ex.a, s.ex.b, s.ex.c)),
          s.ex.memWe, s.ex.memWaddr, s.ex.load)
  }

  /** The stale address: while a branch is in EX and a load waits in WB, the EX
      load address still names the register of the load in WB. */
  predicate StaleAddress(s: State) { s.ex.branch && s.wb.we ==> s.ex.memWaddr == s.wb.waddr }

  /** `arch` is the register file of the sequential execution so far. */
  ghost predicate Inv(s: State, arch: RegFile) {
    && Drained(s) == arch
    && StaleAddress(s)
    && s.rf[0] == 0
    && (s.ex.memWe ==> s.ex.dataReq)
    && (s.ex.branch ==> !s.ex.aluWe && !s.ex.memWe)
    && (s.jumpDone ==> !s.ex.branch)
  }

  /** The load/store unit returns the loaded value when it is ready in WB. */
  ghost predicate Env(s: State, x: Input) {
    && WellFormed(x.instr)
    && (x.wbReady && s.wb.we ==> x.rdata == s.wb.load)
  }

  function Retire(s: State, x: Input, arch: RegFile): RegFile {
    if Issues(s, x) then Exec(arch, x.instr) else arch
  }

  predicate Uses(i: Instr, r: Reg) {
    (i.usedA && i.ra == r) || (i.usedB && i.rb == r) || (i.usedC && i.rc == r)
  }

  lemma OperandIsArchitectural(s: State, x: Input, arch: RegFile, used: bool, r: Reg)
    requires Inv(s, arch) && Env(s, x) && IdReady(s, x)
    requires used ==> Uses(x.instr, r)
    ensures Operand(s, x, used, r) == Read(arch, used, r)
  {
  }

  /** What register r holds once WB has written. */
  function AfterWb(rf: RegFile, wb: WbReg, r: Reg): Word { Write(rf, wb.we, wb.waddr, wb.load)[r] }

  /** When EX moves on, its results are in the register file or in WB; when it
      stays, nothing is lost either. */
  lemma ExLeaves(s: State, x: Input, arch: RegFile, r: Reg)
    requires Inv(s, arch) && Env(s, x)
    ensures ExReady(s, x) ==> AfterWb(NextRf(s, x), NextWb(s, x), r) == arch[r]
    ensures !ExReady(s, x) ==> Drained(s.(rf := NextRf(s, x), wb := NextWb(s, x)))[r] == arch[r]
  {
  }

  lemma StepKeepsRegister(s: State, x: Input, arch: RegFile, r: Reg)
    requires Inv(s, arch) && Env(s, x)
    ensures Drained(Step(s, x))[r] == Retire(s, x, arch)[r]
  {
    hide Inv, Operand, NextRf, NextWb, LoadStall, JrStall;
    var i := x.instr;
    ExLeaves(s, x, arch, r);
    if Issues(s, x) {
      OperandIsArchitectural(s, x, arch, i.usedA, i.ra);
      OperandIsArchitectural(s, x, arch, i.usedB, i.rb);
      OperandIsArchitectural(s, x, arch, i.usedC, i.rc);
    }
  }

  lemma StepKeepsDrained(s: State, x: Input, arch: RegFile)
    requires Inv(s, arch) && Env(s, x)
    ensures Drained(Step(s, x)) == Retire(s, x, arch)
  {
    forall r: Reg ensures Drained(Step(s, x))[r] == Retire(s, x, arch)[r] {
      StepKeepsRegister(s, x, arch, r);
    }
  }

  lemma StepKeepsInv(s: State, x: Input, arch: RegFile)
    requires Inv(s, arch) && Env(s, x)
    ensures Inv(Step(s, x), Retire(s, x, arch))
  {
    StepKeepsDrained(s, x, arch);
  }

  // ---------------------------------------------------------------- whole runs

  function Reset(): State {
    State(seq(32, _ => 0), ExReg(false, false, false, 0, (a, b, c) => 0, 0, 0, 0, false, false, 0, 0, false),
          WbReg(false, 0, 0), false)
  }

  function Run(xs: seq<Input>): State {
    if xs == [] then Reset() else Step(Run(xs[..|xs| - 1]), xs[|xs| - 1])
  }

  /** The program order: the instructions that left ID with effect. */
  function Issued(xs: seq<Input>): seq<Instr> {
    if xs == [] then []
    else
      var before := xs[..|xs| - 1];
      if Issues(Run(before), xs[|xs| - 1]) then Issued(before) + [xs[|xs| - 1].instr] else Issued(before)
  }

  /** The register file of executing the issued instructions one at a time. */
  function Sequential(xs: seq<Input>): RegFile { ExecAll(Reset().rf, Issued(xs)) }

  ghost predicate EnvRun(xs: seq<Input>) {
    xs != [] ==> EnvRun(xs[..|xs| - 1]) && Env(Run(xs[..|xs| - 1]), xs[|xs| - 1])
  }

  lemma {:induction false} RunKeepsInv(xs: seq<Input>)
    requires EnvRun(xs)
    ensures Inv(Run(xs), Sequential(xs))
  {
    if xs != [] {
      var before, x := xs[..|xs| - 1], xs[|xs| - 1];
      RunKeepsInv(before);
      StepKeepsInv(Run(before), x, Sequential(before));
      assert Sequential(xs) == Retire(Run(before), x, Sequential(before)) by {
        assert (Issued(before) + [x.instr])[..|Issued(before)|] == Issued(before);
      }
    }
  }

  /** Whatever the stalls, an instruction that issues captures exactly the
      operands that one-at-a-time execution of all older ones would give it. */
  lemma IssuedOperandsAreSequential(xs: seq<Input>, x: Input)
    requires EnvRun(xs + [x]) && Issues(Run(xs), x)
    ensures var (s, rf, i, t) := (Run(xs), Sequential(xs), x.instr, Run(xs + [x]));
            && (i.usedA ==> Forward(s, x, true, i.ra) == rf[i.ra])
            && (i.usedB ==> Forward(s, x, true, i.rb) == rf[i.rb])
            && (i.usedC ==> Forward(s, x, true, i.rc) == rf[i.rc])
            && (i.aluWe ==> t.ex.aluWe && t.ex.aluWaddr == i.aluWaddr)
            && (i.aluWe ==> t.ex.op(t.ex.a, t.ex.b, t.ex.c)
                            == i.alu(Read(rf, i.usedA, i.ra), Read(rf, i.usedB, i.rb), Read(rf, i.usedC, i.rc)))
  {
    assert (xs + [x])[..|xs|] == xs;
    RunKeepsInv(xs);
    var (s, rf, i) := (Run(xs), Sequential(xs), x.instr);
    OperandIsArchitectural(s, x, rf, i.usedA, i.ra);
    OperandIsArchitectural(s, x, rf, i.usedB, i.rb);
    OperandIsArchitectural(s, x, rf, i.usedC, i.rc);
  }

  // ------------------------------------------------------- what takes no effect

  /** EX holds nothing that writes a register, reaches memory or branches. */
  predicate Inert(ex: ExReg) { !ex.aluWe && !ex.memWe && !ex.dataReq && !ex.branch && !ex.multEn }

  predicate Ready(x: Input) { x.aluReady && x.lsuReadyEx && x.wbReady }

  /** The instruction in ID is in the shadow of a taken branch, or the controller
      does not decode it, or holds it back. */
  predicate NotWanted(s: State, x: Input) { (s.ex.branch && x.taken) || x.mode != Decoding }

  /** Then nothing of it reaches EX, no result is added or lost, and it does not
      redirect the fetch; a branch never waits in EX. */
  lemma NotWantedIsSquashed(s: State, x: Input, arch: RegFile)
    requires Inv(s, arch) && Env(s, x) && NotWanted(s, x)
    ensures var t := Step(s, x);
            && (if s.ex.branch || Ready(x) then Inert(t.ex) else t.ex == s.ex)
            && Drained(t) == Drained(s) == arch
            && !PcSetJump(s, x)
  {
    StepKeepsDrained(s, x, arch);
    hide Inv, Operand, NextRf, NextWb, LoadStall, JrStall;
  }

  /** So the program order of a run has nothing from the shadow of a taken branch
      and nothing that was held or not decoded. */
  lemma NotWantedNeverIssues(xs: seq<Input>, x: Input)
    requires EnvRun(xs + [x]) && NotWanted(Run(xs), x)
    ensures Issued(xs + [x]) == Issued(xs) && Sequential(xs + [x]) == Sequential(xs)
    ensures Drained(Run(xs + [x])) == Sequential(xs)
  {
    assert (xs + [x])[..|xs|] == xs;
    RunKeepsInv(xs + [x]);
  }

  /** A load that will write register r is in EX or WB. */
  predicate LoadAwaited(s: State, r: Reg) { (s.ex.memWe && s.ex.memWaddr == r) || (s.wb.we && s.wb.waddr == r) }

  /** Or any other result for it is in EX. */
  predicate Awaited(s: State, r: Reg) { LoadAwaited(s, r) || (s.ex.aluWe && s.ex.aluWaddr == r) }

  /** Nothing but a hazard holds an instruction: it issues whenever EX moves on,
      unless it touches the register of a load under way, or is a JALR whose
      source is still to be written. */
  lemma OnlyHazardsHold(s: State, x: Input, arch: RegFile)
    requires Inv(s, arch) && Env(s, x) && !NotWanted(s, x) && (s.ex.branch || Ready(x))
    requires forall r: Reg :: LoadAwaited(s, r) ==> !(Uses(x.instr, r) && r != 0) && !(x.instr.aluWe && x.instr.aluWaddr == r)
    requires x.instr.jump == Jalr && x.instr.ra != 0 ==> !Awaited(s, x.instr.ra)
    ensures Issues(s, x)
  {
    assert LoadAwaited(s, s.wb.waddr) || !s.wb.we;
    assert LoadAwaited(s, s.ex.memWaddr) || !s.ex.memWe;
  }

  // ------------------------------------- memory requests, branches and results

  /** What EX does with an instruction: what it asks of memory, whether it may
      branch, and the operation on captured operands. */
  datatype Effect = Effect(memReq: bool, memWe: bool, branch: bool, value: Word)

  /** What the sequential execution makes of it, from the registers before it. */
  function EffectOf(rf: RegFile, i: Instr): Effect {
    var a, b, c := Read(rf, i.usedA, i.ra), Read(rf, i.usedB, i.rb), Read(rf, i.usedC, i.rc);
    Effect(i.memReq, i.memWe, i.jump == Cond, i.alu(a, b, c))
  }

  predicate Visible(e: Effect) { e.memReq || e.branch }

  function Sequence(rf: RegFile, prog: seq<Instr>): seq<Effect> {
    if prog == [] then []
    else
      var (before, e) := (prog[..|prog| - 1], EffectOf(ExecAll(rf, prog[..|prog| - 1]), prog[|prog| - 1]));
      Sequence(rf, before) + if Visible(e) then [e] else []
  }

  /** What is in EX. */
  function InEx(s: State): seq<Effect> {
    var ex := s.ex;
    var e := Effect(ex.dataReq, ex.memWe, ex.branch, ex.op(ex.a, ex.b, ex.c));
    if Visible(e) then [e] else []
  }

  /** What has left EX, in the order of leaving: a branch leaves in every cycle,
      anything else when the units are ready. */
  function Performed(xs: seq<Input>): seq<Effect> {
    if xs == [] then []
    else
      var before, x := xs[..|xs| - 1], xs[|xs| - 1];
      Performed(before) + if Run(before).ex.branch || Ready(x) then InEx(Run(before)) else []
  }

  lemma StepKeepsEffects(s: State, x: Input, arch: RegFile)
    requires Inv(s, arch) && Env(s, x)
    ensures var moved := if s.ex.branch || Ready(x) then InEx(s) else [];
            var e := EffectOf(arch, x.instr);
            moved + InEx(Step(s, x)) == InEx(s) + if Issues(s, x) && Visible(e) then [e] else []
  {
    hide Operand, NextRf, NextWb, LoadStall, JrStall;
    var i := x.instr;
    if Issues(s, x) {
      OperandIsArchitectural(s, x, arch, i.usedA, i.ra);
      OperandIsArchitectural(s, x, arch, i.usedB, i.rb);
      OperandIsArchitectural(s, x, arch, i.usedC, i.rc);
    }
  }

  lemma SequenceGrows(rf: RegFile, prog: seq<Instr>, i: Instr)
    ensures var e := EffectOf(ExecAll(rf, prog), i);
            Sequence(rf, prog + [i]) == Sequence(rf, prog) + if Visible(e) then [e] else []
  {
    assert (prog + [i])[..|prog|] == prog;
  }

  lemma ResetIsInert()
    ensures InEx(Run([])) == Sequence(Reset().rf, []) == []
  {
  }

  /** Over any run every memory request and every conditional branch of the program
      passes EX exactly once, in order, with the operands of the sequential
      execution, and nothing else does. */
  lemma {:induction false} EffectsAreSequential(xs: seq<Input>)
    requires EnvRun(xs)
    ensures Performed(xs) + InEx(Run(xs)) == Sequence(Reset().rf, Issued(xs))
  {
    hide Inv, Env, Step, Issues, InEx, EffectOf, Visible, ExecAll, Sequence, Ready, Reset;
    if xs == [] {
      ResetIsInert();
    } else {
      var before, x := xs[..|xs| - 1], xs[|xs| - 1];
      var (s, arch) := (Run(before), Sequential(before));
      EffectsAreSequential(before);
      RunKeepsInv(before);
      StepKeepsEffects(s, x, arch);
      SequenceGrows(Reset().rf, Issued(before), x.instr);
      var moved := if s.ex.branch || Ready(x) then InEx(s) else [];
      assert Performed(xs) + InEx(Run(xs)) == Performed(before) + (moved + InEx(Step(s, x)));
    }
  }

  /** While a load waits in WB and a branch is in EX, the address the load stall
      compares with is the load's own, though EX has left it stale; so nothing
      that reads or rewrites that register can issue. */
  lemma WaitingLoadIsProtected(xs: seq<Input>, x: Input)
    requires EnvRun(xs + [x])
    requires Run(xs).ex.branch && Run(xs).wb.we
    ensures Run(xs).ex.memWaddr == Run(xs).wb.waddr
    ensures !x.wbReady && Issues(Run(xs), x) && Run(xs).wb.waddr != 0 ==>
              !Uses(x.instr, Run(xs).wb.waddr) && !(x.instr.aluWe && x.instr.aluWaddr == Run(xs).wb.waddr)
  {
    assert (xs + [x])[..|xs|] == xs;
    RunKeepsInv(xs);
  }

  predicate Empty(s: State) { !s.ex.aluWe && !s.ex.memWe && !s.wb.we }

  /** Once nothing is in flight the register file is the sequential one. */
  lemma EmptyPipelineIsSequential(xs: seq<Input>)
    requires EnvRun(xs) && Empty(Run(xs))
    ensures Run(xs).rf == Sequential(xs)
  {
    RunKeepsInv(xs);
  }

  lemma ReadyBubble(s: State, x: Input)
    requires Ready(x) && x.mode.NotDecoding?
    ensures !Issues(s, x)
    ensures var t := Step(s, x); !t.ex.aluWe && !t.ex.memWe && (!s.ex.memWe ==> !t.wb.we)
  {
  }

  /** Two ready cycles without decoding empty the pipeline. */
  lemma TwoReadyCyclesDrain(xs: seq<Input>, x: Input, y: Input)
    requires EnvRun(xs + [x] + [y])
    requires Ready(x) && Ready(y) && x.mode.NotDecoding? && y.mode.NotDecoding?
    ensures Empty(Run(xs + [x] + [y]))
    ensures Run(xs + [x] + [y]).rf == Sequential(xs)
  {
    var xy := xs + [x] + [y];
    assert xy[..|xs| + 1] == xs + [x] && (xs + [x])[..|xs|] == xs;
    ReadyBubble(Run(xs), x);
    ReadyBubble(Run(xs + [x]), y);
    assert Issued(xy) == Issued(xs + [x]) == Issued(xs);
    EmptyPipelineIsSequential(xy);
  }

  ghost predicate Attempts(x: Input, i: Instr) { Ready(x) && x.mode == Decoding && !x.taken && x.instr == i }

  /** No hazard holds an instruction for more than two cycles of ready units: a
      load in EX has to pass WB before a JALR may read its register. */
  lemma IssuesWithinThree(s: State, x: Input, y: Input, z: Input)
    requires Attempts(x, x.instr) && Attempts(y, x.instr) && Attempts(z, x.instr)
    ensures Issues(s, x) || Issues(Step(s, x), y) || Issues(Step(Step(s, x), y), z)
  {
    hide NextRf, Unstall;
  }

  lemma JalrSourceIsArchitectural(s: State, x: Input, arch: RegFile)
    requires Inv(s, arch) && Env(s, x) && PcSetJump(s, x) && x.instr.jump == Jalr
    ensures s.rf[x.instr.ra] == arch[x.instr.ra]
  {
  }

  /** The JALR target is computed from the register file without forwarding;
      whenever the jump is taken that register is architecturally up to date. */
  lemma JalrReadsSequentialValue(xs: seq<Input>, x: Input)
    requires EnvRun(xs + [x])
    requires PcSetJump(Run(xs), x) && x.instr.jump == Jalr
    ensures Run(xs).rf[x.instr.ra] == Sequential(xs)[x.instr.ra]
  {
    hide Inv, Env, PcSetJump, Step, Sequential;
    assert (xs + [x])[..|xs|] == xs;
    RunKeepsInv(xs);
    JalrSourceIsArchitectural(Run(xs), x, Sequential(xs));
  }

  /** How often pc_set fired for a jump since ID last moved on. */
  function JumpsSinceIdMoved(xs: seq<Input>): nat {
    if xs == [] then 0
    else
      var before, x := xs[..|xs| - 1], xs[|xs| - 1];
      if IdReady(Run(before), x) then 0
      else JumpsSinceIdMoved(before) + if PcSetJump(Run(before), x) then 1 else 0
  }

  lemma {:induction false} JumpDoneCounts(xs: seq<Input>)
    ensures JumpsSinceIdMoved(xs) == if Run(xs).jumpDone then 1 else 0
  {
    if xs != [] {
      JumpDoneCounts(xs[..|xs| - 1]);
    }
  }

  /** However long a jump is held in ID, it redirects the fetch exactly once by
      the time it leaves, and a redirect already sent is never squashed by an
      older branch. */
  lemma JumpRedirectsExactlyOnce(xs: seq<Input>, x: Input)
    requires EnvRun(xs + [x])
    ensures Issues(Run(xs), x) && (x.instr.jump == Jalr || x.instr.jump == Jal) ==>
              JumpsSinceIdMoved(xs) + (if PcSetJump(Run(xs), x) then 1 else 0) == 1
    ensures JumpsSinceIdMoved(xs) <= 1
    ensures JumpsSinceIdMoved(xs) == 1 ==> !PcSetJump(Run(xs), x) && !BranchTaken(Run(xs), x)
  {
    assert (xs + [x])[..|xs|] == xs;
    RunKeepsInv(xs);
    JumpDoneCounts(xs);
  }

  /** The stale address is essential: in every state that breaks nothing else, with
      a load waiting for a register other than 0, some instruction issues with
      whatever word is on the write port. */
  lemma StaleAddressIsEssential(s: State, garbage: Word) returns (x: Input)
    requires Inv(s.(ex := s.ex.(memWaddr := s.wb.waddr)), Drained(s)) && !StaleAddress(s)
    requires s.wb.waddr != 0 && garbage != s.wb.load
    ensures Env(s, x) && Issues(s, x) && x.instr.usedA && x.instr.ra == s.wb.waddr
    ensures Forward(s, x, true, x.instr.ra) == garbage != Drained(s)[x.instr.ra]
  {
    var first: Op := (a, b, c) => a;
    var i := Instr(true, s.wb.waddr, false, 0, false, 0, true, false, false, 0, first, false, false, 0, first, NoJump);
    x := Input(i, Decoding, false, true, 0, true, false, garbage);
  }

  // ------------------------------------------------------- the clocked registers

  /** riscv_register_file: 32 words written in place at each clock edge. */
  class RegisterFile {
    const mem: array<Word>

    ghost predicate Valid() reads this { mem.Length == 32 }

    function Contents(): RegFile
      requires Valid()
      reads this, mem
    { mem[..] }

    constructor ()
      ensures Valid() && fresh(mem) && Contents() == Reset().rf
    {
      mem := new Word[32](_ => 0);
    }

    method Clock(weA: bool, waddrA: Reg, wdataA: Word, weB: bool, waddrB: Reg, wdataB: Word)
      requires Valid()
      modifies mem
      ensures Contents() == WritePorts(old(Contents()), weA, waddrA, wdataA, weB, waddrB, wdataB)
    {
      mem[0] := 0;
      for i := 1 to 32
        invariant mem[0] == 0
        invariant forall k :: 1 <= k < i ==>
          mem[k] == WritePorts(old(Contents()), weA, waddrA, wdataA, weB, waddrB, wdataB)[k]
        invariant forall k :: i <= k < 32 ==> mem[k] == old(mem[k])
      {
        var weADec := weA && waddrA == i;
        var weBDec := weB && waddrB == i;
        if weBDec {
          mem[i] := wdataB;
        } else if weADec {
          mem[i] := wdataA;
        }
      }
    }
  }

  /** The pipeline registers of ID, EX and WB around the register file. */
  class Core {
    const registers: RegisterFile
    var idEx: ExReg
    var exWb: WbReg
    var jumpDoneQ: bool
    /** The register file of the sequential execution so far. */
    ghost var arch: RegFile

    function Abs(): State
      requires registers.Valid()
      reads this, registers, registers.mem
    {
      State(registers.Contents(), idEx, exWb, jumpDoneQ)
    }

    ghost predicate Valid() reads this, registers, registers.mem {
      registers.Valid() && Inv(Abs(), arch)
    }

    constructor ()
      ensures Valid() && fresh(registers) && fresh(registers.mem)
      ensures Abs() == Reset() && arch == Reset().rf
    {
      registers := new RegisterFile();
      var s := Reset();
      idEx, exWb, jumpDoneQ, arch := s.ex, s.wb, s.jumpDone, s.rf;
    }

    /** EX/WB register: the load address is stored only with its enable. */
    method ClockExWb(exValid: bool, wbReady: bool)
      modifies `exWb
      ensures exWb == LatchWb(old(exWb), idEx, exValid, wbReady)
    {
      if exValid {
        exWb := exWb.(we := idEx.memWe);
        if idEx.memWe {
          exWb := exWb.(waddr := idEx.memWaddr, load := idEx.load);
        }
      } else if wbReady {
        exWb := exWb.(we := false);
      }
    }

    /** ID/EX register when ID moves on.  Addresses and operands are stored only
        with their enables, so otherwise they stay stale. */
    method LatchIdEx(i: Instr, on: bool, taken: bool, a: Word, b: Word, c: Word)
      modifies `idEx
      ensures idEx == Unstall(old(idEx), i, on, taken, a, b, c)
    {
      var r := idEx.(aluEn := i.aluEn || taken, multEn := on && i.multEn, dataReq := on && i.memReq,
                     memWe := on && i.memWe, aluWe := on && i.aluWe, branch := on && i.jump == Cond);
      if (i.aluEn && !taken) || (on && i.multEn) {
        r := r.(op := i.alu, a := a, b := b, c := c);
      }
      if on && i.memWe {
        r := r.(memWaddr := i.memWaddr, load := i.load(a, b, c));
      }
      if on && i.aluWe {
        r := r.(aluWaddr := i.aluWaddr);
      }
      idEx := r;
    }

    /** One rising edge: every register takes the value its inputs had before
        the edge. */
    method ClockRegisters(x: Input)
      requires registers.Valid()
      modifies this, registers.mem
      ensures registers.Valid() && Abs() == Step(old(Abs()), x) && arch == old(arch)
    {
      hide Operand, LoadStall, JrStall, AluWdata, Unstall, LatchWb, WritePorts;
      var s, i := Abs(), x.instr;
      registers.Clock(exWb.we, exWb.waddr, x.rdata, idEx.aluWe, idEx.aluWaddr, AluWdata(s, x));
      ClockExWb(ExValid(s, x), x.wbReady);  // reads ID/EX, so before it is overwritten
      if IdValid(s, x) {
        LatchIdEx(i, !DeassertWe(s, x), BranchTaken(s, x),
                  Operand(s, x, i.usedA, i.ra), Operand(s, x, i.usedB, i.rb), Operand(s, x, i.usedC, i.rc));
      } else if ExReady(s, x) {
        idEx := Bubble(idEx);
      }
      jumpDoneQ := (jumpDoneQ || PcSetJump(s, x)) && !IdReady(s, x);
    }

    method Clock(x: Input)
      requires Valid() && Env(Abs(), x)
      modifies this, registers.mem
      ensures Valid() && Abs() == Step(old(Abs()), x)
      ensures arch == Retire(old(Abs()), x, old(arch))
    {
      ghost var s := Abs();
      StepKeepsInv(s, x, arch);
      arch := Retire(s, x, arch);
      ClockRegisters(x);
    }
  }
}

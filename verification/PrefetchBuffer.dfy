// The prefetch buffer without hardware loops: the fetch FSM in front of the FIFO,
// one request at a time, with branches that abort what is under way.

module PrefetchBuffer {
  import FetchFifo

  type Addr = FetchFifo.Addr
  type Memory = FetchFifo.Memory

  datatype Fsm = Idle | WaitGnt | WaitRvalid | WaitAborted

  datatype State = State(cs: Fsm, addr: Addr, fifo: FetchFifo.State)

  datatype Input = Input(req: bool, branch: bool, target: Addr, ready: bool, gnt: bool, rvalid: bool, rdata: FetchFifo.Word)

  predicate Sized(s: State) { FetchFifo.Sized(s.fifo) }

  /** The word after the one fetched last. */
  function FetchAddr(a: Addr): Addr { FetchFifo.Addr(FetchFifo.NextWord(a.word), false) }

  predicate FifoReady(s: State) requires Sized(s) { !s.fifo.valid[FetchFifo.DEPTH - 2] }

  /** A new request may be prepared. */
  predicate Wants(s: State, x: Input) requires Sized(s) { x.req && (FifoReady(s) || x.branch) }

  predicate InstrReq(s: State, x: Input)
    requires Sized(s)
  {
    match s.cs
    case Idle => Wants(s, x)
    case WaitGnt => true
    case WaitRvalid => x.rvalid && Wants(s, x)
    case WaitAborted => x.rvalid
  }

  function InstrAddr(s: State, x: Input): Addr {
    if x.branch then x.target
    else if s.cs.Idle? || s.cs.WaitRvalid? then FetchAddr(s.addr)
    else s.addr
  }

  predicate AddrValid(s: State, x: Input)
    requires Sized(s)
  {
    match s.cs
    case Idle => Wants(s, x)
    case WaitRvalid => Wants(s, x) && (x.rvalid || x.branch)
    case _ => x.branch
  }

  function NextCs(s: State, x: Input): Fsm
    requires Sized(s)
  {
    if InstrReq(s, x) then if x.gnt then WaitRvalid else WaitGnt
    else match s.cs
      case WaitRvalid => if x.rvalid then Idle else if Wants(s, x) && x.branch then WaitAborted else WaitRvalid
      case _ => s.cs
  }

  /** What reaches the FIFO: a branch clears it, an answer that was not aborted
      fills it. */
  function FifoInput(s: State, x: Input): FetchFifo.Input {
    FetchFifo.Input(x.branch, x.target, s.addr, x.rdata, s.cs.WaitRvalid? && x.rvalid, false, false, x.ready)
  }

  function Step(s: State, x: Input): (t: State)
    requires Sized(s)
    ensures Sized(t)
  {
    State(NextCs(s, x), if AddrValid(s, x) then InstrAddr(s, x) else s.addr, FetchFifo.Step(s.fifo, FifoInput(s, x)))
  }

  // ------------------------------------------------------------- the memory side

  /** The granted words whose answers are still to come. */
  function Outstanding(s: State, q: seq<nat>, x: Input): seq<nat>
    requires Sized(s)
  {
    (if x.rvalid && q != [] then q[1..] else q) + if InstrReq(s, x) && x.gnt then [InstrAddr(s, x).word] else []
  }

  /** Grants follow requests, answers follow grants, and the core requests
      instructions whenever it branches. */
  predicate Env(mem: Memory, s: State, q: seq<nat>, x: Input)
    requires Sized(s)
  {
    && (x.gnt ==> InstrReq(s, x))
    && (x.rvalid ==> q != [] && x.rdata == mem(q[0]))
    && (x.branch ==> x.req)
  }

  /** `next` is the word the FIFO is due; the last slot is free for what is under way. */
  ghost predicate Inv(mem: Memory, s: State, q: seq<nat>, f: FetchFifo.Stream, next: Addr) {
    && FetchFifo.Inv(mem, s.fifo, f, next) && f.target.None?
    && match s.cs
       case Idle => q == [] && next == FetchAddr(s.addr)
       case WaitGnt => q == [] && next == s.addr && !s.fifo.valid[FetchFifo.DEPTH - 1]
       case WaitRvalid => q == [s.addr.word] && next == s.addr && !s.fifo.valid[FetchFifo.DEPTH - 1]
       case WaitAborted => |q| == 1 && next == s.addr && !s.fifo.valid[FetchFifo.DEPTH - 1]
  }

  /** The FIFO's assumption on its input is met. */
  lemma FifoEnvIsMet(mem: Memory, s: State, q: seq<nat>, f: FetchFifo.Stream, next: Addr, x: Input)
    requires Inv(mem, s, q, f, next) && Env(mem, s, q, x)
    ensures FetchFifo.Env(mem, s.fifo, f, next, FifoInput(s, x))
  {
  }

  /** The FIFO fills its last slot only from three words on. */
  lemma RoomIsKept(s: FetchFifo.State, x: FetchFifo.Input)
    requires FetchFifo.Sized(s) && !x.replace2 && !s.valid[FetchFifo.DEPTH - 1]
    requires x.valid && !x.clear ==> !s.valid[FetchFifo.DEPTH - 2]
    ensures !FetchFifo.Step(s, x).valid[FetchFifo.DEPTH - 1]
  {
    var j := FetchFifo.FirstFree(s.valid);
    assert j < FetchFifo.DEPTH ==> !s.valid[j];
  }

  lemma StepKeepsInv(mem: Memory, s: State, q: seq<nat>, f: FetchFifo.Stream, next: Addr, x: Input)
    requires Inv(mem, s, q, f, next) && Env(mem, s, q, x)
    ensures var i := FifoInput(s, x);
            Inv(mem, Step(s, x), Outstanding(s, q, x), FetchFifo.StreamStep(mem, s.fifo, f, i), FetchFifo.NextFetch(next, i))
  {
    var i := FifoInput(s, x);
    FifoEnvIsMet(mem, s, q, f, next, x);
    FetchFifo.StepRefines(mem, s.fifo, f, next, i);
    LastFollowsSecondLast(mem, s.fifo, f, next);
    hide FetchFifo.Step, FetchFifo.Rel, FetchFifo.Inv;
    if !s.fifo.valid[FetchFifo.DEPTH - 1] && (i.valid && !i.clear ==> FifoReady(s)) {
      RoomIsKept(s.fifo, i);
    }
  }

  /** The entries are filled from the front. */
  lemma LastFollowsSecondLast(mem: Memory, s: FetchFifo.State, f: FetchFifo.Stream, next: Addr)
    requires FetchFifo.Inv(mem, s, f, next)
    ensures s.valid[FetchFifo.DEPTH - 1] ==> s.valid[FetchFifo.DEPTH - 2]
  {
  }

  // ------------------------------------------------------------------- all runs

  function FifoInputs(s: State, xs: seq<Input>): seq<FetchFifo.Input>
    requires Sized(s)
    decreases xs
  {
    if xs == [] then [] else [FifoInput(s, xs[0])] + FifoInputs(Step(s, xs[0]), xs[1..])
  }

  ghost predicate EnvRun(mem: Memory, s: State, q: seq<nat>, xs: seq<Input>)
    requires Sized(s)
    decreases xs
  {
    xs != [] ==> Env(mem, s, q, xs[0]) && EnvRun(mem, Step(s, xs[0]), Outstanding(s, q, xs[0]), xs[1..])
  }

  /** Over every run, branches anywhere, the FIFO gets what it assumes. */
  lemma {:induction false} FifoEnvRunIsMet(mem: Memory, s: State, q: seq<nat>, f: FetchFifo.Stream, next: Addr,
                                           xs: seq<Input>)
    requires Inv(mem, s, q, f, next) && EnvRun(mem, s, q, xs)
    ensures FetchFifo.EnvRun(mem, s.fifo, f, next, FifoInputs(s, xs))
    decreases xs
  {
    if xs != [] {
      var i := FifoInput(s, xs[0]);
      FifoEnvIsMet(mem, s, q, f, next, xs[0]);
      StepKeepsInv(mem, s, q, f, next, xs[0]);
      FifoEnvRunIsMet(mem, Step(s, xs[0]), Outstanding(s, q, xs[0]),
                      FetchFifo.StreamStep(mem, s.fifo, f, i), FetchFifo.NextFetch(next, i), xs[1..]);
      assert FifoInputs(s, xs)[1..] == FifoInputs(Step(s, xs[0]), xs[1..]);
    }
  }

  /** What the core gets over a run. */
  function Delivered(s: State, xs: seq<Input>): seq<FetchFifo.Fetched>
    requires Sized(s)
  {
    FetchFifo.Outputs(s.fifo, FifoInputs(s, xs))
  }

  const RESET := State(
    Idle, FetchFifo.Addr(0, false),
    FetchFifo.State(seq(4, _ => FetchFifo.Addr(0, false)), seq(4, _ => FetchFifo.Word(0, 0)), seq(4, _ => false), [false, false]))

  /** After reset the word at address 4 would be the first, were there no branch. */
  lemma ResetHasInv(mem: Memory)
    ensures var start := FetchFifo.Addr(1, false);
            Inv(mem, RESET, [], FetchFifo.Stream(start, false, FetchFifo.None), start)
  {
    var start := FetchFifo.Addr(1, false);
    assert FetchFifo.Rel(mem, RESET.fifo, 0, FetchFifo.Stream(start, false, FetchFifo.None), start);
  }

  lemma {:induction false} NoBranchIsPlain(s: State, xs: seq<Input>)
    requires Sized(s) && forall x :: x in xs ==> !x.branch
    ensures forall i :: i in FifoInputs(s, xs) ==> FetchFifo.Plain(i)
    decreases xs
  {
    if xs != [] {
      assert !xs[0].branch;
      NoBranchIsPlain(Step(s, xs[0]), xs[1..]);
    }
  }

  /** End to end: from a branch in any reachable state to the next one, the core gets
      the instructions of the memory from the branch target on, in order, each once
      and whole, however grants, answers and stalls fall. */
  lemma BranchDeliversParse(mem: Memory, s: State, q: seq<nat>, f: FetchFifo.Stream, next: Addr,
                            x: Input, xs: seq<Input>)
    requires Inv(mem, s, q, f, next) && EnvRun(mem, s, q, [x] + xs)
    requires x.branch && forall y :: y in xs ==> !y.branch
    ensures var out := Delivered(Step(s, x), xs);
            out == FetchFifo.Parse(mem, FetchFifo.Stream(x.target, false, FetchFifo.None), |out|)
  {
    var t, i := Step(s, x), FifoInput(s, x);
    assert ([x] + xs)[1..] == xs;
    StepKeepsInv(mem, s, q, f, next, x);
    FifoEnvRunIsMet(mem, t, Outstanding(s, q, x), FetchFifo.Stream(x.target, false, FetchFifo.None), x.target, xs);
    NoBranchIsPlain(t, xs);
    FetchFifo.PlainRunIsParse(mem, t.fifo, x.target, FifoInputs(t, xs));
  }

  // -------------------------------------------------------------------- progress

  /** A request that is not granted is made again in the next cycle, and for the same
      word unless a branch comes. */
  lemma RequestIsHeld(s: State, x: Input, y: Input)
    requires Sized(s) && InstrReq(s, x) && !x.gnt
    ensures var t := Step(s, x); InstrReq(t, y) && (!y.branch ==> InstrAddr(t, y) == InstrAddr(s, x))
  {
  }

  /** While the core asks and the FIFO has room, there is a request or an answer due. */
  lemma NeverStuck(mem: Memory, s: State, q: seq<nat>, f: FetchFifo.Stream, next: Addr, x: Input)
    requires Inv(mem, s, q, f, next) && x.req && (x.branch || !s.fifo.valid[FetchFifo.DEPTH - 2])
    ensures InstrReq(s, x) || q != []
  {
  }

  /** The core takes instructions and does not branch. */
  predicate Consumes(x: Input) { x.req && x.ready && !x.branch }

  function Events(xs: seq<Input>): nat {
    if xs == [] then 0 else (if xs[0].gnt then 1 else 0) + (if xs[0].rvalid then 1 else 0) + Events(xs[1..])
  }

  /** How many grants and answers are due before w words are held, n being there. */
  function Due(s: State, n: nat, w: nat): int {
    2 * (w - n) + match s.cs
                  case WaitRvalid => -1
                  case WaitAborted => 1
                  case _ => 0
  }

  lemma StepIsDue(mem: Memory, s: State, q: seq<nat>, f: FetchFifo.Stream, next: Addr, x: Input, n: nat, w: nat)
    requires Inv(mem, s, q, f, next) && Env(mem, s, q, x) && Consumes(x) && FetchFifo.Rel(mem, s.fifo, n, f, next)
    requires w <= 2 && n + (if FifoInput(s, x).valid then 1 else 0) < w
    ensures Due(Step(s, x), n + if FifoInput(s, x).valid then 1 else 0, w) == Due(s, n, w) - Events([x])
  {
    hide FetchFifo.Step;
    assert [x][1..] == [];
  }

  lemma {:induction false} EventsDeliver(mem: Memory, s: State, q: seq<nat>, f: FetchFifo.Stream, next: Addr,
                                         n: nat, xs: seq<Input>)
    requires Inv(mem, s, q, f, next) && EnvRun(mem, s, q, xs) && FetchFifo.Rel(mem, s.fifo, n, f, next)
    requires xs != [] && forall x :: x in xs ==> Consumes(x)
    requires var w := FetchFifo.WordsNeeded(mem, f.pc); n >= w || Events(xs) >= Due(s, n, w)
    ensures |Delivered(s, xs)| >= 1
    decreases xs
  {
    assert Sized(s);
    hide FetchFifo.Rel, FetchFifo.Step;
    var x, w := xs[0], FetchFifo.WordsNeeded(mem, f.pc);
    var i, t := FifoInput(s, x), Step(s, x);
    assert x in xs && Consumes(x);
    FifoEnvIsMet(mem, s, q, f, next, x);
    FetchFifo.PlainStep(mem, s.fifo, n, f, next, i);
    if !FetchFifo.Delivers(s.fifo, i) {
      var m := n + if i.valid then 1 else 0;
      StepKeepsInv(mem, s, q, f, next, x);
      StepIsDue(mem, s, q, f, next, x, n, w);
      EventsDeliver(mem, t, Outstanding(s, q, x), f, FetchFifo.NextFetch(next, i), m, xs[1..]);
      assert FifoInputs(s, xs)[1..] == FifoInputs(t, xs[1..]);
    }
  }

  /** No fetch is lost: in any reachable state, a core that takes instructions gets
      the next one after two grants and answers for each of its words and one for
      an aborted fetch, whenever they come. */
  lemma NextInstructionComes(mem: Memory, s: State, q: seq<nat>, f: FetchFifo.Stream, next: Addr, xs: seq<Input>)
    requires Inv(mem, s, q, f, next) && EnvRun(mem, s, q, xs) && forall x :: x in xs ==> Consumes(x)
    requires Events(xs) >= 2 * FetchFifo.WordsNeeded(mem, f.pc) + 1
    ensures |Delivered(s, xs)| >= 1
    ensures Delivered(s, xs)[0] == FetchFifo.Head(mem, f)
  {
    assert Sized(s);
    hide FetchFifo.Rel;
    var n :| FetchFifo.Rel(mem, s.fifo, n, f, next);
    EventsDeliver(mem, s, q, f, next, n, xs);
    FifoEnvRunIsMet(mem, s, q, f, next, xs);
    FetchFifo.RunRefines(mem, s.fifo, f, next, FifoInputs(s, xs));
    NoBranchIsPlain(s, xs);
    FetchFifo.ExpectedIsParse(mem, s.fifo, f, FifoInputs(s, xs));
  }

  // ------------------------------------------------------- the clocked registers

  class Prefetcher {
    const fifo: FetchFifo.Fifo
    var cs: Fsm
    var instrAddrQ: Addr

    ghost predicate Valid() reads this, fifo { fifo.Valid() }

    function Abs(): State
      reads this, fifo, fifo.addrQ, fifo.rdataQ, fifo.validQ, fifo.isHwlpQ
    {
      State(cs, instrAddrQ, fifo.Abs())
    }

    constructor ()
      ensures Valid() && fresh(fifo) && cs == Idle && instrAddrQ == FetchFifo.Addr(0, false)
    {
      fifo := new FetchFifo.Fifo();
      cs, instrAddrQ := Idle, FetchFifo.Addr(0, false);
    }

    method Clock(x: Input)
      requires Valid()
      modifies this, fifo.addrQ, fifo.rdataQ, fifo.validQ, fifo.isHwlpQ
      ensures Valid() && Abs() == Step(old(Abs()), x)
    {
      var s := Abs();
      fifo.Clock(FifoInput(s, x));
      if AddrValid(s, x) {
        instrAddrQ := InstrAddr(s, x);
      }
      cs := NextCs(s, x);
    }
  }
}

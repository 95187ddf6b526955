// The one-line instruction buffer between the fetch stage and a memory port
// with request/grant and a later response.

module L0Buffer {
  type Line = seq<int>  // four words
  type Memory = nat -> Line

  datatype Fsm = Empty | ValidL0 | WaitGnt | WaitRvalid | AbortedBranch

  datatype State = State(cs: Fsm, buffer: Line, addrQ: nat)

  datatype Input = Input(
    prefetch: bool, prefetchAddr: nat, branch: bool, branchAddr: nat, hwlp: bool, hwlpAddr: nat,
    gnt: bool, rvalid: bool, rdata: Line)

  /** The 16-byte line of a byte address. */
  function LineOf(addr: nat): nat { addr / 16 }

  predicate AnyRequest(x: Input) { x.branch || x.hwlp || x.prefetch }

  function AddrInt(s: State, x: Input): nat {
    if x.branch then x.branchAddr
    else match s.cs
      case AbortedBranch => s.addrQ
      case WaitGnt => if x.hwlp then x.hwlpAddr else s.addrQ
      case _ => if x.hwlp then x.hwlpAddr else x.prefetchAddr
  }

  predicate InstrReq(s: State, x: Input) {
    match s.cs
    case Empty => AnyRequest(x)
    case ValidL0 => AnyRequest(x)
    case WaitGnt => true
    case WaitRvalid => x.rvalid && AnyRequest(x)
    case AbortedBranch => x.rvalid
  }

  function NextCs(s: State, x: Input): Fsm {
    if InstrReq(s, x) then if x.gnt then WaitRvalid else WaitGnt
    else match s.cs
      case WaitRvalid => if x.branch then AbortedBranch else if x.rvalid then ValidL0 else WaitRvalid
      case _ => s.cs
  }

  function Step(s: State, x: Input): State {
    State(NextCs(s, x), if x.rvalid then x.rdata else s.buffer, if AnyRequest(x) then AddrInt(s, x) else s.addrQ)
  }

  predicate ValidOut(s: State, x: Input) {
    ((s.cs.WaitRvalid? && x.rvalid) || s.cs.ValidL0?) && !x.branch
  }

  function RdataOut(s: State, x: Input): Line { if x.rvalid then x.rdata else s.buffer }

  // ------------------------------------------------------------- the memory side

  /** The granted lines whose responses are still to come. */
  function Outstanding(s: State, q: seq<nat>, x: Input): seq<nat> {
    (if x.rvalid && q != [] then q[1..] else q) + if InstrReq(s, x) && x.gnt then [LineOf(AddrInt(s, x))] else []
  }

  /** Grants follow requests, responses follow grants in order, and while waiting
      for a response the address changes only together with one or by a branch. */
  ghost predicate Env(mem: Memory, s: State, q: seq<nat>, x: Input) {
    && (x.gnt ==> InstrReq(s, x))
    && (x.rvalid ==> q != [] && x.rdata == mem(q[0]))
    && (s.cs.WaitRvalid? && (x.prefetch || x.hwlp) ==> x.rvalid || x.branch)
  }

  ghost predicate Inv(mem: Memory, s: State, q: seq<nat>) {
    match s.cs
    case WaitRvalid => q == [LineOf(s.addrQ)]
    case AbortedBranch => |q| == 1
    case ValidL0 => q == [] && s.buffer == mem(LineOf(s.addrQ))
    case _ => q == []
  }

  lemma StepKeepsInv(mem: Memory, s: State, q: seq<nat>, x: Input)
    requires Inv(mem, s, q) && Env(mem, s, q, x)
    ensures Inv(mem, Step(s, x), Outstanding(s, q, x))
    ensures ValidOut(s, x) ==> RdataOut(s, x) == mem(LineOf(s.addrQ))
  {
  }

  // ------------------------------------------------------------------- all runs

  const RESET := State(Empty, [0, 0, 0, 0], 0)

  function Run(xs: seq<Input>): State {
    if xs == [] then RESET else Step(Run(xs[..|xs| - 1]), xs[|xs| - 1])
  }

  function Pending(xs: seq<Input>): seq<nat> {
    if xs == [] then [] else Outstanding(Run(xs[..|xs| - 1]), Pending(xs[..|xs| - 1]), xs[|xs| - 1])
  }

  ghost predicate EnvRun(mem: Memory, xs: seq<Input>) {
    xs != [] ==> EnvRun(mem, xs[..|xs| - 1]) && Env(mem, Run(xs[..|xs| - 1]), Pending(xs[..|xs| - 1]), xs[|xs| - 1])
  }

  lemma {:induction false} RunKeepsInv(mem: Memory, xs: seq<Input>)
    requires EnvRun(mem, xs)
    ensures Inv(mem, Run(xs), Pending(xs))
  {
    if xs != [] {
      RunKeepsInv(mem, xs[..|xs| - 1]);
      StepKeepsInv(mem, Run(xs[..|xs| - 1]), Pending(xs[..|xs| - 1]), xs[|xs| - 1]);
    }
  }

  /** In every reachable cycle at most one fetch is outstanding, and whatever is
      shown as valid is the memory line of the address shown with it. */
  lemma ShownLineIsMemory(mem: Memory, xs: seq<Input>, x: Input)
    requires EnvRun(mem, xs + [x])
    ensures |Pending(xs + [x])| <= 1
    ensures ValidOut(Run(xs), x) ==> RdataOut(Run(xs), x) == mem(LineOf(Run(xs).addrQ))
  {
    assert (xs + [x])[..|xs|] == xs;
    RunKeepsInv(mem, xs);
    RunKeepsInv(mem, xs + [x]);
    StepKeepsInv(mem, Run(xs), Pending(xs), x);
  }

  // ------------------------------------------- the address, by the trace alone

  /** A granted fetch is not answered yet. */
  predicate InFlight(xs: seq<Input>) {
    xs != [] && (xs[|xs| - 1].gnt || (InFlight(xs[..|xs| - 1]) && !xs[|xs| - 1].rvalid))
  }

  /** Something was asked for that is not granted yet. */
  predicate Owed(xs: seq<Input>) {
    xs != [] && !xs[|xs| - 1].gnt && (AnyRequest(xs[|xs| - 1]) || Owed(xs[..|xs| - 1]))
  }

  /** The address due: a branch always decides; a loop target unless a branch is
      waiting for an unanswered fetch; a prefetch only if nothing is owed. */
  function LastAsked(xs: seq<Input>): nat {
    if xs == [] then 0
    else
      var before, x := xs[..|xs| - 1], xs[|xs| - 1];
      if x.branch then x.branchAddr
      else if x.hwlp && !(Owed(before) && InFlight(before)) then x.hwlpAddr
      else if x.prefetch && !x.hwlp && !Owed(before) then x.prefetchAddr
      else LastAsked(before)
  }

  /** The states of the FSM are the four combinations of the two. */
  predicate TraceMatches(cs: Fsm, owed: bool, inFlight: bool) {
    match cs
    case Empty => !owed && !inFlight
    case ValidL0 => !owed && !inFlight
    case WaitGnt => owed && !inFlight
    case WaitRvalid => !owed && inFlight
    case AbortedBranch => owed && inFlight
  }

  lemma {:induction false} AddressIsLastAsked(mem: Memory, xs: seq<Input>)
    requires EnvRun(mem, xs)
    ensures TraceMatches(Run(xs).cs, Owed(xs), InFlight(xs))
    ensures Run(xs).addrQ == LastAsked(xs)
  {
    if xs != [] {
      AddressIsLastAsked(mem, xs[..|xs| - 1]);
      RunKeepsInv(mem, xs[..|xs| - 1]);
    }
  }

  predicate Quiet(x: Input) { !AnyRequest(x) && !x.rvalid && !x.gnt }

  function RunFrom(s: State, xs: seq<Input>): State
    decreases xs
  {
    if xs == [] then s else RunFrom(Step(s, xs[0]), xs[1..])
  }

  lemma {:induction false} QuietWait(s: State, xs: seq<Input>)
    requires s.cs.WaitRvalid? && forall x :: x in xs ==> Quiet(x)
    ensures RunFrom(s, xs) == s
    decreases xs
  {
    if xs != [] {
      assert Quiet(xs[0]);
      QuietWait(Step(s, xs[0]), xs[1..]);
    }
  }

  /** A granted fetch that is left alone is shown when it is answered, however
      late, under the address asked for, and stays until something else is asked. */
  lemma GrantedFetchIsShown(mem: Memory, s: State, q: seq<nat>, x: Input, waits: seq<Input>, y: Input, z: Input)
    requires Inv(mem, s, q) && Env(mem, s, q, x) && InstrReq(s, x) && x.gnt
    requires forall w :: w in waits ==> Quiet(w)
    requires y.rvalid && y.rdata == mem(LineOf(AddrInt(s, x))) && !AnyRequest(y) && Quiet(z)
    ensures var t := RunFrom(Step(s, x), waits);
            && ValidOut(t, y) && t.addrQ == AddrInt(s, x) && RdataOut(t, y) == mem(LineOf(t.addrQ))
            && ValidOut(Step(t, y), z) && Step(t, y).addrQ == t.addrQ && RdataOut(Step(t, y), z) == RdataOut(t, y)
  {
    QuietWait(Step(s, x), waits);
  }

  /** A request that is not granted is made again in the next cycle, and for the same
      address unless a branch or a loop target comes. */
  lemma RequestIsHeld(s: State, x: Input, y: Input)
    requires InstrReq(s, x) && !x.gnt
    ensures var t := Step(s, x); InstrReq(t, y) && (!y.branch && !y.hwlp ==> AddrInt(t, y) == AddrInt(s, x))
  {
  }

  /** How many grants and answers are due before the address asked for is shown. */
  function Due(s: State): nat {
    match s.cs
    case WaitGnt => 2
    case WaitRvalid => 1
    case AbortedBranch => 3
    case _ => 0
  }

  function Events(xs: seq<Input>): nat {
    if xs == [] then 0 else (if xs[0].gnt then 1 else 0) + (if xs[0].rvalid then 1 else 0) + Events(xs[1..])
  }

  ghost predicate EnvFrom(mem: Memory, s: State, q: seq<nat>, xs: seq<Input>)
    decreases xs
  {
    xs != [] ==> Env(mem, s, q, xs[0]) && EnvFrom(mem, Step(s, xs[0]), Outstanding(s, q, xs[0]), xs[1..])
  }

  /** While something is due the buffer asks for it or the memory owes an answer. */
  lemma NeverStuck(mem: Memory, s: State, q: seq<nat>, x: Input)
    requires Inv(mem, s, q) && (Due(s) > 0 || AnyRequest(x))
    ensures InstrReq(s, x) || q != []
  {
  }

  /** With nothing else asked, every grant and every answer brings the line one step
      nearer, and when none is due it is there: no request is lost, aborted ones
      included. */
  lemma {:induction false} EveryEventCounts(mem: Memory, s: State, q: seq<nat>, xs: seq<Input>)
    requires Inv(mem, s, q) && EnvFrom(mem, s, q, xs) && forall x :: x in xs ==> !AnyRequest(x)
    ensures Events(xs) == Due(s) - Due(RunFrom(s, xs)) && RunFrom(s, xs).addrQ == s.addrQ
    ensures !s.cs.Empty? && Events(xs) == Due(s) ==>
              RunFrom(s, xs).cs.ValidL0? && RunFrom(s, xs).buffer == mem(LineOf(s.addrQ))
    decreases xs
  {
    if xs != [] {
      assert !AnyRequest(xs[0]);
      StepKeepsInv(mem, s, q, xs[0]);
      EveryEventCounts(mem, Step(s, xs[0]), Outstanding(s, q, xs[0]), xs[1..]);
    }
  }

  /** The third assumption is needed: a prefetch of another line while the first
      is awaited relabels the response, so what is then shown is right exactly if
      the two lines happen to be equal. */
  lemma PrefetchWhileWaitingRelabels(mem: Memory, s: State, q: seq<nat>, x: Input, y: Input)
    requires Inv(mem, s, q) && s.cs.WaitRvalid?
    requires x.prefetch && !x.hwlp && !x.branch && !x.rvalid && !x.gnt
    requires y.rvalid && y.rdata == mem(q[0]) && !y.branch
    ensures var t := Step(s, x);
            && ValidOut(t, y)
            && (RdataOut(t, y) == mem(LineOf(t.addrQ)) <==> mem(LineOf(x.prefetchAddr)) == mem(LineOf(s.addrQ)))
  {
  }

  // ------------------------------------------------------- the clocked registers

  class Buffer {
    var cs: Fsm
    var l0Buffer: Line
    var addrQ: nat
    /** The granted lines whose responses are still to come. */
    ghost var outstanding: seq<nat>

    function Abs(): State reads this { State(cs, l0Buffer, addrQ) }

    ghost predicate Valid(mem: Memory) reads this { Inv(mem, Abs(), outstanding) }

    constructor (ghost mem: Memory)
      ensures Valid(mem) && Abs() == RESET && outstanding == []
    {
      cs, l0Buffer, addrQ, outstanding := Empty, [0, 0, 0, 0], 0, [];
    }

    method Clock(ghost mem: Memory, x: Input) returns (valid: bool, rdata: Line, addr: nat)
      requires Valid(mem) && Env(mem, Abs(), outstanding, x)
      modifies this
      ensures Valid(mem) && Abs() == Step(old(Abs()), x)
      ensures outstanding == Outstanding(old(Abs()), old(outstanding), x)
      ensures addr == old(addrQ) && valid == ValidOut(old(Abs()), x) && (valid ==> rdata == mem(LineOf(addr)))
    {
      StepKeepsInv(mem, Abs(), outstanding, x);
      outstanding := Outstanding(Abs(), outstanding, x);
      valid, rdata, addr := ValidOut(Abs(), x), RdataOut(Abs(), x), addrQ;

      var req, addrInt := InstrReq(Abs(), x), AddrInt(Abs(), x);
      if req {
        cs := if x.gnt then WaitRvalid else WaitGnt;
      } else if cs.WaitRvalid? {
        if x.branch {
          cs := AbortedBranch;
        } else if x.rvalid {
          cs := ValidL0;
        }
      }
      if x.rvalid {
        l0Buffer := x.rdata;
      }
      if AnyRequest(x) {
        addrQ := addrInt;
      }
    }
  }
}

// The APU dispatcher: it tracks up to two operations in the shared unit and
// names the register of the one that returns.

module ApuDispatcher {
  type Reg = r: nat | r < 64

  datatype State = State(
    validInflight: bool, validWaiting: bool, addrInflight: Reg, addrWaiting: Reg, apuLat: nat)

  datatype Input = Input(
    enable: bool, lat: nat, waddr: Reg, gnt: bool, masterValid: bool,
    readRegs: seq<Reg>, readValid: seq<bool>, writeRegs: seq<Reg>, writeValid: seq<bool>)

  predicate Wide(x: Input) {
    |x.readRegs| == |x.readValid| == 3 && |x.writeRegs| == |x.writeValid| == 2
  }

  predicate Active(s: State) { s.validInflight || s.validWaiting }

  predicate StallFull(s: State) { s.validInflight && s.validWaiting }

  predicate StallType(s: State, x: Input) {
    x.enable && Active(s) && (x.lat == 1 || (x.lat == 2 && s.apuLat == 3) || x.lat == 3)
  }

  predicate ValidReq(s: State, x: Input) { x.enable && !(StallFull(s) || StallType(s, x)) }

  predicate StallNack(s: State, x: Input) { ValidReq(s, x) && !x.gnt }

  predicate Stall(s: State, x: Input) { StallFull(s) || StallType(s, x) || StallNack(s, x) }

  predicate ReqAccepted(s: State, x: Input) { ValidReq(s, x) && x.gnt }

  predicate ReturnedReq(s: State, x: Input) {
    ValidReq(s, x) && x.masterValid && !s.validInflight && !s.validWaiting
  }

  predicate ReturnedInflight(s: State, x: Input) { s.validInflight && x.masterValid && !s.validWaiting }

  predicate ReturnedWaiting(s: State, x: Input) { s.validWaiting && x.masterValid }

  function WaddrOut(s: State, x: Input): Reg {
    if ReturnedWaiting(s, x) then s.addrWaiting
    else if ReturnedInflight(s, x) then s.addrInflight
    else if ReturnedReq(s, x) then x.waddr
    else 0
  }

  predicate Matches(regs: seq<Reg>, valid: seq<bool>, addr: Reg)
    requires |regs| == |valid|
  {
    exists i :: 0 <= i < |regs| && regs[i] == addr && valid[i]
  }

  predicate Dep(s: State, x: Input, regs: seq<Reg>, valid: seq<bool>)
    requires |regs| == |valid|
  {
    || (Matches(regs, valid, x.waddr) && ValidReq(s, x) && !ReturnedReq(s, x))
    || (Matches(regs, valid, s.addrInflight) && s.validInflight && !ReturnedInflight(s, x))
    || (Matches(regs, valid, s.addrWaiting) && s.validWaiting && !ReturnedWaiting(s, x))
  }

  predicate ReadDep(s: State, x: Input) requires Wide(x) { Dep(s, x, x.readRegs, x.readValid) }

  predicate WriteDep(s: State, x: Input) requires Wide(x) { Dep(s, x, x.writeRegs, x.writeValid) }

  function Step(s: State, x: Input): State {
    var lat := if ValidReq(s, x) then x.lat else s.apuLat;
    if ReqAccepted(s, x) && !ReturnedReq(s, x) then
      if (s.validInflight && !ReturnedInflight(s, x)) || ReturnedWaiting(s, x) then
        State(true, true, x.waddr, s.addrInflight, lat)
      else State(true, s.validWaiting, x.waddr, s.addrWaiting, lat)
    else if ReturnedInflight(s, x) then State(false, false, 0, 0, lat)
    else if ReturnedWaiting(s, x) then s.(validWaiting := false, addrWaiting := 0, apuLat := lat)
    else s.(apuLat := lat)
  }

  // -------------------------------------------------------- the queue it stands for

  datatype Op = Op(addr: Reg, lat: nat)

  /** The outstanding operations, oldest first. */
  predicate Rel(s: State, q: seq<Op>) {
    && |q| <= 2
    && (s.validInflight <==> |q| >= 1) && (s.validWaiting <==> |q| == 2)
    && (|q| >= 1 ==> s.addrInflight == q[|q| - 1].addr)
    && (|q| == 2 ==> s.addrWaiting == q[0].addr)
  }

  /** The unit answers only operations it has.  Nothing is assumed about latencies. */
  predicate Env(s: State, q: seq<Op>, x: Input) {
    Wide(x) && (x.masterValid ==> q != [] || ReqAccepted(s, x))
  }

  /** What stays outstanding of q when the response of this cycle has left. */
  function Remaining(q: seq<Op>, x: Input): seq<Op> { if x.masterValid && q != [] then q[1..] else q }

  /** The request of this cycle, unless it is answered at once. */
  function Entering(s: State, q: seq<Op>, x: Input): seq<Op> {
    if ReqAccepted(s, x) && !(x.masterValid && q == []) then [Op(x.waddr, x.lat)] else []
  }

  function QueueStep(s: State, q: seq<Op>, x: Input): seq<Op> { Remaining(q, x) + Entering(s, q, x) }

  lemma StepRefines(s: State, q: seq<Op>, x: Input)
    requires Rel(s, q) && Env(s, q, x)
    ensures Rel(Step(s, x), QueueStep(s, q, x))
    ensures x.masterValid ==> WaddrOut(s, x) == if q != [] then q[0].addr else x.waddr
  {
  }

  /** The registers that will be written after this cycle: of operations that
      stay outstanding and of the current request unless answered at once. */
  function PendingRegs(s: State, q: seq<Op>, x: Input): set<Reg> {
    (set o | o in Remaining(q, x) :: o.addr)
    + if ValidReq(s, x) && !(x.masterValid && q == []) then {x.waddr} else {}
  }

  predicate Touches(regs: seq<Reg>, valid: seq<bool>, pending: set<Reg>)
    requires |regs| == |valid|
  {
    exists i :: 0 <= i < |regs| && valid[i] && regs[i] in pending
  }

  /** The read and the write dependency are reported exactly for those registers. */
  lemma DepExact(s: State, q: seq<Op>, x: Input)
    requires Rel(s, q) && Env(s, q, x)
    ensures ReadDep(s, x) <==> Touches(x.readRegs, x.readValid, PendingRegs(s, q, x))
    ensures WriteDep(s, x) <==> Touches(x.writeRegs, x.writeValid, PendingRegs(s, q, x))
  {
    DepOf(s, q, x, x.readRegs, x.readValid);
    DepOf(s, q, x, x.writeRegs, x.writeValid);
  }

  lemma DepOf(s: State, q: seq<Op>, x: Input, regs: seq<Reg>, valid: seq<bool>)
    requires Rel(s, q) && Env(s, q, x) && |regs| == |valid|
    ensures Dep(s, x, regs, valid) <==> Touches(regs, valid, PendingRegs(s, q, x))
  {
  }

  /** A request enters the unit exactly when the pipeline is not stalled, and a full
      dispatcher never lets it in. */
  lemma AcceptedIffNotStalled(s: State, q: seq<Op>, x: Input)
    requires Rel(s, q) && Env(s, q, x)
    ensures ReqAccepted(s, x) <==> x.enable && !Stall(s, x)
    ensures ReqAccepted(s, x) ==> |q| < 2
  {
  }

  // ------------------------------------------------------------ latency classes

  /** Requests name one of the classes 1 (single-cycle), 2 and 3 (multi-cycle). */
  predicate Classed(x: Input) { x.enable ==> 1 <= x.lat <= 3 }

  /** What apu_lat knows of the outstanding operations.  A request updates it before
      it is granted, so a single-cycle operation may be recorded as class 2. */
  predicate Tracks(s: State, q: seq<Op>) {
    forall o :: o in q ==> 1 <= o.lat <= 3 && (o.lat == s.apuLat || (o.lat == 1 && s.apuLat == 2))
  }

  predicate OneClass(q: seq<Op>) { forall o, p :: o in q && p in q ==> o.lat == p.lat }

  /** A request enters beside a single-cycle operation that is still not answered. */
  predicate EntersBesideSingle(s: State, q: seq<Op>, x: Input) {
    ReqAccepted(s, x) && Remaining(q, x) != [] && Remaining(q, x)[0].lat == 1
  }

  /** Class 3 is always alone, and the younger of two operations is of class 2. */
  predicate Shape(q: seq<Op>) { |q| == 2 ==> q[0].lat <= 2 && q[1].lat == 2 }

  /** For every response time: the shape is kept, beside another operation only
      class 2 enters, and classes start to mix in exactly one way. */
  lemma StepKeepsClasses(s: State, q: seq<Op>, x: Input)
    requires Rel(s, q) && Env(s, q, x) && Classed(x) && Tracks(s, q) && Shape(q)
    ensures Tracks(Step(s, x), QueueStep(s, q, x)) && Shape(QueueStep(s, q, x))
    ensures ReqAccepted(s, x) && q != [] ==> x.lat == 2
    ensures OneClass(q) ==> (OneClass(QueueStep(s, q, x)) <==> !EntersBesideSingle(s, q, x))
  {
    var r := QueueStep(s, q, x);
    if OneClass(q) && EntersBesideSingle(s, q, x) {
      assert r[0].lat == 1 && r[1].lat == 2;
    }
  }

  /** There is room for a request: always in an idle dispatcher, beside one operation
      for class 2 unless that operation is of class 3, and never beside two. */
  predicate Room(q: seq<Op>, x: Input) { q == [] || (|q| == 1 && x.lat == 2 && q[0].lat != 3) }

  /** A request is passed on exactly if there is room, accepted exactly if it is also
      granted, and otherwise the pipeline stalls, as it does with two outstanding. */
  lemma AcceptsIff(s: State, q: seq<Op>, x: Input)
    requires Rel(s, q) && Tracks(s, q) && Classed(x)
    ensures ValidReq(s, x) <==> x.enable && Room(q, x)
    ensures ReqAccepted(s, x) <==> x.enable && Room(q, x) && x.gnt
    ensures Stall(s, x) <==> |q| == 2 || (x.enable && !(Room(q, x) && x.gnt))
  {
    if q != [] {
      assert q[0] in q;
    }
  }

  // ------------------------------------------------------------------- all runs

  const IDLE := State(false, false, 0, 0, 0)

  function Run(xs: seq<Input>): State {
    if xs == [] then IDLE else Step(Run(xs[..|xs| - 1]), xs[|xs| - 1])
  }

  function Queue(xs: seq<Input>): seq<Op> {
    if xs == [] then []
    else QueueStep(Run(xs[..|xs| - 1]), Queue(xs[..|xs| - 1]), xs[|xs| - 1])
  }

  predicate EnvRun(xs: seq<Input>) {
    xs != [] ==> EnvRun(xs[..|xs| - 1]) && Env(Run(xs[..|xs| - 1]), Queue(xs[..|xs| - 1]), xs[|xs| - 1])
  }

  function Admitted(s: State, x: Input): seq<Reg> { if ReqAccepted(s, x) then [x.waddr] else [] }

  function Answered(s: State, x: Input): seq<Reg> { if x.masterValid then [WaddrOut(s, x)] else [] }

  /** Destination registers in the order in which requests were accepted. */
  function Accepted(xs: seq<Input>): seq<Reg> {
    if xs == [] then []
    else
      var before, x := xs[..|xs| - 1], xs[|xs| - 1];
      Accepted(before) + Admitted(Run(before), x)
  }

  /** Registers named with the responses, in order. */
  function Returned(xs: seq<Input>): seq<Reg> {
    if xs == [] then []
    else
      var before, x := xs[..|xs| - 1], xs[|xs| - 1];
      Returned(before) + Answered(Run(before), x)
  }

  function Addrs(q: seq<Op>): seq<Reg> { seq(|q|, i requires 0 <= i < |q| => q[i].addr) }

  /** Over every run the responses name the accepted registers, in order, and
      what is missing is what the two slots hold. */
  lemma {:induction false} ResponsesInOrder(xs: seq<Input>)
    requires EnvRun(xs)
    ensures Rel(Run(xs), Queue(xs))
    ensures Accepted(xs) == Returned(xs) + Addrs(Queue(xs))
    ensures |Accepted(xs)| - |Returned(xs)| == |Queue(xs)| <= 2
  {
    if xs != [] {
      var before, x := xs[..|xs| - 1], xs[|xs| - 1];
      var s, q := Run(before), Queue(before);
      ResponsesInOrder(before);
      StepRefines(s, q, x);
      QueueBalance(s, q, x);
      Regroup(Returned(before), Addrs(q), Admitted(s, x), Answered(s, x), Addrs(Queue(xs)));
    }
  }

  /** One cycle of the same balance. */
  lemma QueueBalance(s: State, q: seq<Op>, x: Input)
    requires Rel(s, q) && Env(s, q, x)
    ensures Addrs(q) + Admitted(s, x) == Answered(s, x) + Addrs(QueueStep(s, q, x))
  {
    StepRefines(s, q, x);
  }

  lemma Regroup(r: seq<Reg>, q: seq<Reg>, admitted: seq<Reg>, answered: seq<Reg>, t: seq<Reg>)
    requires q + admitted == answered + t
    ensures r + q + admitted == r + answered + t
  {
    assert r + q + admitted == r + (q + admitted);
  }

  predicate ClassedRun(xs: seq<Input>) { forall x :: x in xs ==> Classed(x) }

  /** In some cycle of the run a request entered beside a late single-cycle one. */
  predicate EverBesideSingle(xs: seq<Input>) {
    xs != [] &&
    (EverBesideSingle(xs[..|xs| - 1])
     || EntersBesideSingle(Run(xs[..|xs| - 1]), Queue(xs[..|xs| - 1]), xs[|xs| - 1]))
  }

  predicate AlwaysOneClass(xs: seq<Input>) {
    OneClass(Queue(xs)) && (xs != [] ==> AlwaysOneClass(xs[..|xs| - 1]))
  }

  /** All outstanding operations share one class throughout a run exactly if no
      request ever entered beside a single-cycle operation not yet answered. */
  lemma {:induction false} RunIsOneClassIff(xs: seq<Input>)
    requires EnvRun(xs) && ClassedRun(xs)
    ensures Rel(Run(xs), Queue(xs)) && Tracks(Run(xs), Queue(xs)) && Shape(Queue(xs))
    ensures AlwaysOneClass(xs) <==> !EverBesideSingle(xs)
  {
    if xs != [] {
      var before, x := xs[..|xs| - 1], xs[|xs| - 1];
      RunIsOneClassIff(before);
      StepRefines(Run(before), Queue(before), x);
      StepKeepsClasses(Run(before), Queue(before), x);
      if AlwaysOneClass(before) {
        assert OneClass(Queue(before));
      }
    }
  }

  /** Every single-cycle request is answered in the cycle of its grant. */
  predicate SinglesInTime(xs: seq<Input>) {
    xs != [] ==>
      && SinglesInTime(xs[..|xs| - 1])
      && (ReqAccepted(Run(xs[..|xs| - 1]), xs[|xs| - 1]) && xs[|xs| - 1].lat == 1 ==> xs[|xs| - 1].masterValid)
  }

  /** Then no single-cycle operation is ever outstanding, and there is one class. */
  lemma {:induction false} InTimeIsOneClass(xs: seq<Input>)
    requires EnvRun(xs) && ClassedRun(xs) && SinglesInTime(xs)
    ensures !EverBesideSingle(xs) && AlwaysOneClass(xs) && forall o :: o in Queue(xs) ==> o.lat >= 2
  {
    RunIsOneClassIff(xs);
    if xs != [] {
      InTimeIsOneClass(xs[..|xs| - 1]);
      RunIsOneClassIff(xs[..|xs| - 1]);
      StepKeepsClasses(Run(xs[..|xs| - 1]), Queue(xs[..|xs| - 1]), xs[|xs| - 1]);
    }
  }

  // ------------------------------------------------------- the clocked registers

  class Dispatcher {
    var validInflight: bool
    var validWaiting: bool
    var addrInflight: Reg
    var addrWaiting: Reg
    var apuLat: nat
    /** The outstanding operations, oldest first. */
    ghost var queue: seq<Op>

    function Abs(): State reads this { State(validInflight, validWaiting, addrInflight, addrWaiting, apuLat) }

    ghost predicate Valid() reads this { Rel(Abs(), queue) }

    constructor ()
      ensures Valid() && queue == [] && Abs() == IDLE
    {
      validInflight, validWaiting, addrInflight, addrWaiting, apuLat := false, false, 0, 0, 0;
      queue := [];
    }

    method Clock(x: Input) returns (waddr: Reg, readDep: bool, writeDep: bool)
      requires Valid() && Env(Abs(), queue, x)
      modifies this
      ensures Valid() && Abs() == Step(old(Abs()), x)
      ensures queue == QueueStep(old(Abs()), old(queue), x)
      ensures readDep <==> Touches(x.readRegs, x.readValid, PendingRegs(old(Abs()), old(queue), x))
      ensures writeDep <==> Touches(x.writeRegs, x.writeValid, PendingRegs(old(Abs()), old(queue), x))
      ensures x.masterValid ==> waddr == if old(queue) != [] then old(queue)[0].addr else x.waddr
    {
      var s := Abs();
      StepRefines(s, queue, x);
      DepExact(s, queue, x);
      readDep, writeDep := ReadDep(s, x), WriteDep(s, x);
      queue := QueueStep(s, queue, x);
      waddr := WaddrOut(s, x);
      var returnedInflight, returnedWaiting := ReturnedInflight(s, x), ReturnedWaiting(s, x);
      if ReqAccepted(s, x) && !ReturnedReq(s, x) {
        if (validInflight && !returnedInflight) || returnedWaiting {
          validWaiting, addrWaiting := true, addrInflight;
        }
        validInflight, addrInflight := true, x.waddr;
      } else if returnedInflight {
        validInflight, validWaiting, addrInflight, addrWaiting := false, false, 0, 0;
      } else if returnedWaiting {
        validWaiting, addrWaiting := false, 0;
      }
      if ValidReq(s, x) {
        apuLat := x.lat;
      }
    }
  }
}

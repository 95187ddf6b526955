// The fetch FIFO: 32-bit words in, a stream of 16- and 32-bit instructions at
// halfword alignment out, with same-cycle bypass and hardware-loop replacement.

module FetchFifo {
  const DEPTH := 4
  const WORDS := 0x4000_0000  // 32-bit words in the address space

  type Half = h: nat | h < 0x1_0000
  datatype Word = Word(lo: Half, hi: Half)

  /** A halfword address: word number and bit 1 of the byte address. */
  datatype Addr = Addr(word: nat, half: bool)

  function NextWord(w: nat): nat { (w + 1) % WORDS }

  predicate IsCompressed(h: Half) { h % 4 != 3 }

  // -------------------------------------------------- the stream it stands for

  datatype Option<T> = None | Some(value: T)
  datatype Instr = Compressed(h: Half) | Full(lo: Half, hi: Half)

  type Memory = nat -> Word

  function HalfAt(mem: Memory, a: Addr): Half { if a.half then mem(a.word).hi else mem(a.word).lo }

  function NextHalf(a: Addr): Addr { if a.half then Addr(NextWord(a.word), false) else Addr(a.word, true) }

  function InstrAt(mem: Memory, pc: Addr): Instr {
    var h := HalfAt(mem, pc);
    if IsCompressed(h) then Compressed(h) else Full(h, HalfAt(mem, NextHalf(pc)))
  }

  function NextPc(mem: Memory, pc: Addr): Addr {
    if IsCompressed(HalfAt(mem, pc)) then NextHalf(pc) else NextHalf(NextHalf(pc))
  }

  /** Where the stream stands: the next instruction, whether it is a loop target,
      and the loop target that follows it, if one was announced. */
  datatype Stream = Stream(pc: Addr, isTarget: bool, target: Option<Addr>)

  datatype Fetched = Fetched(pc: Addr, instr: Instr, isHwlp: bool)

  function Head(mem: Memory, f: Stream): Fetched { Fetched(f.pc, InstrAt(mem, f.pc), f.isTarget) }

  function Advance(mem: Memory, f: Stream): Stream {
    match f.target
    case None => Stream(NextPc(mem, f.pc), false, None)
    case Some(t) => Stream(t, true, None)
  }

  // ------------------------------------------------------------------ hardware

  datatype State = State(addr: seq<Addr>, rdata: seq<Word>, valid: seq<bool>, hwlp: seq<bool>)

  predicate Sized(s: State) { |s.addr| == |s.rdata| == |s.valid| == DEPTH && |s.hwlp| == 2 }

  /** One cycle's inputs; `restart` is where fetching goes on after a clear. */
  datatype Input = Input(
    clear: bool, restart: Addr, addr: Addr, rdata: Word, valid: bool,
    replace2: bool, isHwlp: bool, ready: bool)

  function Rdata(s: State, x: Input): Word
    requires Sized(s)
  {
    if s.valid[0] then s.rdata[0] else if x.valid then x.rdata else Word(0, 0)
  }

  function OutAddr(s: State, x: Input): Addr
    requires Sized(s)
  {
    if s.valid[0] then s.addr[0] else x.addr
  }

  /** Serve from the upper half; entry 0 is already aligned if a loop target
      follows it. */
  predicate Unaligned(s: State, x: Input)
    requires Sized(s)
  {
    OutAddr(s, x).half && !s.hwlp[1]
  }

  function OutRdata(s: State, x: Input): Word
    requires Sized(s)
  {
    var r := Rdata(s, x);
    if Unaligned(s, x) then Word(r.hi, if s.valid[1] then s.rdata[1].lo else x.rdata.lo) else r
  }

  predicate OutValid(s: State, x: Input)
    requires Sized(s)
  {
    if Unaligned(s, x) && !IsCompressed(Rdata(s, x).hi) then s.valid[1] || (s.valid[0] && x.valid)
    else s.valid[0] || x.valid || s.hwlp[1]
  }

  predicate OutValidStored(s: State, x: Input)
    requires Sized(s)
  {
    if Unaligned(s, x) then (s.valid[0] && IsCompressed(s.rdata[0].hi)) || s.valid[1]
    else s.valid[0]
  }

  function OutIsHwlp(s: State, x: Input): bool
    requires Sized(s)
  {
    if s.valid[0] then s.hwlp[0] else x.isHwlp
  }

  predicate Delivers(s: State, x: Input)
    requires Sized(s)
  {
    x.ready && OutValid(s, x)
  }

  /** What the consumer takes: of a compressed instruction only the low half. */
  function Output(s: State, x: Input): Fetched
    requires Sized(s)
  {
    var w := OutRdata(s, x);
    Fetched(OutAddr(s, x), Decode(w), OutIsHwlp(s, x))
  }

  function Decode(w: Word): Instr { if IsCompressed(w.lo) then Compressed(w.lo) else Full(w.lo, w.hi) }

  function FirstFree(valid: seq<bool>): (j: nat)
    ensures j <= |valid| && (j < |valid| ==> !valid[j]) && forall i :: 0 <= i < j ==> valid[i]
  {
    if valid == [] || !valid[0] then 0 else 1 + FirstFree(valid[1..])
  }

  /** The incoming word takes the first free slot. */
  function Insert(s: State, x: Input): State
    requires Sized(s)
  {
    var j := FirstFree(s.valid);
    if j == DEPTH then s
    else s.(addr := s.addr[j := x.addr], rdata := s.rdata[j := x.rdata], valid := s.valid[j := true])
  }

  /** A loop target replaces everything behind the current instruction, which is
      kept in entry 0 as it would be served now. */
  function Replace(s: State, t: State, x: Input): State
    requires Sized(s) && Sized(t)
  {
    if s.valid[0] then
      State(t.addr[1 := x.addr], t.rdata[0 := OutRdata(s, x)][1 := x.rdata],
            [t.valid[0], true, false, false], [t.hwlp[0], x.isHwlp])
    else t.(hwlp := [x.isHwlp, t.hwlp[1]])
  }

  function Accept(s: State, x: Input): State
    requires Sized(s)
  {
    if !x.valid then s else if x.replace2 then Replace(s, Insert(s, x), x) else Insert(s, x)
  }

  /** Drop entry 0. */
  function Shift(t: State, a: Addr): State
    requires Sized(t)
  {
    State(t.addr[0 := a], t.rdata[1..] + [Word(0, 0)], t.valid[1..] + [false], [t.hwlp[1], false])
  }

  function Pop(s: State, t: State, x: Input): State
    requires Sized(s) && Sized(t)
  {
    var next := NextWord(t.addr[0].word);
    if t.hwlp[1] then Shift(t, t.addr[1])
    else if t.addr[0].half then Shift(t, Addr(next, !IsCompressed(Rdata(s, x).hi)))
    else if IsCompressed(Rdata(s, x).lo) then
      t.(addr := t.addr[0 := Addr(t.addr[0].word, true)], hwlp := [t.hwlp[1], false])
    else Shift(t, Addr(next, false))
  }

  function Step(s: State, x: Input): (t: State)
    requires Sized(s)
    ensures Sized(t)
  {
    if x.clear then s.(valid := [false, false, false, false], hwlp := [false, false])
    else
      var t := Accept(s, x);
      if Delivers(s, x) then Pop(s, t, x) else t
  }

  // ------------------------------------------------------ refinement, one cycle

  /** The k-th word after w. */
  function Plus(w: nat, k: nat): nat { if k == 0 then w else NextWord(Plus(w, k - 1)) }

  lemma {:induction false} PlusNext(w: nat, k: nat)
    ensures Plus(NextWord(w), k) == Plus(w, k + 1)
  {
    if k > 0 {
      PlusNext(w, k - 1);
    }
  }

  /** The first n entries hold the stream from f on; `next` is where the word
      that arrives next has to come from. */
  ghost predicate Rel(mem: Memory, s: State, n: nat, f: Stream, next: Addr) {
    && Sized(s) && n <= DEPTH
    && (forall i :: 0 <= i < DEPTH ==> (s.valid[i] <==> i < n))
    && (n > 0 ==> s.addr[0] == f.pc && s.hwlp[0] == f.isTarget)
    && match f.target
       case None =>
         && !s.hwlp[1]
         && (n == 0 ==> f.pc == next && !f.isTarget && !s.hwlp[0])
         && (n > 0 ==> next == Addr(Plus(f.pc.word, n), false))
         && (forall k :: 0 <= k < n ==> s.rdata[k] == mem(Plus(f.pc.word, k)))
       case Some(t) =>
         && s.hwlp[1] && n >= 2 && s.addr[1] == t
         && Decode(s.rdata[0]) == InstrAt(mem, f.pc)
         && next == Addr(Plus(t.word, n - 1), false)
         && (forall k :: 1 <= k < n ==> s.rdata[k] == mem(Plus(t.word, k - 1)))
  }

  /** What the prefetcher guarantees: words come in order from memory and only
      while the last slot is free; a replacement announces a loop target, and comes,
      into a full FIFO too, only when the current instruction is complete. */
  ghost predicate Env(mem: Memory, s: State, f: Stream, next: Addr, x: Input)
    requires Sized(s)
  {
    x.valid ==>
      && (x.replace2 || !s.valid[DEPTH - 1]) && x.rdata == mem(x.addr.word) && x.isHwlp == x.replace2
      && if x.replace2 then f.target == None && (s.valid[0] ==> OutValidStored(s, x))
         else x.addr == next
  }

  /** The stream once the incoming word has been accepted. */
  function Redirect(s: State, f: Stream, x: Input): Stream
    requires Sized(s)
  {
    if x.valid && x.replace2 then
      if s.valid[0] then f.(target := Some(x.addr)) else Stream(x.addr, true, None)
    else f
  }

  function NextFetch(next: Addr, x: Input): Addr {
    if x.clear then x.restart else if x.valid then Addr(NextWord(x.addr.word), false) else next
  }

  function StreamStep(mem: Memory, s: State, f: Stream, x: Input): Stream
    requires Sized(s)
  {
    if x.clear then Stream(x.restart, false, None)
    else if Delivers(s, x) then Advance(mem, Redirect(s, f, x))
    else Redirect(s, f, x)
  }

  lemma FirstFreeIs(valid: seq<bool>, n: nat)
    requires |valid| == DEPTH && n <= DEPTH && forall i :: 0 <= i < DEPTH ==> (valid[i] <==> i < n)
    ensures FirstFree(valid) == n
  {
    var j := FirstFree(valid);
    assert j < DEPTH ==> !valid[j];
    assert n < DEPTH ==> !valid[n];
  }

  lemma InsertKeeps(mem: Memory, s: State, n: nat, f: Stream, next: Addr, x: Input)
    requires Rel(mem, s, n, f, next) && Env(mem, s, f, next, x) && x.valid && !x.replace2
    ensures Rel(mem, Insert(s, x), n + 1, f, Addr(NextWord(x.addr.word), false))
  {
    FirstFreeIs(s.valid, n);
  }

  lemma ReplaceKeeps(mem: Memory, s: State, n: nat, f: Stream, next: Addr, x: Input)
    requires Rel(mem, s, n, f, next) && Env(mem, s, f, next, x) && x.valid && x.replace2
    ensures Rel(mem, Accept(s, x), if n == 0 then 1 else 2, Redirect(s, f, x), Addr(NextWord(x.addr.word), false))
  {
    FirstFreeIs(s.valid, n);
    if n > 0 {
      OutputIsHead(mem, s, n, f, next, x.(valid := false));
    }
  }

  /** If the entries at hand complete the current instruction, it is what the
      output shows. */
  lemma OutputIsHead(mem: Memory, s: State, n: nat, f: Stream, next: Addr, x: Input)
    requires Rel(mem, s, n, f, next) && !x.valid && OutValid(s, x)
    ensures Decode(OutRdata(s, x)) == InstrAt(mem, f.pc)
  {
  }

  function Count(s: State, n: nat, x: Input): nat
    requires Sized(s)
  {
    if !x.valid then n else if !x.replace2 then n + 1 else if n == 0 then 1 else 2
  }

  lemma AcceptKeeps(mem: Memory, s: State, n: nat, f: Stream, next: Addr, x: Input)
    requires Rel(mem, s, n, f, next) && Env(mem, s, f, next, x) && !x.clear
    ensures Rel(mem, Accept(s, x), Count(s, n, x), Redirect(s, f, x), NextFetch(next, x))
  {
    if x.valid {
      if x.replace2 {
        ReplaceKeeps(mem, s, n, f, next, x);
      } else {
        InsertKeeps(mem, s, n, f, next, x);
      }
    }
  }

  /** The bypassed output is the head of the stream just accepted. */
  lemma OutputCorrect(mem: Memory, s: State, n: nat, f: Stream, next: Addr, x: Input)
    requires Rel(mem, s, n, f, next) && Env(mem, s, f, next, x) && OutValid(s, x)
    ensures Output(s, x) == Head(mem, Redirect(s, f, x))
  {
    assert OutAddr(s, x) == Redirect(s, f, x).pc;
    assert OutIsHwlp(s, x) == Redirect(s, f, x).isTarget;
  }

  /** How many buffered words the current instruction needs. */
  function WordsNeeded(mem: Memory, pc: Addr): nat {
    if pc.half && !IsCompressed(mem(pc.word).hi) then 2 else 1
  }

  /** An instruction is offered as soon as its words are there, and no sooner; once
      a loop target is behind it, it is always complete. */
  lemma OfferedWhenComplete(mem: Memory, s: State, n: nat, f: Stream, next: Addr, x: Input)
    requires Rel(mem, s, n, f, next) && Env(mem, s, f, next, x)
    ensures OutValid(s, x) <==>
              Count(s, n, x) >= WordsNeeded(mem, Redirect(s, f, x).pc) || Redirect(s, f, x).target.Some?
  {
  }

  /** Without looking at the input port: the instruction is stored completely. */
  lemma StoredIffComplete(mem: Memory, s: State, n: nat, f: Stream, next: Addr, x: Input)
    requires Rel(mem, s, n, f, next)
    ensures OutValidStored(s, x) <==> n >= WordsNeeded(mem, f.pc) || f.target.Some?
  {
  }

  /** How many of n words stay when the current instruction leaves. */
  function Kept(mem: Memory, f: Stream, n: nat): nat {
    if n == 0 || (f.target.None? && !f.pc.half && IsCompressed(mem(f.pc.word).lo)) then n else n - 1
  }

  lemma PopKeeps(mem: Memory, s: State, t: State, n: nat, f: Stream, next: Addr, x: Input)
    requires Rel(mem, t, n, f, next) && Sized(s)
    requires f.target.None? ==> n >= WordsNeeded(mem, f.pc) && Rdata(s, x) == t.rdata[0]
    ensures Rel(mem, Pop(s, t, x), Kept(mem, f, n), Advance(mem, f), next)
  {
    PlusNext(f.pc.word, 1);
    PlusNext(f.pc.word, 2);
  }

  ghost predicate Inv(mem: Memory, s: State, f: Stream, next: Addr) {
    exists n :: Rel(mem, s, n, f, next)
  }

  lemma StepRefines(mem: Memory, s: State, f: Stream, next: Addr, x: Input)
    requires Inv(mem, s, f, next) && Env(mem, s, f, next, x)
    ensures Delivers(s, x) ==> Output(s, x) == Head(mem, Redirect(s, f, x))
    ensures Inv(mem, Step(s, x), StreamStep(mem, s, f, x), NextFetch(next, x))
  {
    var n :| Rel(mem, s, n, f, next);
    if Delivers(s, x) {
      OutputCorrect(mem, s, n, f, next, x);
    }
    if x.clear {
      assert Rel(mem, Step(s, x), 0, StreamStep(mem, s, f, x), x.restart);
    } else {
      var t, m, g := Accept(s, x), Count(s, n, x), Redirect(s, f, x);
      AcceptKeeps(mem, s, n, f, next, x);
      if Delivers(s, x) {
        if g.target.None? {
          OfferedWhenComplete(mem, s, n, f, next, x);
        }
        PopKeeps(mem, s, t, m, g, NextFetch(next, x), x);
      }
    }
  }

  // -------------------------------------------------------- refinement, all runs

  /** What the consumer gets over a run. */
  function Outputs(s: State, xs: seq<Input>): seq<Fetched>
    requires Sized(s)
    decreases xs
  {
    if xs == [] then []
    else (if Delivers(s, xs[0]) then [Output(s, xs[0])] else []) + Outputs(Step(s, xs[0]), xs[1..])
  }

  /** What the memory says it should get. */
  function Expected(mem: Memory, s: State, f: Stream, xs: seq<Input>): seq<Fetched>
    requires Sized(s)
    decreases xs
  {
    if xs == [] then []
    else
      (if Delivers(s, xs[0]) then [Head(mem, Redirect(s, f, xs[0]))] else [])
      + Expected(mem, Step(s, xs[0]), StreamStep(mem, s, f, xs[0]), xs[1..])
  }

  ghost predicate EnvRun(mem: Memory, s: State, f: Stream, next: Addr, xs: seq<Input>)
    requires Sized(s)
    decreases xs
  {
    xs != [] ==>
      && Env(mem, s, f, next, xs[0])
      && EnvRun(mem, Step(s, xs[0]), StreamStep(mem, s, f, xs[0]), NextFetch(next, xs[0]), xs[1..])
  }

  /** Any run, with replacements and clears anywhere. */
  lemma {:induction false} RunRefines(mem: Memory, s: State, f: Stream, next: Addr, xs: seq<Input>)
    requires Inv(mem, s, f, next) && EnvRun(mem, s, f, next, xs)
    ensures Outputs(s, xs) == Expected(mem, s, f, xs)
    decreases xs
  {
    if xs != [] {
      StepRefines(mem, s, f, next, xs[0]);
      RunRefines(mem, Step(s, xs[0]), StreamStep(mem, s, f, xs[0]), NextFetch(next, xs[0]), xs[1..]);
    }
  }

  /** The first k instructions of a stream. */
  function Parse(mem: Memory, f: Stream, k: nat): seq<Fetched>
    decreases k
  {
    if k == 0 then [] else [Head(mem, f)] + Parse(mem, Advance(mem, f), k - 1)
  }

  predicate Plain(x: Input) { !x.clear && !(x.valid && x.replace2) }

  lemma {:induction false} ExpectedIsParse(mem: Memory, s: State, f: Stream, xs: seq<Input>)
    requires Sized(s) && forall x :: x in xs ==> Plain(x)
    ensures Expected(mem, s, f, xs) == Parse(mem, f, |Expected(mem, s, f, xs)|)
    decreases xs
  {
    if xs != [] {
      assert Plain(xs[0]);
      var rest := Expected(mem, Step(s, xs[0]), StreamStep(mem, s, f, xs[0]), xs[1..]);
      ExpectedIsParse(mem, Step(s, xs[0]), StreamStep(mem, s, f, xs[0]), xs[1..]);
      if Delivers(s, xs[0]) {
        assert Expected(mem, s, f, xs) == [Head(mem, f)] + rest;
      } else {
        assert Expected(mem, s, f, xs) == rest;
      }
    }
  }

  /** After any clear and without loops, the consumer gets the 16/32-bit parse of
      the halfwords from the first address on: nothing lost, repeated or split. */
  lemma PlainRunIsParse(mem: Memory, s: State, start: Addr, xs: seq<Input>)
    requires Sized(s) && s.valid == [false, false, false, false] && s.hwlp == [false, false]
    requires EnvRun(mem, s, Stream(start, false, None), start, xs) && forall x :: x in xs ==> Plain(x)
    ensures Outputs(s, xs) == Parse(mem, Stream(start, false, None), |Outputs(s, xs)|)
  {
    assert Rel(mem, s, 0, Stream(start, false, None), start);
    RunRefines(mem, s, Stream(start, false, None), start, xs);
    ExpectedIsParse(mem, s, Stream(start, false, None), xs);
  }

  function Readies(xs: seq<Input>): nat {
    if xs == [] then 0 else (if xs[0].ready then 1 else 0) + Readies(xs[1..])
  }

  function Arrivals(xs: seq<Input>): nat {
    if xs == [] then 0 else (if xs[0].valid then 1 else 0) + Arrivals(xs[1..])
  }

  /** One cycle with no clear and no loop target: what is delivered, and how many
      words are held afterwards. */
  lemma PlainStep(mem: Memory, s: State, n: nat, f: Stream, next: Addr, x: Input)
    requires Rel(mem, s, n, f, next) && Env(mem, s, f, next, x) && Plain(x)
    ensures var m := n + if x.valid then 1 else 0;
            && (Delivers(s, x) <==> x.ready && (f.target.Some? || m >= WordsNeeded(mem, f.pc)))
            && (Delivers(s, x) ==> Rel(mem, Step(s, x), Kept(mem, f, m), Advance(mem, f), NextFetch(next, x)))
            && (!Delivers(s, x) ==> Rel(mem, Step(s, x), m, f, NextFetch(next, x)))
            && StreamStep(mem, s, f, x) == if Delivers(s, x) then Advance(mem, f) else f
  {
    assert Sized(s);
    hide Rel, Pop, OutValid, Rdata, WordsNeeded;
    OfferedWhenComplete(mem, s, n, f, next, x);
    AcceptKeeps(mem, s, n, f, next, x);
    if Delivers(s, x) {
      PopAfterAccept(mem, s, n, f, next, x);
    }
  }

  lemma PopAfterAccept(mem: Memory, s: State, n: nat, f: Stream, next: Addr, x: Input)
    requires Rel(mem, s, n, f, next) && Env(mem, s, f, next, x) && !x.clear && Delivers(s, x)
    ensures var g := Redirect(s, f, x);
            Rel(mem, Pop(s, Accept(s, x), x), Kept(mem, g, Count(s, n, x)), Advance(mem, g), NextFetch(next, x))
  {
    AcceptKeeps(mem, s, n, f, next, x);
    OfferedWhenComplete(mem, s, n, f, next, x);
    PopKeeps(mem, s, Accept(s, x), Count(s, n, x), Redirect(s, f, x), NextFetch(next, x), x);
  }

  /** The first ready cycle takes the current instruction if its words have come. */
  lemma {:induction false} FirstReadyDelivers(mem: Memory, s: State, n: nat, f: Stream, next: Addr, xs: seq<Input>)
    requires Rel(mem, s, n, f, next) && EnvRun(mem, s, f, next, xs) && forall x :: x in xs ==> Plain(x)
    requires Readies(xs) == 1 && xs[|xs| - 1].ready
    requires f.target.Some? || n + Arrivals(xs) >= WordsNeeded(mem, f.pc)
    ensures |Outputs(s, xs)| == 1
    decreases xs
  {
    assert Sized(s);
    hide Rel, Env, Step, WordsNeeded;
    PlainStep(mem, s, n, f, next, xs[0]);
    if |xs| == 1 {
      assert xs[1..] == [];
    } else {
      var m := n + if xs[0].valid then 1 else 0;
      LastReady(xs);
      FirstReadyDelivers(mem, Step(s, xs[0]), m, f, NextFetch(next, xs[0]), xs[1..]);
    }
  }

  lemma LastReady(xs: seq<Input>)
    requires |xs| >= 2 && xs[|xs| - 1].ready
    ensures Readies(xs[1..]) >= 1
  {
    if |xs| > 2 {
      LastReady(xs[1..]);
    } else {
      assert xs[1..][1..] == [];
    }
  }

  /** With a loop target waiting, the first ready cycle takes the current instruction
      and the second one the target, if its words have come by then. */
  lemma {:induction false} TwoReadiesDeliver(mem: Memory, s: State, n: nat, f: Stream, next: Addr, xs: seq<Input>)
    requires Rel(mem, s, n, f, next) && EnvRun(mem, s, f, next, xs) && forall x :: x in xs ==> Plain(x)
    requires f.target.Some?
    ensures Readies(xs) >= 1 ==> |Outputs(s, xs)| >= 1
    ensures Readies(xs) == 2 && xs[|xs| - 1].ready && n - 1 + Arrivals(xs) >= WordsNeeded(mem, f.target.value) ==>
              |Outputs(s, xs)| == 2
    decreases xs
  {
    assert Sized(s);
    hide Rel, Env, Step, WordsNeeded;
    if xs != [] {
      var t, next' := Step(s, xs[0]), NextFetch(next, xs[0]);
      var m := n + if xs[0].valid then 1 else 0;
      PlainStep(mem, s, n, f, next, xs[0]);
      if !xs[0].ready {
        TwoReadiesDeliver(mem, t, m, f, next', xs[1..]);
      } else if Readies(xs) == 2 && xs[|xs| - 1].ready && n - 1 + Arrivals(xs) >= WordsNeeded(mem, f.target.value) {
        FirstReadyDelivers(mem, t, Kept(mem, f, m), Advance(mem, f), next', xs[1..]);
      }
    }
  }

  /** A loop target that arrives while an instruction is held: that instruction is
      served at the first ready cycle, whole and at its own address, be it the very
      same cycle; the next ready cycle serves the target, if all its words have
      come; its stream follows. */
  lemma LoopTargetFollowsCurrent(mem: Memory, s: State, f: Stream, next: Addr, x: Input, xs: seq<Input>)
    requires Inv(mem, s, f, next) && EnvRun(mem, s, f, next, [x] + xs)
    requires s.valid[0] && x.valid && x.replace2 && !x.clear && forall y :: y in xs ==> Plain(y)
    ensures var out := Outputs(s, [x] + xs);
            && (|out| >= 1 <==> Readies([x] + xs) >= 1)
            && (|out| >= 1 ==> out[0] == Fetched(f.pc, InstrAt(mem, f.pc), f.isTarget))
            && (|out| >= 2 ==> out[1..] == Parse(mem, Stream(x.addr, true, None), |out| - 1))
    ensures Readies([x] + xs) == 2 && ([x] + xs)[|xs|].ready && 1 + Arrivals(xs) >= WordsNeeded(mem, x.addr) ==>
              |Outputs(s, [x] + xs)| == 2
  {
    assert Sized(s);
    hide *;
    TargetStream(mem, s, f, next, x, xs);
    NotReadyIsSilent(s, [x] + xs);
    TargetCycle(mem, s, f, next, x, xs);
  }

  lemma TargetStream(mem: Memory, s: State, f: Stream, next: Addr, x: Input, xs: seq<Input>)
    requires Inv(mem, s, f, next) && EnvRun(mem, s, f, next, [x] + xs)
    requires s.valid[0] && x.valid && x.replace2 && !x.clear && forall y :: y in xs ==> Plain(y)
    ensures var out := Outputs(s, [x] + xs);
            && (|out| >= 1 ==> out[0] == Fetched(f.pc, InstrAt(mem, f.pc), f.isTarget))
            && (|out| >= 2 ==> out[1..] == Parse(mem, Stream(x.addr, true, None), |out| - 1))
  {
    assert Sized(s);
    hide *;
    RunRefines(mem, s, f, next, [x] + xs);
    ExpectedWithTarget(mem, s, f, x, xs);
  }

  lemma ExpectedWithTarget(mem: Memory, s: State, f: Stream, x: Input, xs: seq<Input>)
    requires Sized(s)
    requires s.valid[0] && x.valid && x.replace2 && !x.clear && forall y :: y in xs ==> Plain(y)
    ensures var out := Expected(mem, s, f, [x] + xs);
            && (|out| >= 1 ==> out[0] == Fetched(f.pc, InstrAt(mem, f.pc), f.isTarget))
            && (|out| >= 2 ==> out[1..] == Parse(mem, Stream(x.addr, true, None), |out| - 1))
  {
    hide Step, Delivers, InstrAt, Parse;
    assert ([x] + xs)[0] == x && ([x] + xs)[1..] == xs;
    var rest := Expected(mem, Step(s, x), StreamStep(mem, s, f, x), xs);
    ExpectedIsParse(mem, Step(s, x), StreamStep(mem, s, f, x), xs);
    if Delivers(s, x) {
      assert Expected(mem, s, f, [x] + xs) == [Head(mem, Redirect(s, f, x))] + rest;
    } else {
      assert Expected(mem, s, f, [x] + xs) == rest;
      ParseWithTarget(mem, f.(target := Some(x.addr)), |rest|);
    }
  }

  lemma ParseWithTarget(mem: Memory, f: Stream, k: nat)
    requires f.target.Some?
    ensures k >= 1 ==> Parse(mem, f, k)[0] == Head(mem, f)
    ensures k >= 1 ==> Parse(mem, f, k)[1..] == Parse(mem, Stream(f.target.value, true, None), k - 1)
  {
  }

  lemma {:induction false} NotReadyIsSilent(s: State, xs: seq<Input>)
    requires Sized(s)
    ensures |Outputs(s, xs)| <= Readies(xs)
    decreases xs
  {
    if xs != [] {
      NotReadyIsSilent(Step(s, xs[0]), xs[1..]);
    }
  }

  lemma TargetCycle(mem: Memory, s: State, f: Stream, next: Addr, x: Input, xs: seq<Input>)
    requires Inv(mem, s, f, next) && EnvRun(mem, s, f, next, [x] + xs)
    requires s.valid[0] && x.valid && x.replace2 && !x.clear && forall y :: y in xs ==> Plain(y)
    ensures Readies([x] + xs) >= 1 ==> |Outputs(s, [x] + xs)| >= 1
    ensures Readies([x] + xs) == 2 && ([x] + xs)[|xs|].ready && 1 + Arrivals(xs) >= WordsNeeded(mem, x.addr) ==>
              |Outputs(s, [x] + xs)| == 2
  {
    hide OutValid, Rdata, WordsNeeded, Pop, Accept;
    assert ([x] + xs)[0] == x && ([x] + xs)[1..] == xs;
    var n :| Rel(mem, s, n, f, next);
    OfferedWhenComplete(mem, s, n, f, next, x);
    AcceptKeeps(mem, s, n, f, next, x);
    var t, g, next' := Step(s, x), StreamStep(mem, s, f, x), NextFetch(next, x);
    if !x.ready {
      TwoReadiesDeliver(mem, t, 2, g, next', xs);
    } else {
      PopAfterAccept(mem, s, n, f, next, x);
      if Readies([x] + xs) == 2 && ([x] + xs)[|xs|].ready && 1 + Arrivals(xs) >= WordsNeeded(mem, x.addr) {
        FirstReadyDelivers(mem, t, 1, g, next', xs);
      }
    }
  }

  // ------------------------------------------------------- the clocked registers

  class Fifo {
    const addrQ: array<Addr>
    const rdataQ: array<Word>
    const validQ: array<bool>
    const isHwlpQ: array<bool>

    ghost predicate Valid() reads this {
      && addrQ.Length == rdataQ.Length == validQ.Length == DEPTH && isHwlpQ.Length == 2
      && validQ != isHwlpQ
    }

    function Abs(): State
      reads this, addrQ, rdataQ, validQ, isHwlpQ
    {
      State(addrQ[..], rdataQ[..], validQ[..], isHwlpQ[..])
    }

    constructor ()
      ensures Valid() && fresh(addrQ) && fresh(rdataQ) && fresh(validQ) && fresh(isHwlpQ)
      ensures Abs().valid == [false, false, false, false] && Abs().hwlp == [false, false]
    {
      addrQ := new Addr[DEPTH](_ => Addr(0, false));
      rdataQ := new Word[DEPTH](_ => Word(0, 0));
      validQ := new bool[DEPTH](_ => false);
      isHwlpQ := new bool[2](_ => false);
    }

    /** The incoming word, into the first slot that is not valid. */
    method AcceptWord(x: Input)
      requires Valid() && x.valid
      modifies addrQ, rdataQ, validQ
      ensures Abs() == Insert(old(Abs()), x)
    {
      for j := 0 to DEPTH
        invariant forall i :: 0 <= i < j ==> validQ[i]
        invariant Abs() == old(Abs())
      {
        if !validQ[j] {
          FirstFreeAt(validQ[..], j);
          addrQ[j], rdataQ[j], validQ[j] := x.addr, x.rdata, true;
          return;
        }
      }
    }

    /** Replace the second entry by a loop target. */
    method ReplaceSecond(s: State, current: Word, x: Input)
      requires Valid() && Sized(s) && current == OutRdata(s, x)
      modifies addrQ, rdataQ, validQ, isHwlpQ
      ensures Abs() == Replace(s, old(Abs()), x)
    {
      if s.valid[0] {
        addrQ[1], rdataQ[0], rdataQ[1] := x.addr, current, x.rdata;
        validQ[1], validQ[2], validQ[3] := true, false, false;
        isHwlpQ[1] := x.isHwlp;
      } else {
        isHwlpQ[0] := x.isHwlp;
      }
    }

    method ShiftWords()
      requires Valid()
      modifies rdataQ, validQ
      ensures rdataQ[..] == old(rdataQ[1..]) + [Word(0, 0)] && validQ[..] == old(validQ[1..]) + [false]
    {
      for i := 0 to DEPTH - 1
        invariant forall k :: 0 <= k < i ==> rdataQ[k] == old(rdataQ[k + 1]) && validQ[k] == old(validQ[k + 1])
        invariant forall k :: i <= k < DEPTH ==> rdataQ[k] == old(rdataQ[k]) && validQ[k] == old(validQ[k])
      {
        rdataQ[i], validQ[i] := rdataQ[i + 1], validQ[i + 1];
      }
      rdataQ[DEPTH - 1], validQ[DEPTH - 1] := Word(0, 0), false;
    }

    /** Move everything one entry towards the output. */
    method ShiftOut(a: Addr)
      requires Valid()
      modifies addrQ, rdataQ, validQ, isHwlpQ
      ensures Abs() == Shift(old(Abs()), a)
    {
      addrQ[0] := a;
      ShiftWords();
      isHwlpQ[0], isHwlpQ[1] := isHwlpQ[1], false;
    }

    /** Take the current instruction, the first word shown being r. */
    method PopEntry(ghost s: State, x: Input, r: Word)
      requires Valid() && Sized(s) && r == Rdata(s, x)
      modifies addrQ, rdataQ, validQ, isHwlpQ
      ensures Abs() == Pop(s, old(Abs()), x)
    {
      var next := NextWord(addrQ[0].word);
      if isHwlpQ[1] {
        ShiftOut(addrQ[1]);
      } else if addrQ[0].half {
        ShiftOut(Addr(next, !IsCompressed(r.hi)));
      } else if IsCompressed(r.lo) {
        addrQ[0] := Addr(addrQ[0].word, true);
        isHwlpQ[0], isHwlpQ[1] := isHwlpQ[1], false;
      } else {
        ShiftOut(Addr(next, false));
      }
    }

    method Clock(x: Input)
      requires Valid()
      modifies addrQ, rdataQ, validQ, isHwlpQ
      ensures Abs() == Step(old(Abs()), x)
    {
      var s := Abs();
      if x.clear {
        validQ[0], validQ[1], validQ[2], validQ[3] := false, false, false, false;
        isHwlpQ[0], isHwlpQ[1] := false, false;
      } else {
        if x.valid {
          AcceptWord(x);
          if x.replace2 {
            ReplaceSecond(s, OutRdata(s, x), x);
          }
        }
        if Delivers(s, x) {
          PopEntry(s, x, Rdata(s, x));
        }
      }
    }
  }

  lemma FirstFreeAt(valid: seq<bool>, j: nat)
    requires j < |valid| && !valid[j] && forall i :: 0 <= i < j ==> valid[i]
    ensures FirstFree(valid) == j
  {
    var k := FirstFree(valid);
    assert k < |valid| ==> !valid[k];
  }
}

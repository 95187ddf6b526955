# Verified models of RI5CY and flexfloat

This project models the state machines of the RI5CY core (the RTL under `rtl/`)
and the C library flexfloat that accompanies its floating-point unit, and proves
what they are for. Every hardware model has registers as state and one clock edge
as a step; what surrounds it (memory, load/store unit, shared APU, prefetcher,
software) is an input that may do anything the stated environment predicate
(`Env`) allows. Beside each step function there is a class with the registers as
mutable fields or arrays whose `Clock` method is proved to take exactly that step.

- `Pipeline.dfy`: ID, EX and WB with forwarding, load and JALR stalls, and the
  register file with two write ports. For every pattern of ready signals, held
  instructions and branches, an issued instruction captures the operands that
  executing all older instructions one at a time would give; nothing behind a taken
  branch takes effect, and every memory request and branch passes EX once, in order.
  `Sequential` is the reference execution; `Inv` says that EX and WB, drained into the register file,
  give it.
- `Bits.dfy`, `Shifts.dfy`: bit vectors and shifts of numbers.
- `AluBits.dfy`: find-first-one for any length, population count, and the operand
  preparation for the divider.
- `Divider.dfy`: the serial divider for any width, and with the preparation of
  `AluBits` the four division instructions on all operand pairs, against section
  7.2 of the RISC-V Unprivileged ISA (20191213).
- `VectorLanes.dfy`: the partitioned adder, the reversing shifter and the byte
  comparators in the three vector modes.
- `FetchFifo.dfy`: the fetch FIFO against a parser of the halfword stream.
- `PrefetchBuffer.dfy`: the fetch FSM in front of the FIFO, without hardware loops.
- `ApuDispatcher.dfy`, `L0Buffer.dfy`, `HwLoop.dfy`, `IrqHandshake.dfy`: the
  two-slot dispatcher, the one-line instruction buffer, the hardware loops, and
  the interrupt handshake of three modules clocked together.
- `FlexFloat.dfy`: sanitize on the bits of a double, and the code words.
  `FlexRounding.dfy`: what it delivers, measured against the values of the target
  format written as m * 2^t (`Level`), independently of bit patterns. The addition
  of the backend is a parameter, characterised by `Faithful`, `NearestEven` or
  `RoundedAway`, and by `KeepsInfinity`.
- `StatsTable.dfy`: the open-addressed statistics tables against a map.

Some expectations that a reader of the sources may have are false of the code. The
model keeps the code and states the exact boundary:

- flexfloat's round to nearest is not nearest for target subnormals whose 53
  significant bits are all ones: `FlexRounding.ToNearestIsNearestIff`.
- Away from zero its directed modes move a zero to the smallest value, overlook
  discarded bits that the denormalising shift has dropped, and overshoot for the
  same subnormals of all ones: `FlexRounding.DirectedIsCeilingIff`. The zero is the
  only value of the target that does not pass unchanged:
  `FlexRounding.RepresentableIsFixedIff`.
- Its round toward zero delivers infinity where the largest finite value is due:
  `FlexRounding.TowardZeroIsFloor`.
- A NaN with a payload only in the discarded bits becomes an infinity:
  `FlexRounding.NanSurvivesIff`.
- Setting the code word of a subnormal does not set its value:
  `FlexRounding.SetDenotesIff`.
- The assertion of `ht_insert` catches a full table only for keys that are slot
  numbers: `StatsTable.FullTableIsCaughtIff`.
- A hardware loop jumps one time less than its count exactly if its body has at
  least two instructions or its count is 1; otherwise it jumps as often as its
  count: `HwLoop.LoopJumpsBackExactly`.

## Model

| member | source | states |
|---|---|---|
| Pipeline.OperandIsArchitectural | rtl/riscv_controller.sv:1018-1045 | when ID may move on, the forwarding select yields the sequential value of every register the instruction uses |
| Pipeline.ExLeaves | rtl/riscv_ex_stage.sv:529-559 | what EX and WB still owe the registers is neither lost nor duplicated when EX moves on or waits |
| Pipeline.StepKeepsDrained | rtl/riscv_id_stage.sv:1486-1615 | one cycle changes the drained register file by exactly the instruction issued, if any |
| Pipeline.StepKeepsInv | rtl/riscv_controller.sv:983-1007 | the invariant, with the stale EX load address, survives every cycle |
| Pipeline.RunKeepsInv | rtl/riscv_controller.sv:983-1007 | every reachable state, drained, is the sequential execution of the issued instructions, which NotWantedNeverIssues and OnlyHazardsHold delimit |
| Pipeline.NotWantedIsSquashed | rtl/riscv_controller.sv:382-391 | behind a taken branch in EX, while held and while not decoding, EX is left inert once it moves on and unchanged while it waits, no result is added or lost and no jump redirects |
| Pipeline.NotWantedNeverIssues | rtl/riscv_controller.sv:976-977 | over every run the program order has nothing from the shadow of a taken branch and nothing held or not decoded |
| Pipeline.OnlyHazardsHold | rtl/riscv_controller.sv:983-1007 | an instruction that touches no register of a load under way, nor is a JALR whose source is still to be written, issues as soon as EX moves on |
| Pipeline.EffectsAreSequential | rtl/riscv_id_stage.sv:1486-1595 | over every run each memory request and conditional branch of the program passes EX exactly once, in order, on the operands of the sequential execution, and nothing else does |
| Pipeline.IssuedOperandsAreSequential | rtl/riscv_id_stage.sv:523-531 | in every reachable state each used operand after the muxes is the sequential value, and EX holds the ALU result on it |
| Pipeline.WaitingLoadIsProtected | rtl/riscv_id_stage.sv:1543-1551 | with a branch in EX and a load waiting in WB the stale address names the load's register, so no reader or rewriter of it issues |
| Pipeline.EmptyPipelineIsSequential | rtl/riscv_register_file.sv:137-160 | once nothing is in flight the register file is the sequential one |
| Pipeline.TwoReadyCyclesDrain | rtl/riscv_ex_stage.sv:539-559 | two ready cycles without decoding empty the pipeline |
| Pipeline.IssuesWithinThree | rtl/riscv_controller.sv:983-1007 | with ready units no hazard holds an instruction for more than two cycles |
| Pipeline.JalrReadsSequentialValue | rtl/riscv_id_stage.sv:597-606 | whenever a JALR redirects the fetch, its unforwarded source register is architecturally up to date |
| Pipeline.JumpRedirectsExactlyOnce | rtl/riscv_controller.sv:483-495 | a jump held in ID any number of cycles redirects exactly once by the time it leaves |
| Pipeline.JumpDoneCounts | rtl/riscv_controller.sv:1077-1078 | jump_done_q is the number of redirects since ID last moved on |
| Pipeline.StaleAddressIsEssential | rtl/riscv_controller.sv:984-990 | in every state that breaks only the stale-address invariant some instruction issues with whatever word is on the write port |
| Pipeline.RegisterFile.Clock | rtl/riscv_register_file.sv:130-158 | port B wins over port A and register 0 stays zero, in place |
| Pipeline.Core.ClockExWb | rtl/riscv_ex_stage.sv:530-551 | the EX/WB register after one edge |
| Pipeline.Core.LatchIdEx | rtl/riscv_id_stage.sv:1486-1595 | which ID/EX fields are loaded and which keep their old value |
| Pipeline.Core.Clock | rtl/riscv_id_stage.sv:1486-1615 | the registers take the modelled step and keep refining the sequential execution |
| AluBits.FirstOne | rtl/riscv_alu.sv:1157-1230 | for every length the selection tree finds the lowest set bit, or reports that there is none |
| AluBits.FfNodeCorrect | rtl/riscv_alu.sv:1189-1222 | every node of the tree describes exactly its own range of input bits |
| AluBits.PopCount | rtl/riscv_alu.sv:1233-1271 | the adder tree counts the ones, and is zero exactly for the zero word |
| AluBits.CntNodeCorrect | rtl/riscv_alu.sv:1247-1269 | no adder of the tree overflows its width |
| AluBits.PrepareNormalises | rtl/riscv_alu.sv:1023-1035 | a nonzero divisor is handed over shifted to the top with its sign, by the shift that is reported |
| AluBits.PrepareZero | rtl/riscv_alu.sv:1034-1051 | a zero divisor is handed over as zero with shift 32 |
| Divider.AddOut | rtl/riscv_alu_div.sv:81-107 | the one adder loads A, negated if the signs differ, and otherwise subtracts B |
| Divider.CompareAndSubtract | rtl/riscv_alu_div.sv:102-107 | the comparator orders magnitudes for both signs and the subtraction is exact when it is used |
| Divider.HalveMagnitude | rtl/riscv_alu_div.sv:86-87 | shifting in ones halves a negative divisor exactly |
| Divider.DivideStep | rtl/riscv_alu_div.sv:149-160 | each DIVIDE cycle keeps dividend = quotient * divisor + rest and rest < 2 * divisor, or finishes with quotient and remainder |
| Divider.DivideLoop | rtl/riscv_alu_div.sv:113-160 | after exactly shift + 1 DIVIDE cycles, at any width, the registers hold quotient and remainder |
| Divider.BusyWhileCounting | rtl/riscv_alu_div.sv:149-160 | until the counter has run out no cycle shows a valid output, and the next one does |
| Divider.ZeroLoop | rtl/riscv_alu_div.sv:103-104 | dividing by zero sets all quotient bits and leaves the dividend |
| Divider.TruncIsDivision | rtl/riscv_alu_div.sv:100-100 | the specification's quotient and remainder satisfy the division equation with the required signs and bounds |
| Divider.ReadOut | rtl/riscv_alu_div.sv:89-100 | reversing, selecting and negating the registers gives the instruction's result |
| Divider.DividerCorrect | rtl/riscv_alu_div.sv:81-188 | for any width, from any idle state, the first valid output of a normalised division comes after exactly shift + 2 edges, load cycle included, and is the section 7.2 result |
| Divider.DividerBusy | rtl/riscv_alu_div.sv:135-168 | no output is valid from the request up to then, whatever the inputs do after the load |
| Divider.ResultHeld | rtl/riscv_alu_div.sv:162-168 | the result stays on the output until it is accepted |
| Divider.DivisionInstruction | rtl/riscv_alu.sv:1029-1062 | DIV, DIVU, REM and REMU on every pair of 32-bit operands: the first valid output is the section 7.2 result, zero divisors and signed overflow included |
| Divider.SerialDivider.Load | rtl/riscv_alu_div.sv:137-147 | the registers after the load cycle |
| Divider.SerialDivider.DivideOnce | rtl/riscv_alu_div.sv:149-160 | the registers after a DIVIDE cycle |
| Divider.SerialDivider.Clock | rtl/riscv_alu_div.sv:135-216 | the outputs and one edge in any state of the FSM |
| VectorLanes.AdderRipples | rtl/riscv_alu.sv:122-172 | the 36-bit addition is a ripple of bytes through their separators |
| VectorLanes.LaneAdds | rtl/riscv_alu.sv:138-166 | every lane of the sum is an addition of its own lanes alone |
| VectorLanes.LaneSumIsModular | rtl/riscv_alu.sv:110-177 | in all three modes every lane is the sum or difference modulo its width |
| VectorLanes.ComparatorIsLaneOrder | rtl/riscv_alu.sv:341-412 | in all three modes all bytes of a lane report equality and the signed or unsigned order of the lane |
| VectorLanes.LaneShiftsLeft | rtl/riscv_alu.sv:213-305 | reversing around the right shifter shifts every lane left by its own amount |
| FetchFifo.AcceptKeeps | rtl/riscv_fetch_fifo.sv:143-180 | accepting a word or a loop target keeps the FIFO holding the stream that is due |
| FetchFifo.OutputCorrect | rtl/riscv_fetch_fifo.sv:72-111 | the output, bypassed or not, is the head of that stream with its address |
| FetchFifo.OfferedWhenComplete | rtl/riscv_fetch_fifo.sv:72-108 | an instruction is offered exactly when all its words are there, always when a loop target is stored behind it |
| FetchFifo.StoredIffComplete | rtl/riscv_fetch_fifo.sv:115-129 | out_valid_stored_o says exactly whether the instruction is complete without the input port |
| FetchFifo.PopKeeps | rtl/riscv_fetch_fifo.sv:182-235 | taking the output advances the stream by one instruction |
| FetchFifo.StepRefines | rtl/riscv_fetch_fifo.sv:143-273 | every cycle refines the stream, clears and same-cycle pops included |
| FetchFifo.RunRefines | rtl/riscv_fetch_fifo.sv:143-273 | over any run the consumer gets exactly what the memory says |
| FetchFifo.PlainRunIsParse | rtl/riscv_fetch_fifo.sv:72-235 | without loops it gets the 16/32-bit parse from the first address: nothing lost, repeated or split |
| FetchFifo.LoopTargetFollowsCurrent | rtl/riscv_fetch_fifo.sv:161-202 | a loop target, into a full FIFO too, lets the current instruction out whole at its own address in the first ready cycle, and follows in the next one if its words have come, with its stream behind it |
| PrefetchBuffer.FifoEnvIsMet | rtl/riscv_prefetch_buffer.sv:240-408 | without loops the fetch FSM meets every assumption the FIFO makes on its input |
| PrefetchBuffer.StepKeepsInv | rtl/riscv_prefetch_buffer.sv:240-434 | one fetch at most is outstanding, for the word the FIFO is due, with room for it |
| PrefetchBuffer.FifoEnvRunIsMet | rtl/riscv_prefetch_buffer.sv:240-434 | the same over every run, with branches, aborted fetches and stalls anywhere |
| PrefetchBuffer.ResetHasInv | rtl/riscv_prefetch_buffer.sv:414-422 | the invariant holds after reset |
| PrefetchBuffer.BranchDeliversParse | rtl/riscv_prefetch_buffer.sv:89-110 | end to end: from a branch to the next one the core gets the 16/32-bit parse of the memory from the branch target |
| PrefetchBuffer.RequestIsHeld | rtl/riscv_prefetch_buffer.sv:303-325 | a request that is not granted is repeated, for the same word unless a branch comes |
| PrefetchBuffer.NeverStuck | rtl/riscv_prefetch_buffer.sv:240-408 | while the core asks and there is room, there is a request or an answer due |
| PrefetchBuffer.NextInstructionComes | rtl/riscv_prefetch_buffer.sv:240-434 | in any reachable state the next instruction is delivered once there were two grants and answers per word and one for an aborted fetch, whenever they come |
| PrefetchBuffer.Prefetcher.Clock | rtl/riscv_prefetch_buffer.sv:414-432 | one edge of the FSM, the address register and the FIFO in place |
| FetchFifo.Fifo.AcceptWord | rtl/riscv_fetch_fifo.sv:150-159 | the word goes into the first free slot, in place |
| FetchFifo.Fifo.ReplaceSecond | rtl/riscv_fetch_fifo.sv:161-178 | the second entry becomes the loop target and entry 0 the word being served |
| FetchFifo.Fifo.PopEntry | rtl/riscv_fetch_fifo.sv:192-234 | entries move down, or only the address moves within a word |
| FetchFifo.Fifo.Clock | rtl/riscv_fetch_fifo.sv:143-273 | one edge takes the modelled step |
| ApuDispatcher.StepRefines | rtl/riscv_apu_disp.sv:89-145 | for every latency and response time the two slots are a queue of capacity two, and a response names its oldest entry |
| ApuDispatcher.DepExact | rtl/riscv_apu_disp.sv:164-193 | read_dep_o and write_dep_o are reported exactly for valid registers of the request or of operations not returning now |
| ApuDispatcher.AcceptedIffNotStalled | rtl/riscv_apu_disp.sv:195-205 | a request enters exactly when there is no stall, and never a full dispatcher |
| ApuDispatcher.AcceptsIff | rtl/riscv_apu_disp.sv:195-205 | which requests are passed on, accepted and stalled, in terms of the outstanding operations: all into an idle dispatcher, class 2 beside one that is not of class 3, none beside two |
| ApuDispatcher.ResponsesInOrder | rtl/riscv_apu_disp.sv:98-145 | over every run responses come in order of acceptance and accepted minus returned is the occupancy |
| ApuDispatcher.QueueBalance | rtl/riscv_apu_disp.sv:218-226 | in one cycle nothing is lost or answered twice |
| ApuDispatcher.StepKeepsClasses | rtl/riscv_apu_disp.sv:153-162 | for every response time class 3 is alone, only class 2 enters beside another operation, and classes start to mix exactly when it enters beside an unanswered single-cycle one |
| ApuDispatcher.RunIsOneClassIff | rtl/riscv_apu_disp.sv:199-203 | outstanding operations share one class throughout a run exactly if no request ever entered beside an unanswered single-cycle one |
| ApuDispatcher.InTimeIsOneClass | rtl/riscv_apu_disp.sv:199-203 | so they do if single-cycle requests are answered with their grant, and then none is ever outstanding |
| ApuDispatcher.Dispatcher.Clock | rtl/riscv_apu_disp.sv:103-162 | one edge takes the modelled step; a response carries the oldest address and both dependencies are exact |
| L0Buffer.StepKeepsInv | rtl/riscv_L0_buffer.sv:58-264 | at most one fetch is outstanding and a filled buffer is the line of the kept address |
| L0Buffer.RunKeepsInv | rtl/riscv_L0_buffer.sv:58-264 | the same in every reachable state |
| L0Buffer.ShownLineIsMemory | rtl/riscv_L0_buffer.sv:271-276 | whatever is shown as valid is the memory line of the address shown with it; an aborted line never is |
| L0Buffer.AddressIsLastAsked | rtl/riscv_L0_buffer.sv:261-262 | the address shown is fixed by the trace of requests, grants and responses: the last branch, or a later loop target or prefetch when nothing stood in its way |
| L0Buffer.GrantedFetchIsShown | rtl/riscv_L0_buffer.sv:58-264 | a granted fetch left alone is shown when its answer comes, however late, under the address asked for, and stays |
| L0Buffer.RequestIsHeld | rtl/riscv_L0_buffer.sv:91-118 | a request that is not granted is repeated, for the same address unless a branch or loop target comes |
| L0Buffer.EveryEventCounts | rtl/riscv_L0_buffer.sv:58-264 | with nothing else asked each grant and answer brings the line asked for one step nearer, and it is in the buffer when none is due, after an aborted fetch too |
| L0Buffer.PrefetchWhileWaitingRelabels | rtl/riscv_L0_buffer.sv:261-276 | a prefetch while waiting makes the answer right exactly if the two lines are equal |
| L0Buffer.Buffer.Clock | rtl/riscv_L0_buffer.sv:241-264 | one edge takes the modelled step and shows only memory |
| HwLoop.CounterTestMeansTwoLeft | rtl/riscv_hwloop_controller.sv:65-73 | the bitwise test asks whether counter minus the decrement in flight is at least two |
| HwLoop.Charged | rtl/riscv_hwloop_controller.sv:86-92 | the loop that jumps is the lowest-numbered one at its end |
| HwLoop.ResetHasInv | rtl/riscv_hwloop_regs.sv:69-111 | the invariant holds after reset, with both loops unset |
| HwLoop.JumpsIffTwoLeft | rtl/riscv_hwloop_controller.sv:59-76 | at its end a loop jumps exactly if two iterations are left, wherever decrements are under way, or at its own target if one is left |
| HwLoop.NextFetch | rtl/riscv_hwloop_controller.sv:59-96 | the next fetch address is the start of the lowest-numbered loop at its end with two iterations left, and the instruction behind if there is none |
| HwLoop.StepLeft | rtl/riscv_if_stage.sv:352-404 | one edge, any write: only the jump uses up an iteration, of the loop that jumps; a counter write wins over a landing decrement |
| HwLoop.TargetJumpsOnlyItself | rtl/riscv_hwloop_controller.sv:81-93 | at a loop target only a one-instruction loop of its own jumps |
| HwLoop.StepKeepsInv | rtl/riscv_hwloop_regs.sv:101-124 | the invariant survives every cycle with no write or with one to a loop that has nothing under way and keeps apart from the other loop in use |
| HwLoop.RunKeepsInv | rtl/riscv_hwloop_regs.sv:101-124 | and so every orderly run, from reset or any state reached |
| HwLoop.SingleLoopIsInOrder | rtl/riscv_hwloop_regs.sv:66-95 | while one loop is unused, whatever its registers hold, every write to the other settled one is in order |
| HwLoop.JumpsUseUpIterations | rtl/riscv_hwloop_regs.sv:101-124 | over any run that leaves a loop alone its jumps are the iterations it lost, also while the other loop is set again |
| HwLoop.TransfersAreJumps | rtl/riscv_hwloop_controller.sv:78-96 | its jumps are the transfers of the fetch from its end to its start, visible on the addresses alone where these tell it from the next instruction and the other loop |
| HwLoop.LoopJumpsBackExactly | rtl/riscv_hwloop_controller.sv:59-96 | with N iterations left the fetch goes from the end back to the start N - 1 times before the end is passed, also at an end shared with an outer loop that goes on, or N times for a one-instruction body and N >= 2: N - 1 exactly if the body is longer or N is 1 |
| HwLoop.PassedLoopIsLeft | rtl/riscv_if_stage.sv:285-317 | from the end that is passed the fetch goes to the instruction behind it, or to the start of an outer loop that ends there and goes on |
| HwLoop.WritingSetsIterations | rtl/riscv_hwloop_regs.sv:66-124 | a counter write sets the iterations, less the decrements still under way after the edge, and start and end are what was written last |
| HwLoop.OneInstructionBodyOverruns | rtl/riscv_hwloop_controller.sv:71-71 | over every orderly run a one-instruction body with N >= 2 iterations jumps N times |
| HwLoop.ProgrammedLoopJumps | rtl/riscv_hwloop_regs.sv:101-124 | from the cycle that writes the counter to passing the end in one chain: the number of jumps for every count written |
| HwLoop.LoopRegs.Clock | rtl/riscv_hwloop_regs.sv:69-124 | start, end and counter registers after one edge, in place |
| HwLoop.LoopFetch.Clock | rtl/riscv_if_stage.sv:352-404 | the fetch-side registers take the modelled step |
| IrqHandshake.StepKeepsInv | rtl/riscv_controller.sv:298-959 | the controller acknowledges only a pending request and decodes right after |
| IrqHandshake.RunKeepsInv | rtl/riscv_controller.sv:298-959 | the same in every reachable state |
| IrqHandshake.PendingSince | rtl/riscv_int_controller.sv:72-97 | a pending request goes back to one accepting cycle and kept its id |
| IrqHandshake.AckAnswersARequest | rtl/riscv_controller.sv:670-725 | every acknowledgement answers a request accepted with interrupts enabled, with the id presented then, and is the first answer to it |
| IrqHandshake.RequestBalance | rtl/riscv_int_controller.sv:65-111 | over every run requests = acknowledged + withdrawn + still pending, so none is acknowledged twice |
| IrqHandshake.AcksAreSeparatedByAnEnable | rtl/riscv_cs_registers.sv:818-851 | between two acknowledgements software set mie by a CSR write or an mret, and only then was the second request accepted |
| IrqHandshake.HeldRequestIsServed | rtl/riscv_controller.sv:390-399 | a request that is held and not masked is served from decode in two cycles |
| IrqHandshake.DroppedRequestIsForgotten | rtl/riscv_controller.sv:636-642 | a request dropped meanwhile is withdrawn and the held instruction decoded again |
| IrqHandshake.ControllerSettles | rtl/riscv_controller.sv:298-959 | from every state, reset included, four calm cycles suffice to decode or to sleep |
| IrqHandshake.InterruptEndsSleep | rtl/riscv_controller.sv:332-376 | an interrupt wakes the core; an enabled one is taken before the next instruction with its id, a masked one lets the core go on |
| IrqHandshake.WfiSleeps | rtl/riscv_controller.sv:321-349 | a wfi that nothing interrupts puts the core to sleep |
| IrqHandshake.DebugRequestIsTaken | rtl/riscv_controller.sv:878-956 | a debug request goes before any interrupt and enters debug mode in three cycles without an acknowledgement |
| IrqHandshake.StepEntersDebug | rtl/riscv_controller.sv:556-584 | a single-stepped plain instruction is followed by debug mode |
| IrqHandshake.LoadEventServes | rtl/riscv_controller.sv:654-674 | a load event that has arrived lets an enabled interrupt in |
| IrqHandshake.TrapMasks | rtl/riscv_controller.sv:470-530 | an illegal instruction, ecall or ebreak masks interrupts, keeps the old enable bit, withdraws a pending request and flushes |
| IrqHandshake.RunKeepsStatusInv | rtl/riscv_controller.sv:541-544 | in every run a CSR instruction of the status group is in EX only while the controller waits for it or is in the debugger, never when it decides to serve an interrupt |
| IrqHandshake.AckSavesEnabled | rtl/riscv_cs_registers.sv:836-842 | after every acknowledgement in every run mie is clear and the saved bit is set |
| IrqHandshake.MretReenables | rtl/riscv_cs_registers.sv:846-851 | a handler that leaves mstatus alone and is not trapped returns with interrupts enabled |
| IrqHandshake.MretRestoresTrap | rtl/riscv_cs_registers.sv:836-851 | a trap handler that leaves mstatus alone returns with the enable bit of the time of the trap |
| IrqHandshake.IntController.Clock | rtl/riscv_int_controller.sv:65-111 | one edge of the interrupt controller |
| IrqHandshake.Machine.Clock | rtl/riscv_controller.sv:1048-1085 | one edge of the composed machine; an acknowledgement leaves the controller done and interrupts masked |
| FlexFloat.PackFields | tb/core/fpnew/tb/flexfloat/include/flexfloat.h:109-113 | packing and extracting are inverse |
| FlexFloat.CodeFields | tb/core/fpnew/tb/flexfloat/src/flexfloat.c:80-84 | a code word is its three fields |
| FlexFloat.SetThenGet | tb/core/fpnew/tb/flexfloat/src/flexfloat.c:80-104 | reading back a code word gives the word that was set, for all words whose shifts are defined in C |
| FlexFloat.FlexFloat.Sanitize | tb/core/fpnew/tb/flexfloat/src/flexfloat.c:169-272 | the value becomes Sanitized of it in place, whose meaning FlexRounding states for every mode |
| FlexFloat.FlexFloat.SetBits | tb/core/fpnew/tb/flexfloat/src/flexfloat.c:92-95 | the value becomes the packed word and reads back as it |
| FlexRounding.TruncatedIsFloor | tb/core/fpnew/tb/flexfloat/src/flexfloat.c:230-271 | cutting off bits gives the largest target value not above, target subnormals and overflow included |
| FlexRounding.NoLevelBetween | tb/core/fpnew/tb/flexfloat/src/flexfloat.c:238-256 | no value of the target lies between the kept part and the next step |
| FlexRounding.SanitizedIsRepresentable | tb/core/fpnew/tb/flexfloat/src/flexfloat.c:169-272 | in every mode and however the addition rounds the result is a target value with the input's sign |
| FlexRounding.NanSurvivesIff | tb/core/fpnew/tb/flexfloat/src/flexfloat.c:258-271 | a NaN stays one exactly if its payload reaches the target's fraction |
| FlexRounding.TowardZeroIsFloor | tb/core/fpnew/tb/flexfloat/src/flexfloat.c:205-271 | FE_TOWARDZERO gives the largest magnitude not above, and infinity, not a NaN, exactly from the target's infinity exponent on |
| FlexRounding.NearestRoundingIsHalf | tb/core/fpnew/tb/flexfloat/src/flexfloat.c:109-123 | the tested bit says whether at least half a step is discarded |
| FlexRounding.RoundingValueFields | tb/core/fpnew/tb/flexfloat/src/flexfloat.c:150-165 | the value added is one step of the target with the input's sign |
| FlexRounding.SumWithStep | tb/core/fpnew/tb/flexfloat/src/flexfloat.c:213-226 | the rounded sum is exact up to the next binade and off by at most its last place beyond |
| FlexRounding.SumTruncatesToStep | tb/core/fpnew/tb/flexfloat/src/flexfloat.c:213-256 | adding a step and cutting off lands on the next target value, into the next binade too |
| FlexRounding.NumberStaysNumber | tb/core/fpnew/tb/flexfloat/src/flexfloat.c:258-271 | in every mode and with any faithful addition a number stays a number of its sign; from the target's infinity exponent on it becomes infinity, and an infinity stays one |
| FlexRounding.ToNearestIsNearest | tb/core/fpnew/tb/flexfloat/src/flexfloat.c:205-271 | with any faithful addition FE_TONEAREST gives every finite input its nearest target value, ties away from zero, infinity and never a NaN beyond the format, except for subnormals of all ones |
| FlexRounding.ToNearestIsNearestIff | tb/core/fpnew/tb/flexfloat/src/flexfloat.c:109-123 | with round-to-nearest-even addition, of all finite inputs exactly those subnormals, unless too small to be rounded, are wrong, and they become numbers of their sign too |
| FlexRounding.IeeeSumQualifies | tb/core/fpnew/tb/flexfloat/src/flexfloat.c:213-226 | an addition that rounds to nearest even meets every assumption made on the backend addition |
| FlexRounding.DirectedSumQualifies | tb/core/fpnew/tb/flexfloat/src/flexfloat.c:218-226 | a directed addition meets every assumption made for its mode |
| FlexRounding.RepresentableIsFixed | tb/core/fpnew/tb/flexfloat/src/flexfloat.c:169-272 | target values, zeros, infinities and fitting NaNs pass unchanged in every mode, but for a zero that is rounded away from |
| FlexRounding.RepresentableIsFixedIff | tb/core/fpnew/tb/flexfloat/src/flexfloat.c:185-194 | exactly that zero does not: it becomes the smallest value of the target |
| FlexRounding.SanitizeIsIdempotent | tb/core/fpnew/tb/flexfloat/src/flexfloat.c:169-272 | sanitizing twice is sanitizing once in every mode, for every input |
| FlexRounding.InfRoundingSees | tb/core/fpnew/tb/flexfloat/src/flexfloat.c:126-147 | the directed test sees every discarded bit but those shifted out before it looks |
| FlexRounding.DirectedTowardZero | tb/core/fpnew/tb/flexfloat/src/flexfloat.c:128-146 | on the far side of zero a directed mode is rounding toward zero |
| FlexRounding.DirectedUnlessAllOnes | tb/core/fpnew/tb/flexfloat/src/flexfloat.c:126-147 | away from zero, with an addition faithful for the input's sign, finite inputs other than subnormals of all ones give the next target value or infinity exactly if nonzero and without unseen bits |
| FlexRounding.DirectedIsCeilingIff | tb/core/fpnew/tb/flexfloat/src/flexfloat.c:126-147 | with the addition of the mode in force the next target value, or infinity, comes out for exactly the nonzero finite inputs without unseen bits that are not subnormals of all ones within reach of rounding, and always a number |
| FlexRounding.SetDenotesIff | tb/core/fpnew/tb/flexfloat/src/flexfloat.c:58-90 | setting a code word sets the zero, number, infinity or NaN it denotes exactly if it is not a subnormal one |
| StatsTable.HashIsInjective | tb/core/fpnew/tb/flexfloat/include/flexfloat.h:249-252 | different formats have different keys, and only the empty format has key 0 |
| StatsTable.Hash2IsInjective | tb/core/fpnew/tb/flexfloat/include/flexfloat.h:254-257 | the same for pairs of formats |
| StatsTable.SearchEndsIff | tb/core/fpnew/tb/flexfloat/src/flexfloat.c:535-546 | probing ends exactly if some slot is empty or holds the key |
| StatsTable.InsertEndsIff | tb/core/fpnew/tb/flexfloat/src/flexfloat.c:547-557 | the insertion loop ends exactly if some slot is empty |
| StatsTable.FullTableIsCaughtIff | tb/core/fpnew/tb/flexfloat/src/flexfloat.c:550-554 | its assertion fails exactly in a full table for a key that is a slot number |
| StatsTable.EmptyMeansAbsent | tb/core/fpnew/tb/flexfloat/src/flexfloat.c:537-545 | an empty slot on the way proves that the key is nowhere |
| StatsTable.InsertKeepsChained | tb/core/fpnew/tb/flexfloat/src/flexfloat.c:547-557 | filling the first empty slot keeps every key reachable |
| StatsTable.DistinctKeys | tb/core/fpnew/tb/flexfloat/src/flexfloat.c:535-557 | occupied slots hold different keys |
| StatsTable.Table.FewFormatsLeaveASlot | tb/core/fpnew/tb/flexfloat/include/flexfloat.h:220-232 | with fewer formats than slots one slot stays empty |
| StatsTable.Table.Search | tb/core/fpnew/tb/flexfloat/src/flexfloat.c:535-546 | returns the key's record, or null exactly if it has none, from any home slot with wrap-around |
| StatsTable.Table.Insert | tb/core/fpnew/tb/flexfloat/src/flexfloat.c:547-557 | adds the key to the map by changing one empty slot; the assertion never fails |
| StatsTable.Table.GetOpStats | tb/core/fpnew/tb/flexfloat/src/flexfloat.c:559-569 | one and the same record per format, a fresh one per new format; the empty format gets a fresh one every time |
| StatsTable.Table.GetCastStats | tb/core/fpnew/tb/flexfloat/src/flexfloat.c:571-581 | the same per pair of formats |
| StatsTable.Table.CountOp | tb/core/fpnew/tb/flexfloat/src/flexfloat.c:415-417 | counting an operation adds one to one counter of its own format and to nothing else |
| StatsTable.TallyIsExact | tb/core/fpnew/tb/flexfloat/src/flexfloat.c:415-417 | after any sequence of counts every counter holds the number of its own, in 64 bits |

## Left out

- Pipeline: APU operations, misaligned accesses, CSR accesses, `data_err_i` and floating-point registers are not modelled; a multi-cycle multiplication is an ALU result that is not ready; a taken branch is a cycle whose ID instruction is not decoded.
- Pipeline: the load/store unit is the assumption that the loaded value is on the write port when WB is ready; what it computes and when it becomes ready is an input.
- FetchFifo.RunRefines: with hardware loops the prefetch buffer is the assumption `Env`: words in order and only while the last slot is free, a loop target only when the current instruction is stored completely. Its loop FSM is not part of this model; without loops `PrefetchBuffer` proves the assumption.
- PrefetchBuffer: the protection unit's errors, and a core that branches without requesting instructions.
- ApuDispatcher: the shared unit itself; it is an input that answers only what it was given.
- L0Buffer.ShownLineIsMemory: memory answers grants in order; the state that fetches a cross-line instruction lives in the buffer's user and is not part of this model. WAIT_HWLOOP is never entered by the code.
- HwLoop.LoopJumpsBackExactly: pipeline squashes of a loop target and rewrites of the loop's own registers before its end is passed are excluded; no loop in use may start where the other one in use ends.
- IrqHandshake: PULP_SECURE=1, user mode and the secure bit; the values written to mstatus are inputs.
- IrqHandshake.AckSavesEnabled: assumes that a CSR instruction in EX is valid exactly when EX is ready, which an idle APU guarantees, and that memory errors do not occur, as the protection unit is absent in this configuration.
- FlexFloat: the single and quad backends, casts, arithmetic operators, tracking and the C++ wrapper; the format of the backend itself, which sanitize returns unchanged.
- FlexFloat: the branches of the rounding helpers for a subnormal backend value are kept, but sanitize never reaches them and nothing is proved about them.
- FlexFloat.SetThenGet: only formats and code words for which the shifts of a C int are defined: at most 30 fraction bits, and at most 31 code bits, or 32 with a clear sign.
- StatsTable: ff_clear_stats and printing; records are objects, not freed memory.
- VectorLanes: the rounding variants that add a 32-bit constant after the adder, sub-rotate, and arithmetic right shifts.
- Floating-point, multiplier, load/store unit, PMP, debug unit, performance counters, instruction decoders and the VHDL self-test wrappers.

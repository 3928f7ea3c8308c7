# OTBN simulator start/stop control, in Dafny

This project models the start/stop control state of the OTBN (OpenTitan Big
Number accelerator) instruction-set simulator, `OTBNState` in
`hw/ip/otbn/dv/otbnsim/sim/state.py`. That object mirrors the RTL's
`otbn_start_stop_control` FSM:

- the FSM states (PRE_WIPE, WIPING, IDLE, PRE_EXEC, EXEC, MEM_SEC_WIPE,
  LOCKED) with their integer codes;
- the two-phase update, where a next state is chosen during a cycle and
  made current by `commit`, counting cycles spent in one state;
- the initial secure wipe (NOT_DONE, IN_PROGRESS, DONE);
- the program counter, the next-PC override a jump sets, and the check
  that a PC is word-aligned and inside IMEM;
- `start` and `stop`, including the decision whether a stop must lock
  (fatal error bits, error bit 10, software errors made fatal, an RMA
  request) and the choice between PRE_WIPE, LOCKED and "lock after the
  wipe";
- the error mask, the pending halt, injected errors and the
  post-instruction check of the next PC;
- the two-commit IMEM invalidation countdown and the 68-cycle wipe load.

Each Python method that mutates the state is a pure function from one
immutable `OtbnState` record to the next. Each function's contract says
which fields change and how, and that nothing else changes. The flat Python
object is grouped into small records: PC, IMEM, FSM, wipe, errors and
external registers.

Files:

- `option.dfy`: `Options.Option` for the Python `Optional[int]` fields.
- `bits.dfy`: `Bits`. Python's `>>`, `&` and `|` on non-negative ints are
  written out as `Shr`, `Bit` and `Or`, with bit-level lemmas.
- `fsm.dfy`: `Fsm`. The enumerations and their integer codes.
- `state.dfy`: `SimState`. The state record, the invariant `Valid`, and one
  function per method.
- `properties.dfy`: `SimStateProps`. Lemmas relating several calls.

Python `assert`s are preconditions. `set_next_pc` requires a valid PC.
`stop` requires `StopAssertionsHold`: a stop must lock, except without
`lock_immediately`, from the EXEC state, or from a state other than
PRE_WIPE and WIPING before the initial secure wipe has started. With
`lock_immediately` it must lock in every state. Error masks are unbounded naturals, like Python ints.

## Model

| member | source | states |
|---|---|---|
| Fsm.FsmFromCode | hw/ip/otbn/dv/otbnsim/sim/state.py:63-69 | decoding an integer gives back the FSM state with that IntEnum value, and only codes of states decode |
| Fsm.InitSecWipeFromCode | hw/ip/otbn/dv/otbnsim/sim/state.py:72-75 | decoding an integer gives back the initial-secure-wipe state with that value, and only those codes decode |
| SimStateProps.FsmCodeInjective | hw/ip/otbn/dv/otbnsim/sim/state.py:63-69 | distinct FSM states have distinct codes, and decoding a state's code recovers it |
| Bits.Or | hw/ip/otbn/dv/otbnsim/sim/state.py:540 | OR-ing error masks gives zero exactly when both masks are zero, and never loses magnitude |
| Bits.OrBit | hw/ip/otbn/dv/otbnsim/sim/state.py:540 | bit i of (a OR b) is set iff bit i is set in a or in b |
| Bits.HighBitsIff | hw/ip/otbn/dv/otbnsim/sim/state.py:407 | `e >> k` is non-zero iff some bit of e at position k or above is set |
| SimState.Init | hw/ip/otbn/dv/otbnsim/sim/state.py:79-188 | a fresh state is in PRE_WIPE (now and next), the initial secure wipe has not started, nothing is pending, the next PC is 4, the wipe counter is unloaded, and the invariant holds |
| SimState.IsPcValid | hw/ip/otbn/dv/otbnsim/sim/state.py:481-496 | a PC is valid exactly when it is a multiple of 4 and below the IMEM size (the source tests `pc & 3`) |
| SimState.NextPc | hw/ip/otbn/dv/otbnsim/sim/state.py:190-193 | the next PC is the override when a jump set one, otherwise PC + 4 |
| SimState.SetNextPc | hw/ip/otbn/dv/otbnsim/sim/state.py:195-198 | needs a valid PC; afterwards the next PC is that PC, and the PC itself and everything else are unchanged |
| SimState.Executing | hw/ip/otbn/dv/otbnsim/sim/state.py:279-282 | OTBN counts as executing exactly in PRE_WIPE, WIPING, PRE_EXEC and EXEC |
| SimState.IsWiping | hw/ip/otbn/dv/otbnsim/sim/state.py:284-285 | wiping is exactly being in the one executing state that is neither PRE_WIPE, PRE_EXEC nor EXEC |
| SimStateProps.EnteredStateExecuting | hw/ip/otbn/dv/otbnsim/sim/state.py:279-285 | after the commit that enters a requested state, OTBN is executing iff that state is not IDLE, LOCKED or MEM_SEC_WIPE, and wiping iff it is WIPING |
| SimState.StartInitSecWipe | hw/ip/otbn/dv/otbnsim/sim/state.py:236-239 | the initial secure wipe is running and not done; only its progress field changes |
| SimState.InitSecWipeIsRunning | hw/ip/otbn/dv/otbnsim/sim/state.py:241-242 | the initial secure wipe is running iff it has started and is not done, so never running and done at once |
| SimState.InitSecWipeIsDone | hw/ip/otbn/dv/otbnsim/sim/state.py:244-245 | the initial secure wipe is done iff it is past both NOT_DONE and IN_PROGRESS |
| SimState.CompleteInitSecWipe | hw/ip/otbn/dv/otbnsim/sim/state.py:247-248 | the initial secure wipe is done and no longer running; only its progress field changes |
| SimStateProps.InitSecWipeProgress | hw/ip/otbn/dv/otbnsim/sim/state.py:236-248 | from a fresh state, starting and then completing the initial secure wipe goes from not done, to running, to done |
| SimState.SetFsmState | hw/ip/otbn/dv/otbnsim/sim/state.py:459-466 | the next state is the requested one; the wipe counter is loaded with 68 iff that state is WIPING, and nothing else changes |
| SimState.TickImemInvalidation | hw/ip/otbn/dv/otbnsim/sim/state.py:300-304 | one commit counts the IMEM invalidation down; reaching zero invalidates IMEM and ends the countdown |
| SimState.CommitFsm | hw/ip/otbn/dv/otbnsim/sim/state.py:306-313 | the next state becomes current; the cycle counter goes up by one if the state is unchanged and restarts at 0 if it changed |
| SimState.Commit | hw/ip/otbn/dv/otbnsim/sim/state.py:299-338 | commits the FSM and the IMEM countdown; when the old state was EXEC or WIPING and the sim is not stalled, the PC becomes the next PC and the override is dropped, otherwise PC and override stay; nothing else changes and the invariant is kept |
| SimStateProps.CommitsInSettledState | hw/ip/otbn/dv/otbnsim/sim/state.py:306-313 | with no state change requested, any number of commits keep the FSM state, and the counter grows by the number of commits |
| SimStateProps.CommitsEnterNextState | hw/ip/otbn/dv/otbnsim/sim/state.py:306-313 | after n > 0 commits the requested state is current, and the counter has counted the n - 1 commits since entering it |
| SimStateProps.SetFsmStateThenCommit | hw/ip/otbn/dv/otbnsim/sim/state.py:459-466 | a requested state is not current until the next commit, and is current right after it, with the counter reset unless it was already the state |
| SimStateProps.SetNextPcThenCommit | hw/ip/otbn/dv/otbnsim/sim/state.py:326-338 | a jump target set in EXEC or WIPING becomes the PC at an unstalled commit; a stalled commit keeps both PC and target |
| SimStateProps.CommitStepsOneWord | hw/ip/otbn/dv/otbnsim/sim/state.py:190-193 | with no jump, an unstalled commit in EXEC advances the PC by 4 |
| SimStateProps.CommitsOutsideExecKeepPc | hw/ip/otbn/dv/otbnsim/sim/state.py:326-327 | with no state change requested, commits outside EXEC and WIPING never move the PC or drop the override |
| SimState.InvalidateImem | hw/ip/otbn/dv/otbnsim/sim/state.py:543-544 | arms the IMEM invalidation countdown at 2 and changes nothing else |
| SimState.ClearImemInvalidation | hw/ip/otbn/dv/otbnsim/sim/state.py:546-549 | no invalidation is pending or in effect afterwards; IMEM size and the rest are unchanged |
| SimStateProps.ImemCountdown | hw/ip/otbn/dv/otbnsim/sim/state.py:300-304 | a countdown of k invalidates IMEM on exactly the k-th commit; before that it has counted down by the number of commits |
| SimStateProps.CommitsKeepSettledImem | hw/ip/otbn/dv/otbnsim/sim/state.py:300-304 | with no countdown running, commits leave the IMEM state as it is |
| SimStateProps.InvalidateImemTakesTwoCommits | hw/ip/otbn/dv/otbnsim/sim/state.py:543-544 | after invalidate_imem, IMEM is invalidated iff at least two commits have happened (or it already was), and the countdown is gone exactly then |
| SimStateProps.ClearUndoesInvalidate | hw/ip/otbn/dv/otbnsim/sim/state.py:546-549 | clearing right after invalidating returns the state it started from |
| SimStateProps.CommitsPreserveValid | hw/ip/otbn/dv/otbnsim/sim/state.py:299-338 | any run of commits keeps the invariant: rounds done never exceed rounds to do, the wipe counter is loaded in WIPING, the countdown is 1 or 2, and the override is a valid PC |
| SimState.Start | hw/ip/otbn/dv/otbnsim/sim/state.py:351-375 | STATUS becomes BUSY_EXECUTE, the error bits and pending halt are cleared, the FSM is PRE_EXEC now and next, the PC is 0 and there is state to wipe; the override and everything else are unchanged |
| SimState.PublishStop | hw/ip/otbn/dv/otbnsim/sim/state.py:403-412 | raises the done bit (bit 0) of INTR_STATE and keeps its other bits, and publishes the error bits in ERR_BITS |
| SimState.Halt | hw/ip/otbn/dv/otbnsim/sim/state.py:395-415 | an instruction that failed in EXEC loses its next-PC override; INTR_STATE done and ERR_BITS are published and the pending halt is cleared |
| SimState.Stop | hw/ip/otbn/dv/otbnsim/sim/state.py:377-451 | lock_immediately leads to LOCKED in the FSM and STATUS; a stop from EXEC goes to PRE_WIPE, writes STOP_PC and WIPE_START, zeroes the rounds done and will lock after the wipe exactly when it should lock; a stop while wiping makes the wipe lock; a stop during the initial secure wipe keeps the halt pending; a stop after it goes to LOCKED in the FSM and STATUS; in every case the done interrupt and ERR_BITS are published, and the invariant is kept |
| SimState.StopIfPendingHalt | hw/ip/otbn/dv/otbnsim/sim/state.py:287-291 | stops exactly when a halt is pending and reports whether it did; otherwise the state is untouched |
| SimState.ShouldLock | hw/ip/otbn/dv/otbnsim/sim/state.py:407-410 | a stop must lock iff some error bit at position 16 or above is set, or bit 10, or any bit while software errors are fatal, or RMA is requested |
| SimState.StopAssertionsHold | hw/ip/otbn/dv/otbnsim/sim/state.py:417-451 | the asserts of stop, branch by branch: with lock_immediately the stop must lock; from EXEC anything goes; from PRE_WIPE or WIPING it must lock; from any other state it must lock unless the initial secure wipe has not started |
| SimStateProps.ShouldLockMonotone | hw/ip/otbn/dv/otbnsim/sim/state.py:407-410 | adding error bits never turns a locking stop into a non-locking one |
| SimStateProps.StopHonoursLock | hw/ip/otbn/dv/otbnsim/sim/state.py:417-451 | a stop that must lock locks now, marks the wipe to end locked, or keeps the halt pending; the one exception is a non-running state before the initial secure wipe |
| SimStateProps.StopFromExecWithoutLock | hw/ip/otbn/dv/otbnsim/sim/state.py:426-438 | a stop from EXEC that need not lock starts a wipe that will not lock |
| SimStateProps.StopFromExecThenCommit | hw/ip/otbn/dv/otbnsim/sim/state.py:426-438 | after a stop from EXEC and a commit, the FSM has just entered PRE_WIPE, STOP_PC is the stopping PC, rounds done are 0, no halt is pending, and the wipe locks exactly when the stop should lock |
| SimStateProps.StopLockImmediatelyThenCommit | hw/ip/otbn/dv/otbnsim/sim/state.py:417-420 | with lock_immediately, the commit after a stop leaves OTBN LOCKED, not executing, with STATUS LOCKED |
| SimStateProps.StopDuringInitSecWipeStaysPending | hw/ip/otbn/dv/otbnsim/sim/state.py:442-446 | a stop during the initial secure wipe leaves the FSM alone and the halt pending, so stop_if_pending_halt takes it again |
| SimState.StopAtEndOfCycle | hw/ip/otbn/dv/otbnsim/sim/state.py:533-541 | the error bits become the union of the old bits and the given bits, a halt is pending, and nothing else changes |
| SimStateProps.StopAtEndOfCycleKeepsLock | hw/ip/otbn/dv/otbnsim/sim/state.py:533-541 | reporting more errors keeps a stop that must lock locking |
| SimStateProps.StopAtEndOfCycleIdempotent | hw/ip/otbn/dv/otbnsim/sim/state.py:540-541 | reporting the same errors twice equals reporting them once |
| SimStateProps.StopAtEndOfCycleMerges | hw/ip/otbn/dv/otbnsim/sim/state.py:540 | two reports in one cycle equal one report of their union, in either order |
| SimState.TakeInjectedErrBits | hw/ip/otbn/dv/otbnsim/sim/state.py:557-561 | nothing stays injected; with no injected bits the state is untouched, otherwise a halt is pending with the injected bits added to the error bits |
| SimStateProps.TakeInjectedErrBitsIdempotent | hw/ip/otbn/dv/otbnsim/sim/state.py:557-561 | taking injected errors a second time changes nothing |
| SimState.Step | hw/ip/otbn/dv/otbnsim/sim/state.py:293-297 | injected errors are taken iff asked for; afterwards none remain in that case |
| SimState.CheckNextPc | hw/ip/otbn/dv/otbnsim/sim/state.py:504-519 | the collaborators' errors are merged; BAD_INSN_ADDR is added iff the next PC is invalid and no halt or error was pending; a halt is pending iff one was, an error was, or the next PC is invalid |
| SimState.PostInsn | hw/ip/otbn/dv/otbnsim/sim/state.py:498-519 | a loop-back target becomes the next-PC override, and without one the PC and override are untouched; afterwards any error means a halt is pending, and either a halt is pending or the next PC is valid; BAD_INSN_ADDR is added only when the next PC is invalid and nothing was pending |
| SimStateProps.PostInsnWhenHalting | hw/ip/otbn/dv/otbnsim/sim/state.py:513-519 | with a halt already pending, post_insn only merges the collaborators' error bits and never adds BAD_INSN_ADDR |
| SimStateProps.PostInsnCleanStep | hw/ip/otbn/dv/otbnsim/sim/state.py:504-519 | a clean instruction with a valid next PC changes nothing |
| SimStateProps.PostInsnBadNextPc | hw/ip/otbn/dv/otbnsim/sim/state.py:517-519 | running past IMEM with no other trouble reports exactly BAD_INSN_ADDR and makes a halt pending |

## Left out

- `edn_urnd_step`, `edn_rnd_step`, `edn_flush`, `rnd_completed`, `urnd_completed`: these model entropy delivery and clock-domain crossing through EDN clients, which are not part of this model. The `edn_seen_running` flag they set is left out too.
- The URND client: `start_init_sec_wipe` asks it for a new seed, `step` steps it, and `start` asks it for one too. It is an entropy client that is not part of this model.
- `loop_start`, `loop_step`, `in_loop`, `pre_insn`: the loop stack is not part of this model. `PostInsn` takes the loop stack's jump-back target, if any, as a parameter.
- `changes`: trace generation depends on the register-file, memory and WSR classes, which are not part of this model.
- `wipe`, `set_flags`, `set_mlz_flags`, `read_csr`, `write_csr`, `peek_call_stack`: these act only on GPRs, WDRs, WSRs, CSRs and flags, which are not part of this model.
- `get_fsm_state`: a plain field read. It is the `fsm.current` field.
- `_abort`: only its effect on this state is modelled, namely dropping the next-PC override (in `Halt`). The register-file and memory aborts are not.
- `time_to_insn_cnt_zero`: only code outside this file uses it.
- External registers: this control's writes take effect at once. The staging of `OTBNExtRegs` (pending writes, `step`, `commit`, `abort`) is not part of this model. Neither are `rnd_poison` and `rnd_forget`.
- Status and error encodings: the numeric values of STATUS and of `ErrBits.BAD_INSN_ADDR` come from a constants module that is not part of this model. `Status` is therefore abstract (`BusyExecute`, `Locked` or another code), and the BAD_INSN_ADDR mask is a parameter of `PostInsn`. `LcTx` keeps only the difference between ON and not ON.
- PostInsn: does not model the INSN_CNT increment or the GPRs' post-instruction hook. The error bits of the GPRs and the loop stack are a single input mask.
- Start: does not model the CSR/WSR/loop-stack/call-stack resets or the URND request. Their state is not part of this model.
- Commit: does not model the commits of the register files, memories, WSRs, URND and external registers. Only the PC, the IMEM countdown and the FSM are committed.
- Stop: does not model the clearing of the RND client's pending request.

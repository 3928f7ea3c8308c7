/**
  The start/stop control state of the OTBN instruction-set simulator
  (OTBNState). Each Python method that mutates the state becomes a pure
  transition function from one state record to the next.

  The register files, data memory, WSR/CSR files, loop stack and the EDN/URND
  clients are not modelled: the error bits they contribute are inputs, and of
  the external registers only the ones this control writes are kept. The
  flat Python object is grouped into small records by concern.
 */
module SimState {
  import opened Options
  import opened Bits
  import opened Fsm

  /** Cycles spent per round of a secure wipe (constant time in the RTL). */
  const WipeCycles: nat := 68

  /** Commits between invalidate_imem and the IMEM becoming unreadable. */
  const ImemInvalidationDelay: int := 2

  /** Rounds of secure wipe normally done at the end of an operation. */
  const DefaultWipeRounds: nat := 2

  /** The program counter and the override set by a jump, if any. */
  datatype PcState = PcState(pc: nat, nextOverride: Option<nat>)

  /** IMEM size and the simulated integrity-error invalidation of IMEM. */
  datatype ImemState = ImemState(size: nat, timeToInvalidation: Option<int>, invalidated: bool)

  /** The two-phase FSM state and the facts kept alongside it. */
  datatype FsmControl = FsmControl(
    current: FsmState,
    next: FsmState,
    cyclesInThisState: nat,
    initSecWipe: InitSecWipeState,
    hasStateToWipe: bool,
    delayedLock: bool)

  /** Progress of the secure wipe and where it leads. */
  datatype WipeControl = WipeControl(
    cycles: int,
    roundsToDo: nat,
    roundsDone: nat,
    lockAfterWipe: bool)

  /** Error bits, the pending halt and what decides whether a stop locks. */
  datatype ErrorState = ErrorState(
    errBits: nat,
    pendingHalt: bool,
    injectedErrBits: nat,
    lockImmediately: bool,
    softwareErrsFatal: bool,
    rmaReq: LcTx)

  /** The external registers that the start/stop control writes. */
  datatype ExtRegs = ExtRegs(
    status: Status,
    errBits: nat,
    stopPc: nat,
    wipeStart: nat,
    intrState: nat)

  datatype OtbnState = OtbnState(
    pc: PcState,
    imem: ImemState,
    fsm: FsmControl,
    wipe: WipeControl,
    err: ErrorState,
    regs: ExtRegs)

  /**
    What the start/stop control keeps true of its own fields: wipe rounds
    never overshoot, the wipe counter has been loaded whenever the FSM is or
    is about to be WIPING, an IMEM invalidation countdown is 1 or 2, and a
    next-PC override is always a valid PC.
   */
  predicate Valid(s: OtbnState) {
    && s.wipe.roundsDone <= s.wipe.roundsToDo
    && (s.fsm.current == Wiping ==> s.wipe.cycles >= 0)
    && (s.fsm.next == Wiping ==> s.wipe.cycles >= 0)
    && (s.imem.timeToInvalidation == None
        || s.imem.timeToInvalidation == Some(1)
        || s.imem.timeToInvalidation == Some(2))
    && (s.pc.nextOverride.Some? ==> IsPcValid(s.pc.nextOverride.value, s.imem.size))
  }

  /** The state after construction, given the IMEM size from the memory
      layout and the initial contents of the external registers. */
  function Init(imemSize: nat, regs: ExtRegs): (s: OtbnState)
    ensures Valid(s)
    ensures s.fsm.current == PreWipe && s.fsm.next == PreWipe
    ensures Executing(s) && !IsWiping(s)
    ensures !InitSecWipeIsRunning(s) && !InitSecWipeIsDone(s)
    ensures NextPc(s) == 4 && s.imem.size == imemSize && s.regs == regs
    ensures s.err.errBits == 0 && !s.err.pendingHalt && s.err.injectedErrBits == 0
    ensures s.wipe.cycles < 0
  {
    OtbnState(
      pc := PcState(0, None),
      imem := ImemState(imemSize, None, false),
      fsm := FsmControl(
        current := PreWipe,
        next := PreWipe,
        cyclesInThisState := 0,
        initSecWipe := NotDone,
        hasStateToWipe := false,
        delayedLock := false),
      wipe := WipeControl(
        cycles := -1,
        roundsToDo := DefaultWipeRounds,
        roundsDone := 0,
        lockAfterWipe := false),
      err := ErrorState(
        errBits := 0,
        pendingHalt := false,
        injectedErrBits := 0,
        lockImmediately := false,
        softwareErrsFatal := false,
        rmaReq := Off),
      regs := regs)
  }

  // ---------------------------------------------------------------------
  // Program counter

  /** A PC is valid when it is word-aligned (pc & 3 == 0) and in IMEM. */
  function IsPcValid(pc: nat, imemSize: nat): (b: bool)
    ensures b <==> pc % 4 == 0 && pc < imemSize
  {
    LowTwoBitsClear(pc);
    !Bit(pc, 0) && !Bit(pc, 1) && pc < imemSize
  }

  /** The PC of the next instruction: the override if a jump set one,
      otherwise the next word. */
  function NextPc(s: OtbnState): (n: nat)
    ensures s.pc.nextOverride.Some? ==> n == s.pc.nextOverride.value
    ensures s.pc.nextOverride.None? ==> n == s.pc.pc + 4
  {
    s.pc.nextOverride.GetOr(s.pc.pc + 4)
  }

  /** Overwrite the next PC, e.g. as the result of a jump. */
  function SetNextPc(s: OtbnState, nextPc: nat): (r: OtbnState)
    requires IsPcValid(nextPc, s.imem.size)
    ensures NextPc(r) == nextPc
    ensures r.pc.nextOverride.Some? && r.pc.pc == s.pc.pc
    ensures r == s.(pc := r.pc)
    ensures Valid(s) ==> Valid(r)
  {
    s.(pc := s.pc.(nextOverride := Some(nextPc)))
  }

  // ---------------------------------------------------------------------
  // FSM queries and the initial secure wipe

  /** OTBN is executing in every state except IDLE, LOCKED and MEM_SEC_WIPE. */
  function Executing(s: OtbnState): (b: bool)
    ensures b <==> s.fsm.current in {PreWipe, Wiping, PreExec, Exec}
  {
    s.fsm.current != Idle && s.fsm.current != FsmState.Locked && s.fsm.current != MemSecWipe
  }

  /** WIPING is the one executing state that is neither a pre-state nor EXEC. */
  function IsWiping(s: OtbnState): (b: bool)
    ensures b ==> Executing(s)
    ensures b <==> Executing(s) && s.fsm.current !in {PreWipe, PreExec, Exec}
  {
    s.fsm.current == Wiping
  }

  function StartInitSecWipe(s: OtbnState): (r: OtbnState)
    ensures InitSecWipeIsRunning(r) && !InitSecWipeIsDone(r)
    ensures r == s.(fsm := s.fsm.(initSecWipe := r.fsm.initSecWipe))
    ensures Valid(s) ==> Valid(r)
  {
    s.(fsm := s.fsm.(initSecWipe := InProgress))
  }

  /** The initial secure wipe is running once started and until done. */
  function InitSecWipeIsRunning(s: OtbnState): (b: bool)
    ensures b ==> !InitSecWipeIsDone(s)
    ensures b <==> s.fsm.initSecWipe != NotDone && !InitSecWipeIsDone(s)
  {
    s.fsm.initSecWipe == InProgress
  }

  /** The initial secure wipe is done once past both earlier stages. */
  function InitSecWipeIsDone(s: OtbnState): (b: bool)
    ensures b <==> s.fsm.initSecWipe != NotDone && s.fsm.initSecWipe != InProgress
  {
    s.fsm.initSecWipe == Done
  }

  function CompleteInitSecWipe(s: OtbnState): (r: OtbnState)
    ensures InitSecWipeIsDone(r) && !InitSecWipeIsRunning(r)
    ensures r == s.(fsm := s.fsm.(initSecWipe := r.fsm.initSecWipe))
    ensures Valid(s) ==> Valid(r)
  {
    s.(fsm := s.fsm.(initSecWipe := Done))
  }

  /** Choose the state the FSM moves to at the next commit; entering WIPING
      starts a wipe, so the wipe counter is loaded. */
  function SetFsmState(s: OtbnState, newState: FsmState): (r: OtbnState)
    ensures r.fsm.next == newState
    ensures newState == Wiping ==> r.wipe.cycles == WipeCycles
    ensures newState != Wiping ==> r.wipe == s.wipe
    ensures r.wipe == s.wipe.(cycles := r.wipe.cycles)
    ensures r == s.(fsm := s.fsm.(next := r.fsm.next), wipe := r.wipe)
    ensures Valid(s) ==> Valid(r)
  {
    var wipe := if newState == Wiping then s.wipe.(cycles := WipeCycles) else s.wipe;
    s.(fsm := s.fsm.(next := newState), wipe := wipe)
  }

  // ---------------------------------------------------------------------
  // Per-cycle commit

  /** One tick of the IMEM invalidation countdown: the IMEM becomes
      invalidated when the countdown reaches zero, which ends it. */
  function TickImemInvalidation(m: ImemState): (r: ImemState)
    ensures m.timeToInvalidation == None ==> r == m
    ensures m.timeToInvalidation == Some(1) ==> r.timeToInvalidation == None && r.invalidated
    ensures m.timeToInvalidation.Some? && m.timeToInvalidation.value != 1 ==>
              r == m.(timeToInvalidation := Some(m.timeToInvalidation.value - 1))
    ensures r.size == m.size
  {
    match m.timeToInvalidation
    case None => m
    case Some(n) =>
      if n - 1 == 0 then m.(timeToInvalidation := None, invalidated := true)
      else m.(timeToInvalidation := Some(n - 1))
  }

  /** The FSM after a commit: the next state becomes current, and the
      cycle counter counts on in an unchanged state or restarts at 0. */
  function CommitFsm(f: FsmControl): (r: FsmControl)
    ensures r.current == f.next && r.next == f.next
    ensures f.next == f.current ==> r.cyclesInThisState == f.cyclesInThisState + 1
    ensures f.next != f.current ==> r.cyclesInThisState == 0
    ensures r == f.(current := r.current, cyclesInThisState := r.cyclesInThisState)
  {
    var cycles := if f.next == f.current then f.cyclesInThisState + 1 else 0;
    f.(current := f.next, cyclesInThisState := cycles)
  }

  /**
    End of cycle: tick the IMEM invalidation countdown, make the next FSM
    state current, and, when the previous state was EXEC or WIPING and the
    simulation is not stalled, advance the PC to the next PC and drop the
    override. (Registers and memories only have pending changes to commit
    in those two states.)
   */
  function Commit(s: OtbnState, simStalled: bool): (r: OtbnState)
    ensures r.fsm == CommitFsm(s.fsm)
    ensures r.imem == TickImemInvalidation(s.imem)
    ensures (s.fsm.current == Exec || s.fsm.current == Wiping) && !simStalled ==>
              r.pc.pc == NextPc(s) && r.pc.nextOverride == None
    ensures !((s.fsm.current == Exec || s.fsm.current == Wiping) && !simStalled) ==>
              r.pc == s.pc
    ensures r == s.(pc := r.pc, imem := r.imem, fsm := r.fsm)
    ensures Valid(s) ==> Valid(r)
  {
    var advance := (s.fsm.current == Exec || s.fsm.current == Wiping) && !simStalled;
    var pc := if advance then PcState(NextPc(s), None) else s.pc;
    s.(pc := pc, imem := TickImemInvalidation(s.imem), fsm := CommitFsm(s.fsm))
  }

  /** Arm the IMEM invalidation countdown. */
  function InvalidateImem(s: OtbnState): (r: OtbnState)
    ensures r.imem.timeToInvalidation == Some(ImemInvalidationDelay)
    ensures r == s.(imem := s.imem.(timeToInvalidation := r.imem.timeToInvalidation))
    ensures Valid(s) ==> Valid(r)
  {
    s.(imem := s.imem.(timeToInvalidation := Some(ImemInvalidationDelay)))
  }

  /** Drop both an armed IMEM invalidation countdown and an invalidation
      already in effect. */
  function ClearImemInvalidation(s: OtbnState): (r: OtbnState)
    ensures r.imem.timeToInvalidation == None && !r.imem.invalidated
    ensures r == s.(imem := r.imem) && r.imem.size == s.imem.size
    ensures Valid(s) ==> Valid(r)
  {
    s.(imem := s.imem.(timeToInvalidation := None, invalidated := false))
  }

  // ---------------------------------------------------------------------
  // Starting and stopping

  /** Start running: status BUSY_EXECUTE, errors and pending halt cleared,
      FSM in PRE_EXEC (now and next), PC at 0. */
  function Start(s: OtbnState): (r: OtbnState)
    ensures r.regs == s.regs.(status := BusyExecute)
    ensures r.err == s.err.(errBits := 0, pendingHalt := false)
    ensures r.fsm == s.fsm.(current := PreExec, next := PreExec, hasStateToWipe := true)
    ensures Executing(r) && !IsWiping(r)
    ensures r.pc.pc == 0 && r.pc.nextOverride == s.pc.nextOverride
    ensures r == s.(regs := r.regs, err := r.err, fsm := r.fsm, pc := r.pc)
    ensures Valid(s) ==> Valid(r)
  {
    s.(regs := s.regs.(status := BusyExecute),
       err := s.err.(pendingHalt := false, errBits := 0),
       fsm := s.fsm.(current := PreExec, next := PreExec, hasStateToWipe := true),
       pc := s.pc.(pc := 0))
  }

  /**
    Whether a stop must end in LOCKED: a fatal error (any bit from 16 up),
    error bit 10, any error while software errors are fatal, or an RMA
    request. The body tests `e >> 16` and `e != 0` as the simulator does;
    the contract says the same bit by bit.
   */
  function ShouldLock(e: ErrorState): (b: bool)
    ensures b <==>
              || (exists i: nat :: 16 <= i && Bit(e.errBits, i))
              || Bit(e.errBits, 10)
              || ((exists i: nat :: Bit(e.errBits, i)) && e.softwareErrsFatal)
              || e.rmaReq == On
  {
    HighBitsIff(e.errBits, 16);
    NonzeroIffSomeBit(e.errBits);
    || Shr(e.errBits, 16) != 0
    || Bit(e.errBits, 10)
    || (e.errBits != 0 && e.softwareErrsFatal)
    || e.rmaReq == On
  }

  /**
    The simulator's own assertions in stop(): a stop is only ever requested
    when it must lock, except without lock_immediately, from the EXEC
    state, or from a state other than PRE_WIPE and WIPING before the
    initial secure wipe has started.
   */
  function StopAssertionsHold(s: OtbnState): (b: bool)
    ensures s.err.lockImmediately ==> (b <==> ShouldLock(s.err))
    ensures !s.err.lockImmediately && s.fsm.current == Exec ==> b
    ensures !s.err.lockImmediately && s.fsm.current in {PreWipe, Wiping} ==>
              (b <==> ShouldLock(s.err))
    ensures !s.err.lockImmediately && s.fsm.current !in {Exec, PreWipe, Wiping} ==>
              (b <==> ShouldLock(s.err) || s.fsm.initSecWipe == NotDone)
  {
    || ShouldLock(s.err)
    || (!s.err.lockImmediately
        && (s.fsm.current == Exec
            || (s.fsm.current != PreWipe && s.fsm.current != Wiping
                && s.fsm.initSecWipe == NotDone)))
  }

  /** The external registers after a stop raised the done interrupt (bit 0
      of INTR_STATE) and published the error bits. */
  function PublishStop(regs: ExtRegs, errBits: nat): (r: ExtRegs)
    ensures Bit(r.intrState, 0)
    ensures forall i: nat :: 0 < i ==> (Bit(r.intrState, i) <==> Bit(regs.intrState, i))
    ensures r.errBits == errBits
    ensures r == regs.(intrState := r.intrState, errBits := r.errBits)
  {
    OrBits(regs.intrState, 1);
    BitsOfOne();
    regs.(intrState := Or(regs.intrState, 1), errBits := errBits)
  }

  /** The part of a stop common to every case: an instruction that failed in
      EXEC loses its pending next PC, the stop is published and the pending
      halt cleared. */
  function Halt(s: OtbnState): (r: OtbnState)
    ensures Bit(r.regs.intrState, 0)
    ensures forall i: nat :: 0 < i ==> (Bit(r.regs.intrState, i) <==> Bit(s.regs.intrState, i))
    ensures r.regs == s.regs.(intrState := r.regs.intrState, errBits := s.err.errBits)
    ensures r.pc.pc == s.pc.pc
    ensures s.err.errBits != 0 && s.fsm.current == Exec ==> r.pc.nextOverride == None
    ensures !(s.err.errBits != 0 && s.fsm.current == Exec) ==> r.pc == s.pc
    ensures r.err == s.err.(pendingHalt := false)
    ensures r == s.(pc := r.pc, regs := r.regs, err := r.err)
  {
    var insnFailed := s.err.errBits != 0 && s.fsm.current == Exec;
    var pc := if insnFailed then s.pc.(nextOverride := None) else s.pc;
    s.(pc := pc, regs := PublishStop(s.regs, s.err.errBits), err := s.err.(pendingHalt := false))
  }

  /**
    Stop the processor. An instruction that failed in EXEC has its pending
    next PC discarded. The done interrupt is raised, ERR_BITS published and
    the pending halt cleared; then:
    - with lock_immediately, the FSM goes to LOCKED and so does STATUS;
    - from EXEC, STOP_PC and WIPE_START are written and a secure wipe is
      started (PRE_WIPE), to lock afterwards exactly when the stop must lock;
    - while already wiping, the wipe is told to lock afterwards;
    - during the initial secure wipe, the halt is kept pending;
    - after the initial secure wipe, the FSM goes to LOCKED and so does STATUS.
   */
  function Stop(s: OtbnState): (r: OtbnState)
    requires StopAssertionsHold(s)
    ensures Bit(r.regs.intrState, 0)
    ensures forall i: nat :: 0 < i ==> (Bit(r.regs.intrState, i) <==> Bit(s.regs.intrState, i))
    ensures r.regs.errBits == s.err.errBits
    ensures r.pc.pc == s.pc.pc
    ensures s.err.errBits != 0 && s.fsm.current == Exec ==> r.pc.nextOverride == None
    ensures !(s.err.errBits != 0 && s.fsm.current == Exec) ==> r.pc == s.pc
    ensures r.err == s.err.(pendingHalt := r.err.pendingHalt)
    ensures r.err.pendingHalt <==>
              !s.err.lockImmediately && s.fsm.current !in {Exec, PreWipe, Wiping}
              && s.fsm.initSecWipe == InProgress
    // lock_immediately
    ensures s.err.lockImmediately ==>
              r.fsm.next == FsmState.Locked && r.regs.status == Status.Locked
              && r.wipe == s.wipe
    // stopping from EXEC starts a wipe
    ensures !s.err.lockImmediately && s.fsm.current == Exec ==>
              && r.fsm.next == PreWipe
              && r.wipe == s.wipe.(lockAfterWipe := ShouldLock(s.err), roundsDone := 0)
              && r.regs.stopPc == s.pc.pc && r.regs.wipeStart == 1
              && r.regs.status == s.regs.status
    // stopping while wiping makes the wipe end in LOCKED
    ensures !s.err.lockImmediately && s.fsm.current in {PreWipe, Wiping} ==>
              r.wipe == s.wipe.(lockAfterWipe := true) && r.fsm == s.fsm
              && r.regs.status == s.regs.status
    // stopping otherwise locks once the initial secure wipe is done
    ensures !s.err.lockImmediately && s.fsm.current !in {Exec, PreWipe, Wiping} ==>
              && r.wipe == s.wipe
              && (s.fsm.initSecWipe == Done ==>
                    r.regs.status == Status.Locked && r.fsm.next == FsmState.Locked)
              && (s.fsm.initSecWipe != Done ==>
                    r.regs.status == s.regs.status && r.fsm == s.fsm)
    ensures !(!s.err.lockImmediately && s.fsm.current == Exec) ==>
              r.regs.stopPc == s.regs.stopPc && r.regs.wipeStart == s.regs.wipeStart
    ensures r.fsm == s.fsm.(next := r.fsm.next)
    ensures r.imem == s.imem
    ensures Valid(s) ==> Valid(r)
  {
    var s2 := Halt(s);
    if s.err.lockImmediately then
      var s3 := SetFsmState(s2, FsmState.Locked);
      s3.(regs := s3.regs.(status := Status.Locked))
    else if s.fsm.current == Exec then
      var s3 := s2.(regs := s2.regs.(stopPc := s.pc.pc, wipeStart := 1));
      var s4 := SetFsmState(s3, PreWipe);
      s4.(wipe := s4.wipe.(lockAfterWipe := ShouldLock(s.err), roundsDone := 0))
    else if s.fsm.current == PreWipe || s.fsm.current == Wiping then
      s2.(wipe := s2.wipe.(lockAfterWipe := true))
    else if s.fsm.initSecWipe == InProgress then
      s2.(err := s2.err.(pendingHalt := true))
    else if s.fsm.initSecWipe == Done then
      s2.(fsm := s2.fsm.(next := FsmState.Locked), regs := s2.regs.(status := Status.Locked))
    else
      s2
  }

  /** Stop if a halt is pending; the flag says whether it did. */
  function StopIfPendingHalt(s: OtbnState): (res: (OtbnState, bool))
    requires s.err.pendingHalt ==> StopAssertionsHold(s)
    ensures res.1 <==> s.err.pendingHalt
    ensures !res.1 ==> res.0 == s
    ensures res.1 ==> res.0 == Stop(s)
  {
    if s.err.pendingHalt then (Stop(s), true) else (s, false)
  }

  // ---------------------------------------------------------------------
  // Errors

  /** Stop at the end of this cycle, reporting the given error bits too. */
  function StopAtEndOfCycle(s: OtbnState, errBits: nat): (r: OtbnState)
    ensures r.err.pendingHalt
    ensures forall i: nat :: Bit(r.err.errBits, i) <==> Bit(s.err.errBits, i) || Bit(errBits, i)
    ensures r.err == s.err.(errBits := r.err.errBits, pendingHalt := r.err.pendingHalt)
    ensures r == s.(err := r.err)
    ensures Valid(s) ==> Valid(r)
  {
    OrBits(s.err.errBits, errBits);
    s.(err := s.err.(errBits := Or(s.err.errBits, errBits), pendingHalt := true))
  }

  /** Apply errors injected from outside: if there are any, stop at the end
      of the cycle with them; either way none remain injected. */
  function TakeInjectedErrBits(s: OtbnState): (r: OtbnState)
    ensures r.err.injectedErrBits == 0
    ensures s.err.injectedErrBits == 0 ==> r == s
    ensures s.err.injectedErrBits != 0 ==>
              && r.err.pendingHalt
              && forall i: nat :: Bit(r.err.errBits, i) <==>
                   Bit(s.err.errBits, i) || Bit(s.err.injectedErrBits, i)
    ensures r.err == s.err.(errBits := r.err.errBits, pendingHalt := r.err.pendingHalt,
                            injectedErrBits := r.err.injectedErrBits)
    ensures r == s.(err := r.err)
    ensures Valid(s) ==> Valid(r)
  {
    if s.err.injectedErrBits != 0 then
      var r := StopAtEndOfCycle(s, s.err.injectedErrBits);
      r.(err := r.err.(injectedErrBits := 0))
    else
      s
  }

  /** The start of a simulation step, as far as this state is concerned. */
  function Step(s: OtbnState, handleInjectedError: bool): (r: OtbnState)
    ensures !handleInjectedError ==> r == s
    ensures handleInjectedError ==> r == TakeInjectedErrBits(s) && r.err.injectedErrBits == 0
  {
    if handleInjectedError then TakeInjectedErrBits(s) else s
  }

  /**
    After an instruction: take the loop stack's jump back to the loop start
    (if any), merge the error bits reported by the register files and the
    loop stack (any error makes a halt pending), then, unless a halt is
    already pending, flag BAD_INSN_ADDR when the next PC is not valid.
    The value of the BAD_INSN_ADDR error bit is a parameter.
   */
  function PostInsn(s: OtbnState, loopBackPc: Option<nat>, collabErrBits: nat, badInsnAddr: nat): (r: OtbnState)
    requires loopBackPc.Some? ==> IsPcValid(loopBackPc.value, s.imem.size)
    ensures loopBackPc.Some? ==> NextPc(r) == loopBackPc.value
    ensures loopBackPc.None? ==> NextPc(r) == NextPc(s)
    ensures r.err.errBits != 0 ==> r.err.pendingHalt
    ensures r.err.pendingHalt || IsPcValid(NextPc(r), r.imem.size)
    ensures r.err.pendingHalt <==>
              || s.err.pendingHalt || s.err.errBits != 0 || collabErrBits != 0
              || !IsPcValid(NextPc(r), r.imem.size)
    ensures forall i: nat :: Bit(r.err.errBits, i) <==>
              || Bit(s.err.errBits, i) || Bit(collabErrBits, i)
              || (Bit(badInsnAddr, i) && !IsPcValid(NextPc(r), r.imem.size)
                  && !s.err.pendingHalt && s.err.errBits == 0 && collabErrBits == 0)
    ensures loopBackPc.None? ==> r.pc == s.pc
    ensures loopBackPc.Some? ==> r.pc == s.pc.(nextOverride := loopBackPc)
    ensures r.err == s.err.(errBits := r.err.errBits, pendingHalt := r.err.pendingHalt)
    ensures r == s.(pc := r.pc, err := r.err)
    ensures Valid(s) ==> Valid(r)
  {
    var s1 := if loopBackPc.Some? then SetNextPc(s, loopBackPc.value) else s;
    var errs := CheckNextPc(s1.err, collabErrBits, IsPcValid(NextPc(s1), s1.imem.size), badInsnAddr);
    s1.(err := errs)
  }

  /** The error part of post_insn: merge the collaborators' error bits, then
      flag BAD_INSN_ADDR when the next PC is invalid and no halt is pending. */
  function CheckNextPc(e: ErrorState, collabErrBits: nat, nextPcValid: bool, badInsnAddr: nat): (r: ErrorState)
    ensures r.errBits != 0 ==> r.pendingHalt
    ensures r.pendingHalt <==> e.pendingHalt || e.errBits != 0 || collabErrBits != 0 || !nextPcValid
    ensures forall i: nat :: Bit(r.errBits, i) <==>
              || Bit(e.errBits, i) || Bit(collabErrBits, i)
              || (Bit(badInsnAddr, i) && !nextPcValid
                  && !e.pendingHalt && e.errBits == 0 && collabErrBits == 0)
    ensures r == e.(errBits := r.errBits, pendingHalt := r.pendingHalt)
  {
    OrBits(e.errBits, collabErrBits);
    var errs := Or(e.errBits, collabErrBits);
    var pending := e.pendingHalt || errs != 0;
    if !nextPcValid && !pending then
      OrBits(errs, badInsnAddr);
      e.(errBits := Or(errs, badInsnAddr), pendingHalt := true)
    else
      e.(errBits := errs, pendingHalt := pending)
  }
}

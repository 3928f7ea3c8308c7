/**
  Properties of the start/stop control that relate several calls: runs of
  commits, the IMEM invalidation countdown, the lock decision at the bit
  level, and what a stop followed by a commit leaves behind.
 */
module SimStateProps {
  import opened Options
  import opened Bits
  import opened Fsm
  import opened SimState

  /** The state after one commit per entry of `stalls`, in order. */
  function Commits(s: OtbnState, stalls: seq<bool>): (r: OtbnState)
    decreases |stalls|
  {
    if |stalls| == 0 then s else Commits(Commit(s, stalls[0]), stalls[1..])
  }

  // ---------------------------------------------------------------------
  // Two-phase FSM update and the cycle counter

  /** With no state change requested, commits keep the FSM where it is and
      the cycle counter counts every one of them. */
  lemma {:induction false} CommitsInSettledState(s: OtbnState, stalls: seq<bool>)
    requires s.fsm.next == s.fsm.current
    ensures Commits(s, stalls).fsm.current == s.fsm.current
    ensures Commits(s, stalls).fsm.next == s.fsm.next
    ensures Commits(s, stalls).fsm.cyclesInThisState == s.fsm.cyclesInThisState + |stalls|
    decreases |stalls|
  {
    if |stalls| > 0 {
      CommitsInSettledState(Commit(s, stalls[0]), stalls[1..]);
    }
  }

  /** The first commit makes the requested state current; from then on the
      counter counts the commits spent in it. */
  lemma CommitsEnterNextState(s: OtbnState, stalls: seq<bool>)
    requires |stalls| > 0
    ensures Commits(s, stalls).fsm.current == s.fsm.next
    ensures s.fsm.next != s.fsm.current ==>
              Commits(s, stalls).fsm.cyclesInThisState == |stalls| - 1
    ensures s.fsm.next == s.fsm.current ==>
              Commits(s, stalls).fsm.cyclesInThisState == s.fsm.cyclesInThisState + |stalls|
  {
    var s1 := Commit(s, stalls[0]);
    CommitsInSettledState(s1, stalls[1..]);
  }

  /** A requested state change shows up at the next commit and no earlier. */
  lemma SetFsmStateThenCommit(s: OtbnState, newState: FsmState, simStalled: bool)
    ensures SetFsmState(s, newState).fsm.current == s.fsm.current
    ensures Commit(SetFsmState(s, newState), simStalled).fsm.current == newState
    ensures Commit(SetFsmState(s, newState), simStalled).fsm.cyclesInThisState ==
              if newState == s.fsm.current then s.fsm.cyclesInThisState + 1 else 0
    ensures newState == Wiping ==>
              Commit(SetFsmState(s, newState), simStalled).wipe.cycles == WipeCycles
  {
  }

  /** After the commit that enters a requested state, OTBN is executing
      exactly when that state is not IDLE, LOCKED or MEM_SEC_WIPE, and is
      wiping exactly when it is WIPING. */
  lemma EnteredStateExecuting(s: OtbnState, newState: FsmState, simStalled: bool)
    ensures Executing(Commit(SetFsmState(s, newState), simStalled)) <==>
              newState != Idle && newState != FsmState.Locked && newState != MemSecWipe
    ensures IsWiping(Commit(SetFsmState(s, newState), simStalled)) <==> newState == Wiping
  {
  }

  // ---------------------------------------------------------------------
  // Program counter

  /** A jump target set during EXEC or WIPING becomes the PC at the next
      unstalled commit; a stalled commit keeps both PC and target. */
  lemma SetNextPcThenCommit(s: OtbnState, nextPc: nat, simStalled: bool)
    requires IsPcValid(nextPc, s.imem.size)
    requires s.fsm.current == Exec || s.fsm.current == Wiping
    ensures !simStalled ==>
              Commit(SetNextPc(s, nextPc), simStalled).pc == PcState(nextPc, None)
    ensures simStalled ==>
              Commit(SetNextPc(s, nextPc), simStalled).pc == PcState(s.pc.pc, Some(nextPc))
  {
  }

  /** Without a jump, an unstalled commit in EXEC moves on by one word. */
  lemma CommitStepsOneWord(s: OtbnState)
    requires s.fsm.current == Exec && s.pc.nextOverride == None
    ensures Commit(s, false).pc.pc == s.pc.pc + 4
  {
  }

  /** In any state other than EXEC and WIPING, commits never move the PC. */
  lemma {:induction false} CommitsOutsideExecKeepPc(s: OtbnState, stalls: seq<bool>)
    requires s.fsm.next == s.fsm.current
    requires s.fsm.current != Exec && s.fsm.current != Wiping
    ensures Commits(s, stalls).pc == s.pc
    decreases |stalls|
  {
    if |stalls| > 0 {
      CommitsOutsideExecKeepPc(Commit(s, stalls[0]), stalls[1..]);
    }
  }

  // ---------------------------------------------------------------------
  // IMEM invalidation countdown

  /** Once the countdown is over, further commits leave the IMEM state alone. */
  lemma {:induction false} CommitsKeepSettledImem(s: OtbnState, stalls: seq<bool>)
    requires s.imem.timeToInvalidation == None
    ensures Commits(s, stalls).imem == s.imem
    decreases |stalls|
  {
    if |stalls| > 0 {
      CommitsKeepSettledImem(Commit(s, stalls[0]), stalls[1..]);
    }
  }

  /** A countdown of k invalidates IMEM on exactly the k-th commit. */
  lemma {:induction false} ImemCountdown(s: OtbnState, stalls: seq<bool>, k: int)
    requires s.imem.timeToInvalidation == Some(k) && k >= 1
    ensures |stalls| < k ==>
              Commits(s, stalls).imem == s.imem.(timeToInvalidation := Some(k - |stalls|))
    ensures |stalls| >= k ==>
              Commits(s, stalls).imem == s.imem.(timeToInvalidation := None, invalidated := true)
    decreases |stalls|
  {
    if |stalls| > 0 {
      var s1 := Commit(s, stalls[0]);
      if k == 1 {
        CommitsKeepSettledImem(s1, stalls[1..]);
      } else {
        ImemCountdown(s1, stalls[1..], k - 1);
      }
    }
  }

  /** After invalidate_imem, IMEM is invalidated from the second commit on,
      and the countdown is gone exactly then. */
  lemma InvalidateImemTakesTwoCommits(s: OtbnState, stalls: seq<bool>)
    ensures Commits(InvalidateImem(s), stalls).imem.invalidated <==>
              s.imem.invalidated || |stalls| >= 2
    ensures Commits(InvalidateImem(s), stalls).imem.timeToInvalidation == None <==>
              |stalls| >= 2
  {
    ImemCountdown(InvalidateImem(s), stalls, ImemInvalidationDelay);
  }

  /** Clearing the invalidation undoes invalidate_imem entirely. */
  lemma ClearUndoesInvalidate(s: OtbnState)
    requires s.imem.timeToInvalidation == None && !s.imem.invalidated
    ensures ClearImemInvalidation(InvalidateImem(s)) == s
  {
  }

  /** Commits keep the control invariant. */
  lemma {:induction false} CommitsPreserveValid(s: OtbnState, stalls: seq<bool>)
    requires Valid(s)
    ensures Valid(Commits(s, stalls))
    decreases |stalls|
  {
    if |stalls| > 0 {
      CommitsPreserveValid(Commit(s, stalls[0]), stalls[1..]);
    }
  }

  // ---------------------------------------------------------------------
  // The lock decision

  /** More error bits never turn a locking stop into a non-locking one. */
  lemma {:induction false} ShouldLockMonotone(e: ErrorState, more: nat)
    requires ShouldLock(e)
    ensures ShouldLock(e.(errBits := Or(e.errBits, more)))
  {
    var bits := Or(e.errBits, more);
    if Shr(e.errBits, 16) != 0 {
      HighBitsIff(e.errBits, 16);
      var i: nat :| 16 <= i && Bit(e.errBits, i);
      OrBit(e.errBits, more, i);
      HighBitsIff(bits, 16);
    } else if Bit(e.errBits, 10) {
      OrBit(e.errBits, more, 10);
    }
  }

  /** Reporting an error at the end of a cycle keeps a stop that must lock
      locking. */
  lemma StopAtEndOfCycleKeepsLock(s: OtbnState, errBits: nat)
    requires ShouldLock(s.err)
    ensures ShouldLock(StopAtEndOfCycle(s, errBits).err)
  {
  }

  /** Reporting the same errors twice is the same as reporting them once. */
  lemma {:induction false} StopAtEndOfCycleIdempotent(s: OtbnState, errBits: nat)
    ensures StopAtEndOfCycle(StopAtEndOfCycle(s, errBits), errBits) == StopAtEndOfCycle(s, errBits)
  {
    OrAbsorb(s.err.errBits, errBits);
  }

  /** Two error reports in one cycle amount to one report of both. */
  lemma {:induction false} StopAtEndOfCycleMerges(s: OtbnState, a: nat, b: nat)
    ensures StopAtEndOfCycle(StopAtEndOfCycle(s, a), b) == StopAtEndOfCycle(s, Or(a, b))
    ensures StopAtEndOfCycle(StopAtEndOfCycle(s, a), b) == StopAtEndOfCycle(StopAtEndOfCycle(s, b), a)
  {
    OrAssoc(s.err.errBits, a, b);
    OrAssoc(s.err.errBits, b, a);
    OrComm(a, b);
  }

  /** Injected errors are taken once: taking them again changes nothing. */
  lemma TakeInjectedErrBitsIdempotent(s: OtbnState)
    ensures TakeInjectedErrBits(TakeInjectedErrBits(s)) == TakeInjectedErrBits(s)
  {
  }

  /** With a halt already pending, post_insn only merges the collaborators'
      error bits: it never adds BAD_INSN_ADDR. */
  lemma PostInsnWhenHalting(s: OtbnState, collabErrBits: nat, badInsnAddr: nat)
    requires s.err.pendingHalt
    ensures PostInsn(s, None, collabErrBits, badInsnAddr).err ==
              s.err.(errBits := Or(s.err.errBits, collabErrBits))
  {
  }

  /** A clean instruction whose successor PC is valid leaves the errors
      alone and no halt pending. */
  lemma PostInsnCleanStep(s: OtbnState, badInsnAddr: nat)
    requires !s.err.pendingHalt && s.err.errBits == 0
    requires IsPcValid(NextPc(s), s.imem.size)
    ensures PostInsn(s, None, 0, badInsnAddr) == s
  {
  }

  /** Running off the end of IMEM with no other trouble reports exactly
      BAD_INSN_ADDR and makes a halt pending. */
  lemma {:induction false} PostInsnBadNextPc(s: OtbnState, badInsnAddr: nat)
    requires !s.err.pendingHalt && s.err.errBits == 0
    requires !IsPcValid(NextPc(s), s.imem.size)
    ensures PostInsn(s, None, 0, badInsnAddr).err ==
              s.err.(errBits := badInsnAddr, pendingHalt := true)
  {
    var r := PostInsn(s, None, 0, badInsnAddr);
    forall i: nat
      ensures Bit(r.err.errBits, i) == Bit(badInsnAddr, i)
    {
      NoBitOfZero(i);
    }
    BitsDetermine(r.err.errBits, badInsnAddr);
  }

  // ---------------------------------------------------------------------
  // Stopping

  /** Whatever state OTBN is in, a stop that must lock either locks now,
      marks the running wipe to end locked, keeps the halt pending until the
      initial secure wipe is over, or (before any initial secure wipe, when
      not running) leaves the FSM alone. */
  lemma StopHonoursLock(s: OtbnState)
    requires ShouldLock(s.err)
    ensures var r := Stop(s);
            || r.fsm.next == FsmState.Locked
            || r.wipe.lockAfterWipe
            || r.err.pendingHalt
            || (s.fsm.initSecWipe == NotDone && s.fsm.current !in {Exec, PreWipe, Wiping})
  {
  }

  /** A stop from EXEC that need not lock starts a wipe that will not lock. */
  lemma StopFromExecWithoutLock(s: OtbnState)
    requires s.fsm.current == Exec && !s.err.lockImmediately && !ShouldLock(s.err)
    ensures Stop(s).fsm.next == PreWipe && !Stop(s).wipe.lockAfterWipe
  {
  }

  /** Stop then commit from EXEC: the FSM is in PRE_WIPE (freshly entered),
      STOP_PC holds the PC of the stopping instruction, and the wipe will
      lock exactly when the stop had to. */
  lemma StopFromExecThenCommit(s: OtbnState, simStalled: bool)
    requires s.fsm.current == Exec && !s.err.lockImmediately
    ensures var r := Commit(Stop(s), simStalled);
            && r.fsm.current == PreWipe && r.fsm.cyclesInThisState == 0
            && r.regs.stopPc == s.pc.pc
            && r.wipe.lockAfterWipe == ShouldLock(s.err)
            && r.wipe.roundsDone == 0
            && !r.err.pendingHalt
  {
  }

  /** With lock_immediately, the commit after a stop leaves OTBN LOCKED and
      no longer executing, with STATUS saying so. */
  lemma StopLockImmediatelyThenCommit(s: OtbnState, simStalled: bool)
    requires s.err.lockImmediately && ShouldLock(s.err)
    ensures var r := Commit(Stop(s), simStalled);
            r.fsm.current == FsmState.Locked && !Executing(r) && r.regs.status == Status.Locked
  {
  }

  /** The initial secure wipe runs from not done, through in progress, to
      done. */
  lemma InitSecWipeProgress(imemSize: nat, regs: ExtRegs)
    ensures var s0 := Init(imemSize, regs);
            var s1 := StartInitSecWipe(s0);
            var s2 := CompleteInitSecWipe(s1);
            && !InitSecWipeIsRunning(s0) && !InitSecWipeIsDone(s0)
            && InitSecWipeIsRunning(s1) && !InitSecWipeIsDone(s1)
            && !InitSecWipeIsRunning(s2) && InitSecWipeIsDone(s2)
  {
  }

  /** A stop requested during the initial secure wipe stays pending, and is
      taken again by stop_if_pending_halt until the wipe is done. */
  lemma StopDuringInitSecWipeStaysPending(s: OtbnState)
    requires ShouldLock(s.err) && !s.err.lockImmediately
    requires s.fsm.current !in {Exec, PreWipe, Wiping} && InitSecWipeIsRunning(s)
    ensures Stop(s).err.pendingHalt && Stop(s).fsm == s.fsm
    ensures StopIfPendingHalt(Stop(s)).1
  {
  }

  /** Each FSM state has its own code, and decoding recovers it. */
  lemma FsmCodeInjective(a: FsmState, b: FsmState)
    ensures FsmCode(a) == FsmCode(b) <==> a == b
    ensures FsmFromCode(FsmCode(a)) == Some(a)
  {
  }
}

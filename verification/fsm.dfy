/**
  The enumerations of the OTBN simulator's start/stop control: the states of
  the FSM that mirrors the RTL's otbn_start_stop_control, the progress of the
  initial secure wipe, and the two externally defined encodings this control
  reads or writes (the STATUS register value and the life-cycle RMA request).
 */
module Fsm {
  import opened Options

  /** State of the internal start/stop FSM. PreWipe is the reset state. */
  datatype FsmState = PreWipe | Wiping | Idle | PreExec | Exec | MemSecWipe | Locked

  /** The integer value of each state in the simulator's IntEnum. */
  function FsmCode(s: FsmState): (c: nat)
  {
    match s
    case PreWipe => 0
    case Wiping => 1
    case Idle => 2
    case PreExec => 3
    case Exec => 4
    case MemSecWipe => 10
    case Locked => 255
  }

  /** Decoding an integer to an FSM state; the inverse of FsmCode. */
  function FsmFromCode(c: int): (r: Option<FsmState>)
    ensures forall s :: FsmCode(s) == c ==> r == Some(s)
    ensures r.Some? ==> FsmCode(r.value) == c
  {
    if c == 0 then Some(PreWipe)
    else if c == 1 then Some(Wiping)
    else if c == 2 then Some(Idle)
    else if c == 3 then Some(PreExec)
    else if c == 4 then Some(Exec)
    else if c == 10 then Some(MemSecWipe)
    else if c == 255 then Some(FsmState.Locked)
    else None
  }

  /** Progress of the initial secure wipe after reset. */
  datatype InitSecWipeState = NotDone | InProgress | Done

  function InitSecWipeCode(w: InitSecWipeState): (c: nat)
  {
    match w
    case NotDone => 0
    case InProgress => 1
    case Done => 2
  }

  function InitSecWipeFromCode(c: int): (r: Option<InitSecWipeState>)
    ensures forall w :: InitSecWipeCode(w) == c ==> r == Some(w)
    ensures r.Some? ==> InitSecWipeCode(r.value) == c
  {
    if c == 0 then Some(NotDone)
    else if c == 1 then Some(InProgress)
    else if c == 2 then Some(Done)
    else None
  }

  /**
    Value of the STATUS register. This control only ever writes BUSY_EXECUTE
    and LOCKED; every other value is written elsewhere, and the numeric
    encodings are defined outside this model, so they stay abstract.
   */
  datatype Status = BusyExecute | Locked | Other(code: nat)

  /** The life-cycle RMA request signal; only ON has an effect here. */
  datatype LcTx = On | Off
}

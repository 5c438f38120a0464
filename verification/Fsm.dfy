/** The five-state machine of app/core/fsm.c, called from one thread at a time. */
module Fsm {
  import opened Options

  datatype State = INIT | RUNNING | DEGRADED | RECOVERING | FAULT

  datatype Event =
    | INIT_OK | MPU_FAIL | I2C_DEADLOCK | BUS_RECOVERED
    | BUS_RECOVER_FAIL | MPU_RESTORED | ALL_OFFLINE | WATCHDOG_RESET

  /** The transition table; `None` is its -1. */
  function Table(s: State, e: Event): Option<State> {
    match (s, e)
    case (INIT, INIT_OK) => Some(RUNNING)
    case (INIT, ALL_OFFLINE) => Some(FAULT)
    case (RUNNING, MPU_FAIL) => Some(DEGRADED)
    case (RUNNING, I2C_DEADLOCK) => Some(RECOVERING)
    case (RUNNING, ALL_OFFLINE) => Some(FAULT)
    case (DEGRADED, I2C_DEADLOCK) => Some(RECOVERING)
    case (DEGRADED, MPU_RESTORED) => Some(RUNNING)
    case (DEGRADED, ALL_OFFLINE) => Some(FAULT)
    case (RECOVERING, BUS_RECOVERED) => Some(RUNNING)
    case (RECOVERING, BUS_RECOVER_FAIL) => Some(FAULT)
    case (RECOVERING, ALL_OFFLINE) => Some(FAULT)
    case (FAULT, WATCHDOG_RESET) => Some(INIT)
    case _ => None
  }

  /** The table by event: the states an event is legal in, and the one it then leads to. */
  function LegalIn(e: Event): set<State> {
    match e
    case INIT_OK => {INIT}
    case MPU_FAIL => {RUNNING}
    case MPU_RESTORED => {DEGRADED}
    case I2C_DEADLOCK => {RUNNING, DEGRADED}
    case BUS_RECOVERED => {RECOVERING}
    case BUS_RECOVER_FAIL => {RECOVERING}
    case ALL_OFFLINE => {INIT, RUNNING, DEGRADED, RECOVERING}
    case WATCHDOG_RESET => {FAULT}
  }

  function Target(e: Event): State {
    match e
    case INIT_OK => RUNNING
    case MPU_FAIL => DEGRADED
    case MPU_RESTORED => RUNNING
    case I2C_DEADLOCK => RECOVERING
    case BUS_RECOVERED => RUNNING
    case BUS_RECOVER_FAIL => FAULT
    case ALL_OFFLINE => FAULT
    case WATCHDOG_RESET => INIT
  }

  /** Where an event leads does not depend on where it is raised. */
  lemma EventHasOneTarget(s: State, e: Event)
    ensures Table(s, e) == if s in LegalIn(e) then Some(Target(e)) else None
  {
  }

  /** The state after an event; an illegal event leaves it. */
  function Fire(s: State, e: Event): State {
    match Table(s, e)
    case Some(t) => t
    case None => s
  }

  function FireAll(s: State, es: seq<Event>): State {
    if es == [] then s else Fire(FireAll(s, es[..|es| - 1]), es[|es| - 1])
  }

  /** Whatever events arrive, the machine returns to INIT only from FAULT by a watchdog reset, so
      a run that starts outside INIT and ends in it has been in FAULT. */
  lemma {:induction false} InitOnlyThroughFault(s: State, es: seq<Event>)
    requires s != INIT && FireAll(s, es) == INIT
    ensures exists n: nat :: n < |es| && FireAll(s, es[..n]) == FAULT && es[n] == WATCHDOG_RESET
  {
    var n := |es| - 1;
    if FireAll(s, es[..n]) == INIT {
      InitOnlyThroughFault(s, es[..n]);
      var m: nat :| m < n && FireAll(s, es[..n][..m]) == FAULT && es[..n][m] == WATCHDOG_RESET;
      assert es[..n][..m] == es[..m];
    }
  }

  class FsmContext {
    var current: State
    var mpuFailCount: nat
    var i2cRetryCount: nat
    var tempRaw: int
    var humRaw: int

    constructor ()
      ensures current == INIT && mpuFailCount == i2cRetryCount == 0 && tempRaw == humRaw == 0
    {
      current := INIT;
      mpuFailCount, i2cRetryCount, tempRaw, humRaw := 0, 0, 0, 0;
    }

    method Transition(event: Event) returns (ret: int)
      modifies this`current
      ensures current == Fire(old(current), event)
      ensures ret == if Table(old(current), event).Some? then 0 else -1
    {
      var next := Table(current, event);
      ret := 0;
      match next
      case None =>
        ret := -1;
      case Some(s) =>
        current := s;
    }

    method GetState() returns (s: State)
      ensures s == current
    {
      s := current;
    }
  }
}

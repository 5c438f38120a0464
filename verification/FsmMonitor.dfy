/** fsm_transition and fsm_wait_for_state of app/core/fsm.c as a monitor: any number of threads,
    interleaved at every lock, table lookup, broadcast, wait and unlock.  Waiting on the
    condition releases the lock and blocks in one step; wake-ups may be spurious. */
module FsmMonitor {
  import opened CArith
  import opened Options
  import opened Fsm

  /** Where a thread is.  `TChanged` has set the state and not yet broadcast. */
  datatype Thread =
    | Out
    | TWant(e: Event)
    | TLocked(e: Event)
    | TChanged
    | TUnlock(ret: int)
    | WWant(target: State, timed: bool)
    | WTest(target: State, timed: bool)
    | WBlocked(target: State, timed: bool)
    | WWaking(target: State, timed: bool, expired: bool)
    | WUnlock(target: State, timed: bool, ret: int)
  {
    predicate HoldsLock() {
      TLocked? || TChanged? || TUnlock? || WTest? || WUnlock?
    }
  }

  /** A finished wait: whose it was, what it waited for, what it returned, and the state at that
      moment. */
  datatype Return = Return(tid: nat, target: State, timed: bool, ret: int, current: State)

  /** `fired` lists the events looked up, in the order their callers held the lock, and `codes` what
      their calls returned. */
  datatype Sys = Sys(
    current: State, owner: Option<nat>, threads: seq<Thread>, fired: seq<Event>, codes: seq<int>,
    finished: seq<Return>)

  datatype Kind =
    | CallTransition(e: Event)
    | CallWait(target: State, timed: bool)
    | Lock
    | Advance
    | Spurious
    | Expire

  datatype Action = Action(tid: nat, kind: Kind)

  function Awake(t: Thread): Thread {
    if t.WBlocked? then WWaking(t.target, t.timed, false) else t
  }

  function Broadcast(ts: seq<Thread>): (r: seq<Thread>)
    ensures |r| == |ts|
  {
    seq(|ts|, i requires 0 <= i < |ts| => Awake(ts[i]))
  }

  /** What a thread does next while it holds the lock. */
  function AdvanceHolder(s: Sys, i: nat): Sys
    requires i < |s.threads|
  {
    var ts := s.threads;
    match ts[i]
    case TLocked(e) =>
      (match Table(s.current, e)
       case None => s.(fired := s.fired + [e], threads := ts[i := TUnlock(-1)])
       case Some(n) => s.(fired := s.fired + [e], current := n, threads := ts[i := TChanged]))
    case TChanged => s.(threads := Broadcast(ts)[i := TUnlock(0)])
    case TUnlock(ret) => s.(owner := None, threads := ts[i := Out], codes := s.codes + [ret])
    case WTest(target, timed) =>
      if s.current == target then s.(threads := ts[i := WUnlock(target, timed, 0)])
      else s.(owner := None, threads := ts[i := WBlocked(target, timed)])
    case WUnlock(target, timed, ret) =>
      s.(owner := None, threads := ts[i := Out],
      finished := s.finished + [Return(i, target, timed, ret, s.current)])
    case _ => s
  }

  function TakeLock(s: Sys, i: nat): Sys
    requires i < |s.threads|
  {
    var ts := s.threads;
    match ts[i]
    case TWant(e) => s.(owner := Some(i), threads := ts[i := TLocked(e)])
    case WWant(target, timed) => s.(owner := Some(i), threads := ts[i := WTest(target, timed)])
    case WWaking(target, timed, expired) =>
      s.(owner := Some(i),
      threads := ts[i := if expired then WUnlock(target, timed, -1) else WTest(target, timed)])
    case _ => s
  }

  /** One step of one thread; a step that is not enabled changes nothing. */
  function Step(s: Sys, a: Action): Sys {
    if a.tid >= |s.threads| then s
    else
      var i := a.tid;
      var ts := s.threads;
      match a.kind
      case CallTransition(e) => if ts[i].Out? then s.(threads := ts[i := TWant(e)]) else s
      case CallWait(target, timed) => if ts[i].Out? then s.(threads := ts[i := WWant(target, timed)]) else s
      case Lock => if s.owner.None? then TakeLock(s, i) else s
      case Advance => if s.owner == Some(i) then AdvanceHolder(s, i) else s
      case Spurious => if ts[i].WBlocked? then s.(threads := ts[i := Awake(ts[i])]) else s
      case Expire =>
        if ts[i].WBlocked? && ts[i].timed then
          s.(threads := ts[i := WWaking(ts[i].target, true, true)])
        else s
  }

  function Run(s: Sys, acts: seq<Action>): Sys {
    if acts == [] then s else Step(Run(s, acts[..|acts| - 1]), acts[|acts| - 1])
  }

  function Init(n: nat): Sys {
    Sys(INIT, None, seq(n, _ => Out), [], [], [])
  }

  ghost predicate LockIsExclusive(s: Sys) {
    forall i: nat :: i < |s.threads| ==> (s.threads[i].HoldsLock() <==> s.owner == Some(i))
  }

  ghost predicate BroadcastPending(s: Sys) {
    s.owner.Some? && s.owner.value < |s.threads| && s.threads[s.owner.value].TChanged?
  }

  /** A waiter that is blocked and not signalled is waiting for something else than the current
      state, or a broadcast is about to reach it. */
  ghost predicate NoLostWakeup(s: Sys) {
    forall i: nat :: i < |s.threads| && s.threads[i].WBlocked? ==>
                       s.current != s.threads[i].target || BroadcastPending(s)
  }

  /** 0 means the state was reached; -1 is only for a wait with a timeout. */
  predicate TrueAnswer(target: State, timed: bool, ret: int, current: State) {
    (ret == 0 && current == target) || (ret == -1 && timed)
  }

  ghost predicate ReturnsAreTrue(s: Sys) {
    && (forall i: nat :: i < |s.threads| && s.threads[i].WUnlock? ==>
                           TrueAnswer(s.threads[i].target, s.threads[i].timed, s.threads[i].ret, s.current))
    && (forall i: nat :: i < |s.threads| && s.threads[i].WWaking? ==>
                           s.threads[i].expired ==> s.threads[i].timed)
    && (forall r :: r in s.finished ==> TrueAnswer(r.target, r.timed, r.ret, r.current))
  }

  ghost predicate Inv(s: Sys) {
    && (s.owner.Some? ==> s.owner.value < |s.threads|)
    && s.current == FireAll(INIT, s.fired)
    && LockIsExclusive(s) && NoLostWakeup(s) && ReturnsAreTrue(s)
  }

  lemma AdvanceKeepsInv(s: Sys, i: nat)
    requires Inv(s) && i < |s.threads| && s.owner == Some(i)
    ensures Inv(AdvanceHolder(s, i))
  {
  }

  lemma LockKeepsInv(s: Sys, i: nat)
    requires Inv(s) && i < |s.threads| && s.owner.None?
    ensures Inv(TakeLock(s, i))
  {
  }

  lemma CallKeepsInv(s: Sys, a: Action)
    requires Inv(s) && a.tid < |s.threads| && (a.kind.CallTransition? || a.kind.CallWait?)
    ensures Inv(Step(s, a))
  {
  }

  lemma WakingKeepsInv(s: Sys, a: Action)
    requires Inv(s) && a.tid < |s.threads| && (a.kind.Spurious? || a.kind.Expire?)
    ensures Inv(Step(s, a))
  {
  }

  lemma {:induction false} StepKeepsInv(s: Sys, a: Action)
    requires Inv(s)
    ensures Inv(Step(s, a))
  {
    if a.tid < |s.threads| {
      if a.kind.Lock? {
        if s.owner.None? { LockKeepsInv(s, a.tid); }
      } else if a.kind.Advance? {
        if s.owner == Some(a.tid) { AdvanceKeepsInv(s, a.tid); }
      } else if a.kind.CallTransition? || a.kind.CallWait? {
        CallKeepsInv(s, a);
      } else {
        WakingKeepsInv(s, a);
      }
    }
  }

  /** MAIN: in every interleaving the lock has one holder, no wake-up is lost, a wait that
      returned 0 returned with the state it asked for, a wait without a timeout never fails, and
      the state is the sequential machine's after the same events in lock order. */
  lemma {:induction false} MonitorIsSafe(n: nat, acts: seq<Action>)
    ensures Inv(Run(Init(n), acts))
  {
    if acts != [] {
      MonitorIsSafe(n, acts[..|acts| - 1]);
      StepKeepsInv(Run(Init(n), acts[..|acts| - 1]), acts[|acts| - 1]);
    }
  }

  /** MAIN: whenever the lock is free and the state is the one a waiter asked for, that waiter is
      not blocked, and unless its timeout has already fired three steps of its own make it
      return 0. */
  lemma WaiterGetsThrough(n: nat, acts: seq<Action>, i: nat, target: State, timed: bool)
    requires var s := Run(Init(n), acts);
             i < |s.threads| && s.owner.None? && s.current == target
             && (s.threads[i] == WWant(target, timed) || s.threads[i] == WBlocked(target, timed)
                 || s.threads[i] == WWaking(target, timed, false))
    ensures var s := Run(Init(n), acts);
            && !s.threads[i].WBlocked?
            && var t := Step(Step(Step(s, Action(i, Lock)), Action(i, Advance)), Action(i, Advance));
            && t.threads[i].Out? && t.owner.None? && t.current == target
            && t.finished == s.finished + [Return(i, target, timed, 0, target)]
  {
    MonitorIsSafe(n, acts);
  }

  /** A timeout that fires first decides: the wait returns -1 whatever the state has become. */
  lemma ExpiryWins(s: Sys, i: nat, target: State)
    requires i < |s.threads| && s.owner.None? && s.threads[i] == WWaking(target, true, true)
    ensures var t := Step(Step(s, Action(i, Lock)), Action(i, Advance));
            t.finished == s.finished + [Return(i, target, true, -1, s.current)]
  {
  }

  function Then(n: nat, acts: seq<Action>, tid: nat, kind: Kind): (r: seq<Action>)
    ensures Run(Init(n), r) == Step(Run(Init(n), acts), Action(tid, kind))
  {
    acts + [Action(tid, kind)]
  }

  lemma WaitCanExpire() returns (acts: seq<Action>)
    ensures Run(Init(2), acts) == Sys(INIT, None, [WWaking(RUNNING, true, true), Out], [], [], [])
  {
    acts := Then(2, [], 0, CallWait(RUNNING, true));
    assert Run(Init(2), acts) == Init(2).(threads := [WWant(RUNNING, true), Out]);
    acts := Then(2, acts, 0, Lock);
    assert Run(Init(2), acts) == Init(2).(owner := Some(0), threads := [WTest(RUNNING, true), Out]);
    acts := Then(2, acts, 0, Advance);
    assert Run(Init(2), acts) == Init(2).(threads := [WBlocked(RUNNING, true), Out]);
    acts := Then(2, acts, 0, Expire);
  }

  lemma StateCanChange(before: seq<Action>) returns (acts: seq<Action>)
    requires Run(Init(2), before) == Sys(INIT, None, [WWaking(RUNNING, true, true), Out], [], [], [])
    ensures Run(Init(2), acts) == Sys(RUNNING, None, [WWaking(RUNNING, true, true), Out], [INIT_OK], [0], [])
  {
    acts := Then(2, before, 1, CallTransition(INIT_OK));
    acts := Then(2, acts, 1, Lock);
    acts := Then(2, acts, 1, Advance);
    assert Run(Init(2), acts) == Sys(RUNNING, Some(1), [WWaking(RUNNING, true, true), TChanged], [INIT_OK], [], []);
    acts := Then(2, acts, 1, Advance);
    acts := Then(2, acts, 1, Advance);
  }

  /** It happens: the state is the one asked for, and the wait fails. */
  lemma ExpiryCanWin() returns (acts: seq<Action>)
    ensures Run(Init(2), acts).finished == [Return(0, RUNNING, true, -1, RUNNING)]
  {
    acts := WaitCanExpire();
    acts := StateCanChange(acts);
    ExpiryWins(Run(Init(2), acts), 0, RUNNING);
    acts := Then(2, acts, 0, Lock);
    acts := Then(2, acts, 0, Advance);
  }

  // ---- every timeout that fires is answered once ----

  function ThreadOf(s: Sys, i: nat): Thread {
    if i < |s.threads| then s.threads[i] else Out
  }

  /** How often a timeout of thread `i` has fired. */
  function Expiries(n: nat, acts: seq<Action>, i: nat): nat {
    if acts == [] then 0
    else
      var m := |acts| - 1;
      var t := ThreadOf(Run(Init(n), acts[..m]), i);
      Expiries(n, acts[..m], i) + if acts[m] == Action(i, Expire) && t.WBlocked? && t.timed then 1 else 0
  }

  /** How often a wait of thread `i` has returned -1. */
  function Failures(rs: seq<Return>, i: nat): nat {
    if rs == [] then 0
    else
      var m := |rs| - 1;
      Failures(rs[..m], i) + if rs[m].tid == i && rs[m].ret == -1 then 1 else 0
  }

  /** A timeout has fired and its -1 is still on the way. */
  predicate Failing(t: Thread) {
    (t.WWaking? && t.expired) || (t.WUnlock? && t.ret == -1)
  }

  lemma FailuresSnoc(rs: seq<Return>, r: Return, i: nat)
    ensures Failures(rs + [r], i) == Failures(rs, i) + if r.tid == i && r.ret == -1 then 1 else 0
  {
    assert (rs + [r])[..|rs|] == rs;
  }

  /** Returned and coming failures of thread `i`. */
  function FailuresSoFar(s: Sys, i: nat): nat {
    Failures(s.finished, i) + if Failing(ThreadOf(s, i)) then 1 else 0
  }

  lemma AdvanceFailsNobody(s: Sys, holder: nat, i: nat)
    requires holder < |s.threads|
    ensures FailuresSoFar(AdvanceHolder(s, holder), i) == FailuresSoFar(s, i)
  {
    if s.threads[holder].WUnlock? {
      var w := s.threads[holder];
      FailuresSnoc(s.finished, Return(holder, w.target, w.timed, w.ret, s.current), i);
    }
  }

  lemma LockFailsNobody(s: Sys, holder: nat, i: nat)
    requires holder < |s.threads|
    ensures FailuresSoFar(TakeLock(s, holder), i) == FailuresSoFar(s, i)
  {
  }

  lemma FailingStep(s: Sys, a: Action, i: nat)
    ensures var w := ThreadOf(s, i);
            FailuresSoFar(Step(s, a), i)
            == FailuresSoFar(s, i) + if a == Action(i, Expire) && w.WBlocked? && w.timed then 1 else 0
  {
    if a.tid < |s.threads| {
      match a.kind
      case Advance => AdvanceFailsNobody(s, a.tid, i);
      case Lock => LockFailsNobody(s, a.tid, i);
      case _ =>
    }
  }

  /** MAIN: in every interleaving a thread's waits have returned -1 exactly as often as its own
      timeouts have fired, but for one whose -1 is still on the way. */
  lemma {:induction false} FailuresAreTimeouts(n: nat, acts: seq<Action>, i: nat)
    ensures var s := Run(Init(n), acts);
            Expiries(n, acts, i) == Failures(s.finished, i) + if Failing(ThreadOf(s, i)) then 1 else 0
  {
    if acts != [] {
      var m := |acts| - 1;
      FailuresAreTimeouts(n, acts[..m], i);
      FailingStep(Run(Init(n), acts[..m]), acts[m], i);
    }
  }

  // ---- what a transition returns and does ----

  /** The return codes of the sequential machine. */
  function Codes(s: State, es: seq<Event>): seq<int> {
    if es == [] then []
    else
      var m := |es| - 1;
      Codes(s, es[..m]) + [if Table(FireAll(s, es[..m]), es[m]).Some? then 0 else -1]
  }

  /** The code of a transition that has been decided and has not yet returned. */
  function Underway(s: Sys): seq<int> {
    if s.owner.None? then []
    else
      match ThreadOf(s, s.owner.value)
      case TChanged => [0]
      case TUnlock(ret) => [ret]
      case _ => []
  }

  lemma CodesSnoc(s: State, es: seq<Event>, e: Event)
    ensures Codes(s, es + [e]) == Codes(s, es) + [if Table(FireAll(s, es), e).Some? then 0 else -1]
  {
    assert (es + [e])[..|es|] == es;
  }

  /** Only a holder that looks its event up adds to the codes decided. */
  lemma AdvanceDecides(s: Sys, i: nat)
    requires Inv(s) && i < |s.threads| && s.owner == Some(i)
    ensures var t, w := AdvanceHolder(s, i), s.threads[i];
            t.codes + Underway(t) == s.codes + Underway(s)
            + (if w.TLocked? then [if Table(s.current, w.e).Some? then 0 else -1] else [])
            && t.fired == s.fired + (if w.TLocked? then [w.e] else [])
  {
  }

  lemma OthersDecideNothing(s: Sys, a: Action)
    requires Inv(s) && !(a.kind.Advance? && s.owner == Some(a.tid))
    ensures var t := Step(s, a);
            t.codes == s.codes && t.fired == s.fired && Underway(t) == Underway(s)
  {
  }

  lemma {:induction false} AdvanceKeepsCodes(s: Sys, i: nat, t: Sys)
    requires Inv(s) && i < |s.threads| && s.owner == Some(i) && t == AdvanceHolder(s, i)
    requires s.codes + Underway(s) == Codes(INIT, s.fired)
    ensures t.codes + Underway(t) == Codes(INIT, t.fired)
  {
    AdvanceDecides(s, i);
    if s.threads[i].TLocked? {
      CodesSnoc(INIT, s.fired, s.threads[i].e);
    }
  }

  lemma {:induction false} CodesStep(s: Sys, a: Action)
    requires Inv(s) && s.codes + Underway(s) == Codes(INIT, s.fired)
    ensures var t := Step(s, a);
            t.codes + Underway(t) == Codes(INIT, t.fired)
  {
    if a.tid < |s.threads| && a.kind.Advance? && s.owner == Some(a.tid) {
      AdvanceKeepsCodes(s, a.tid, Step(s, a));
    } else {
      OthersDecideNothing(s, a);
    }
  }

  /** MAIN: in every interleaving the transitions return, in the order they held the lock, what the
      sequential machine returns for the same events. */
  lemma {:induction false} CodesAreSequential(n: nat, acts: seq<Action>)
    ensures var s := Run(Init(n), acts);
            s.codes + Underway(s) == Codes(INIT, s.fired)
  {
    if acts != [] {
      var m := |acts| - 1;
      CodesAreSequential(n, acts[..m]);
      MonitorIsSafe(n, acts[..m]);
      CodesStep(Run(Init(n), acts[..m]), acts[m]);
    }
  }

  /** MAIN: with the lock free a transition gets through in its own steps: it moves the state as the
      table says, returns the table's code, and wakes every blocked waiter if it moved. */
  lemma TransitionGetsThrough(n: nat, acts: seq<Action>, i: nat, e: Event)
    requires var s := Run(Init(n), acts);
             i < |s.threads| && s.owner.None? && s.threads[i] == TWant(e)
    ensures var s := Run(Init(n), acts);
            var legal := Table(s.current, e).Some?;
            var t := Step(Step(Step(s, Action(i, Lock)), Action(i, Advance)), Action(i, Advance));
            var u := if legal then Step(t, Action(i, Advance)) else t;
            && u.owner.None? && u.threads[i].Out? && |u.threads| == |s.threads|
            && u.current == Fire(s.current, e) && u.fired == s.fired + [e]
            && u.codes == s.codes + [if legal then 0 else -1] && u.finished == s.finished
            && forall j: nat :: j < |s.threads| && j != i ==>
                                  u.threads[j] == if legal then Awake(s.threads[j]) else s.threads[j]
  {
  }

  // ---- the deadline of a timed wait ----

  /** The absolute deadline a timed wait computes on each turn of its loop: normalised, and the
      current time plus the timeout exactly. */
  method Deadline(now: Timespec, timeoutMs: nat) returns (ts: Timespec)
    requires Normalised(now)
    ensures Normalised(ts) && Nanos(ts) == Nanos(now) + timeoutMs * 1_000_000
  {
    ts := now;
    ts := ts.(sec := ts.sec + timeoutMs / 1000);
    ts := ts.(nsec := ts.nsec + (timeoutMs % 1000) * 1_000_000);
    if ts.nsec >= NSEC {
      ts := Timespec(ts.sec + 1, ts.nsec - NSEC);
    }
  }
}

/** The four Modbus registers of app/modbus/modbus_server.c between three threads: the collector
    stores them one by one, the server start zeroes them, and a reply loads them one by one.  A
    register's content is the number of the update that stored it, 0 if zeroed. */
module RegisterRuns {

  const REGS: nat := 4

  /** `begun` updates have begun and the last has stored `pos` registers.  `got` is what the
      current or last reply has loaded.  The rest is history: for each register loaded, the last
      update to have stored it; the updates complete when the reply began; and for each register
      the last update that the zeroing undid. */
  datatype Sys = Sys(
    cells: seq<nat>, begun: nat, pos: nat, serving: bool,
    got: seq<nat>, loaded: seq<nat>, since: nat, undone: seq<nat>)
  {
    /** The last update to have stored register `c`. */
    function Stored(c: nat): int {
      if c < pos then begun else begun - 1
    }

    function Complete(): int {
      Stored(REGS - 1)
    }
  }

  /** A reply starts with its first load. */
  datatype Action = Store | Zero(reg: nat) | Serve | Load

  function Init(): Sys {
    Sys([0, 0, 0, 0], 0, REGS, false, [], [], 0, [0, 0, 0, 0])
  }

  ghost predicate Shape(s: Sys) {
    && |s.cells| == |s.undone| == REGS && 0 < s.pos <= REGS && (s.pos < REGS ==> s.begun > 0)
    && |s.got| == |s.loaded| <= REGS
  }

  /** One step of one thread; zeroing is over before the server thread exists. */
  function Step(s: Sys, a: Action): (t: Sys)
    requires Shape(s)
    ensures Shape(t)
  {
    match a
    case Store =>
      if s.pos == REGS then s.(cells := s.cells[0 := s.begun + 1], begun := s.begun + 1, pos := 1)
      else s.(cells := s.cells[s.pos := s.begun], pos := s.pos + 1)
    case Zero(c) =>
      if !s.serving && c < REGS then s.(cells := s.cells[c := 0], undone := s.undone[c := s.Stored(c)]) else s
    case Serve => s.(serving := true)
    case Load =>
      if !s.serving then s
      else if s.got == [] || |s.got| == REGS then
        s.(got := [s.cells[0]], loaded := [s.Stored(0)], since := s.Complete())
      else s.(got := s.got + [s.cells[|s.got|]], loaded := s.loaded + [s.Stored(|s.got|)])
  }

  function Run(acts: seq<Action>): (s: Sys)
    ensures Shape(s)
  {
    if acts == [] then Init() else Step(Run(acts[..|acts| - 1]), acts[|acts| - 1])
  }

  /** What register `c` holds once update `u` was the last to store it. */
  function Shown(s: Sys, c: nat, u: int): int
    requires Shape(s) && c < REGS
  {
    if u > s.undone[c] then u else 0
  }

  ghost predicate CellsAreStored(s: Sys)
    requires Shape(s)
  {
    forall c: nat :: c < REGS ==> s.undone[c] <= s.Stored(c) && s.cells[c] == Shown(s, c, s.Stored(c))
  }

  /** The loads so far: each shows what it should, none misses an update complete when the reply
      began, and a later load is at most one update behind an earlier one. */
  ghost predicate LoadsFit(s: Sys)
    requires Shape(s)
  {
    && (s.got != [] ==> s.serving && s.since <= s.Complete())
    && (forall c: nat :: c < |s.got| ==> s.got[c] == Shown(s, c, s.loaded[c]))
    && (forall c: nat :: c < |s.got| ==> s.since <= s.loaded[c] <= s.Stored(c))
    && (forall c, d :: 0 <= c < d < |s.got| ==> s.loaded[c] <= s.loaded[d] + 1)
  }

  ghost predicate Inv(s: Sys) {
    Shape(s) && CellsAreStored(s) && LoadsFit(s)
  }

  lemma StoreKeepsInv(s: Sys)
    requires Inv(s)
    ensures Inv(Step(s, Store))
  {
  }

  lemma {:induction false} LoadKeepsInv(s: Sys)
    requires Inv(s)
    ensures Inv(Step(s, Load))
  {
    var n := |s.got|;
    if s.serving && 0 < n < REGS {
      assert s.Complete() <= s.Stored(n);
    }
  }

  lemma StepKeepsInv(s: Sys, a: Action)
    requires Inv(s)
    ensures Inv(Step(s, a))
  {
    if a.Store? {
      StoreKeepsInv(s);
    } else if a.Load? {
      LoadKeepsInv(s);
    }
  }

  lemma {:induction false} RunKeepsInv(acts: seq<Action>)
    ensures Inv(Run(acts))
  {
    if acts != [] {
      RunKeepsInv(acts[..|acts| - 1]);
      StepKeepsInv(Run(acts[..|acts| - 1]), acts[|acts| - 1]);
    }
  }

  /** MAIN, how mixed a reply can be, in every interleaving: each register shows one update (0 if
      the zeroing undid it), none older than the last complete when the reply began, and none
      more than one update older than a register before it.  So a reply during which no update
      is under way shows a single one. */
  lemma {:induction false} ReplyMixesLittle(acts: seq<Action>)
    requires |Run(acts).got| == REGS
    ensures var s := Run(acts);
            && (forall c: nat :: c < REGS ==> s.got[c] == Shown(s, c, s.loaded[c]))
            && (forall c: nat :: c < REGS ==> s.since <= s.loaded[c] <= s.begun)
            && (forall c, d :: 0 <= c < d < REGS ==> s.loaded[c] <= s.loaded[d] + 1)
            && (s.since == s.begun ==> s.loaded == [s.begun, s.begun, s.begun, s.begun])
  {
    RunKeepsInv(acts);
  }

  lemma RunSnoc(acts: seq<Action>, a: Action)
    ensures Run(acts + [a]) == Step(Run(acts), a)
  {
    assert (acts + [a])[..|acts|] == acts;
  }

  lemma {:induction false} RunFour(acts: seq<Action>, a: Action, b: Action, c: Action, d: Action)
    ensures Run(acts + [a, b, c, d]) == Step(Step(Step(Step(Run(acts), a), b), c), d)
  {
    RunSnoc(acts, a);
    RunSnoc(acts + [a], b);
    RunSnoc(acts + [a] + [b], c);
    RunSnoc(acts + [a] + [b] + [c], d);
    assert acts + [a, b, c, d] == acts + [a] + [b] + [c] + [d];
  }

  /** One whole update, then the server starts. */
  lemma {:induction false} OneUpdate() returns (acts: seq<Action>)
    ensures Run(acts) == Init().(cells := [1, 1, 1, 1], begun := 1, serving := true)
  {
    acts := [Store, Store, Store, Store];
    RunFour([], Store, Store, Store, Store);
    assert [] + acts == acts;
    RunSnoc(acts, Serve);
    acts := acts + [Serve];
  }

  /** Both mixtures happen: a register newer than those after it, and one older. */
  lemma {:induction false} NewerFirst() returns (acts: seq<Action>)
    ensures Run(acts).got == [2, 1, 1, 1]
  {
    acts := OneUpdate();
    RunSnoc(acts, Store);
    acts := acts + [Store];
    RunFour(acts, Load, Load, Load, Load);
    acts := acts + [Load, Load, Load, Load];
  }

  lemma {:induction false} OlderFirst() returns (acts: seq<Action>)
    ensures Run(acts).got == [1, 2, 2, 2]
  {
    acts := OneUpdate();
    RunSnoc(acts, Load);
    acts := acts + [Load];
    RunFour(acts, Store, Store, Store, Store);
    acts := acts + [Store, Store, Store, Store];
    RunFour(acts, Load, Load, Load, Serve);
    acts := acts + [Load, Load, Load, Serve];
  }
}

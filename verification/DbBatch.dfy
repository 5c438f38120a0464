/** The insert batch of app/core/db_manager.c.  SQLite is a table that rows are appended to. */
module DbBatch {
  import opened CArith
  import opened Collector

  const BATCH_SIZE: nat := 10
  const BATCH_TIMEOUT_MS: int := 50

  datatype Record = Record(timestamp: int, sensor: string, channel: string, value: real)

  /** `strncpy` into a 16-byte field that is then closed with a zero byte. */
  function Cut(s: string): (r: string)
    ensures r <= s
    ensures |r| == if |s| <= 15 then |s| else 15
  {
    if |s| <= 15 then s else s[..15]
  }

  function Kept(r: Record): Record {
    r.(sensor := Cut(r.sensor), channel := Cut(r.channel))
  }

  /** `(now - last)` in milliseconds as the code computes it. */
  function ElapsedMs(now: Timespec, last: Timespec): int {
    (now.sec - last.sec) * 1000 + Quot(now.nsec - last.nsec, 1_000_000)
  }

  /** The module's state: is the database open, its sensor table, the live prefix of the batch
      buffer, and when it was last flushed. */
  datatype State = State(open: bool, table: seq<Record>, batch: seq<Record>, last: Timespec)

  /** The rows of a batch that SQLite stores; `fails` lists the positions whose step fails. */
  function Stored(batch: seq<Record>, fails: set<nat>): seq<Record> {
    if batch == [] then []
    else
      var m := |batch| - 1;
      Stored(batch[..m], fails) + if m in fails then [] else [batch[m]]
  }

  function Flushed(s: State, fails: set<nat>, clock: Timespec): State {
    if s.batch == [] || !s.open then s
    else State(s.open, s.table + Stored(s.batch, fails), [], clock)
  }

  /** What one insert meets: the clock of a flush forced by a full buffer, the clock of the
      timeout test, the clock of a flush it causes, and the steps that fail in each flush. */
  datatype Env = Env(full: Timespec, now: Timespec, late: Timespec, fullFails: set<nat>, lateFails: set<nat>)

  /** A full buffer is flushed first. */
  function Room(s: State, env: Env): State {
    if |s.batch| >= BATCH_SIZE then Flushed(s, env.fullFails, env.full) else s
  }

  function Added(s: State, r: Record): State {
    s.(batch := s.batch + [Kept(r)])
  }

  function Inserted(s: State, r: Record, env: Env): State {
    var b := Added(Room(s, env), r);
    if ElapsedMs(env.now, b.last) >= BATCH_TIMEOUT_MS then Flushed(b, env.lateFails, env.late) else b
  }

  function Closed(s: State, fails: set<nat>, clock: Timespec): State {
    if s.open then Flushed(s, fails, clock).(open := false) else s
  }

  /** An insert writes inside the buffer exactly when the database is open or the buffer is not
      full: with it closed, the forced flush does nothing. */
  lemma InsertFitsBuffer(s: State, env: Env)
    requires |s.batch| <= BATCH_SIZE
    ensures |Room(s, env).batch| < BATCH_SIZE
       <==> s.open || |s.batch| < BATCH_SIZE
  {
  }

  class Manager {
    var open: bool
    var table: seq<Record>
    const buffer: array<Record>
    var count: int
    var last: Timespec

    ghost predicate Valid()
      reads this
    {
      buffer.Length == BATCH_SIZE && 0 <= count <= BATCH_SIZE
    }

    ghost function View(): State
      requires Valid()
      reads this, buffer
    {
      State(open, table, buffer[..count], last)
    }

    constructor (clock: Timespec)
      ensures Valid() && View() == State(true, [], [], clock) && fresh(buffer)
    {
      open, table, count, last := true, [], 0, clock;
      buffer := new Record[BATCH_SIZE](_ => Record(0, "", "", 0.0));
    }

    method Flush(fails: set<nat>, clock: Timespec)
      requires Valid()
      modifies this
      ensures Valid() && View() == Flushed(old(View()), fails, clock)
    {
      if count == 0 || !open {
        return;
      }
      var i := 0;
      while i < count
        invariant 0 <= i <= count && count == old(count) && open
        invariant last == old(last)
        invariant table == old(table) + Stored(buffer[..i], fails)
      {
        if i !in fails {
          table := table + [buffer[i]];
        }
        assert buffer[..i + 1][..i] == buffer[..i];
        i := i + 1;
      }
      count := 0;
      last := clock;
    }

    method Insert(timestamp: int, sensor: string, channel: string, value: real, env: Env)
      requires Valid() && (open || count < BATCH_SIZE)
      modifies this, buffer
      ensures Valid()
      ensures View() == Inserted(old(View()), Record(timestamp, sensor, channel, value), env)
    {
      if count >= BATCH_SIZE {
        Flush(env.fullFails, env.full);
      }
      ghost var a := View();
      buffer[count] := Record(timestamp, Cut(sensor), Cut(channel), value);
      count := count + 1;
      assert View() == Added(a, Record(timestamp, sensor, channel, value));
      if ElapsedMs(env.now, last) >= BATCH_TIMEOUT_MS {
        Flush(env.lateFails, env.late);
      }
    }

    method Close(fails: set<nat>, clock: Timespec)
      requires Valid()
      modifies this
      ensures Valid() && View() == Closed(old(View()), fails, clock)
    {
      if open {
        Flush(fails, clock);
        open := false;
      }
    }
  }

  // ---- conservation ----

  lemma {:induction false} StoredAll(batch: seq<Record>, fails: set<nat>)
    ensures |Stored(batch, fails)| <= |batch|
    ensures |Stored(batch, fails)| == |batch| <==> forall i: nat :: i < |batch| ==> i !in fails
    ensures (forall i: nat :: i < |batch| ==> i !in fails) ==> Stored(batch, fails) == batch
    decreases |batch|
  {
    if batch != [] {
      StoredAll(batch[..|batch| - 1], fails);
    }
  }

  /** Everything the module holds, oldest first. */
  function Held(s: State): seq<Record> {
    s.table + s.batch
  }

  /** A flush keeps every record exactly when no SQLite step of its batch fails: failures are not
      looked at, and the batch is emptied all the same. */
  lemma FlushConserves(s: State, fails: set<nat>, clock: Timespec)
    requires s.open
    ensures Held(Flushed(s, fails, clock)) == Held(s) <==> forall i: nat :: i < |s.batch| ==> i !in fails
    ensures Flushed(s, fails, clock).batch == []
  {
    StoredAll(s.batch, fails);
  }

  datatype Op = Insert(r: Record, env: Env) | Flush(fails: set<nat>, clock: Timespec)

  function Step(s: State, op: Op): State {
    match op
    case Insert(r, env) => Inserted(s, r, env)
    case Flush(fails, clock) => Flushed(s, fails, clock)
  }

  function Run(s: State, ops: seq<Op>): State {
    if ops == [] then s else Step(Run(s, ops[..|ops| - 1]), ops[|ops| - 1])
  }

  function Brought(op: Op): seq<Record> {
    match op
    case Insert(r, _) => [Kept(r)]
    case Flush(_, _) => []
  }

  /** Every record handed in, as the buffer keeps it. */
  function History(ops: seq<Op>): seq<Record> {
    if ops == [] then [] else History(ops[..|ops| - 1]) + Brought(ops[|ops| - 1])
  }

  ghost predicate NoFailure(op: Op) {
    match op
    case Insert(_, env) => env.fullFails == {} && env.lateFails == {}
    case Flush(fails, _) => fails == {}
  }

  lemma InsertHolds(s: State, r: Record, env: Env)
    requires s.open && |s.batch| <= BATCH_SIZE && env.fullFails == {} && env.lateFails == {}
    ensures var t := Inserted(s, r, env);
            t.open && |t.batch| <= BATCH_SIZE && Held(t) == Held(s) + [Kept(r)]
            && (t.batch == [] || ElapsedMs(env.now, t.last) < BATCH_TIMEOUT_MS)
  {
    FlushConserves(s, env.fullFails, env.full);
    var a := Room(s, env);
    var b := Added(a, r);
    assert Held(b) == Held(a) + [Kept(r)];
    FlushConserves(b, env.lateFails, env.late);
  }

  /** MAIN: from opening on, while SQLite does not fail, the table followed by the batch is every
      record inserted, in order; the batch never exceeds ten. */
  lemma {:induction false} NothingIsLost(clock: Timespec, ops: seq<Op>)
    requires forall op :: op in ops ==> NoFailure(op)
    ensures var s := Run(State(true, [], [], clock), ops);
            s.open && |s.batch| <= BATCH_SIZE && Held(s) == History(ops)
    decreases |ops|
  {
    if ops != [] {
      var m := |ops| - 1;
      var s := Run(State(true, [], [], clock), ops[..m]);
      NothingIsLost(clock, ops[..m]);
      assert ops[m] in ops;
      match ops[m]
      case Insert(r, env) =>
        InsertHolds(s, r, env);
      case Flush(fails, c) =>
        FlushConserves(s, fails, c);
        assert History(ops[..m]) + [] == History(ops[..m]);
    }
  }

  /** MAIN: after closing, the table is the whole history. */
  lemma CloseStoresAll(clock: Timespec, ops: seq<Op>, end: Timespec)
    requires forall op :: op in ops ==> NoFailure(op)
    ensures Closed(Run(State(true, [], [], clock), ops), {}, end).table == History(ops)
  {
    NothingIsLost(clock, ops);
    FlushConserves(Run(State(true, [], [], clock), ops), {}, end);
  }

  // ---- exactly which runs lose nothing ----

  /** No step of a flush in this state fails. */
  ghost predicate FlushIsClean(s: State, fails: set<nat>) {
    forall i: nat :: i < |s.batch| ==> i !in fails
  }

  /** Nor of those an insert causes: the one a full buffer forces and the one the clock does. */
  ghost predicate IsClean(s: State, op: Op) {
    match op
    case Flush(fails, _) => FlushIsClean(s, fails)
    case Insert(r, env) =>
      var b := Added(Room(s, env), r);
      && (|s.batch| >= BATCH_SIZE ==> FlushIsClean(s, env.fullFails))
      && (ElapsedMs(env.now, b.last) >= BATCH_TIMEOUT_MS ==> FlushIsClean(b, env.lateFails))
  }

  ghost predicate RunIsClean(s: State, ops: seq<Op>) {
    ops != [] ==>
      var m := |ops| - 1;
      RunIsClean(s, ops[..m]) && IsClean(Run(s, ops[..m]), ops[m])
  }

  /** `now` is `before` with `more` at its end, or, exactly if something was lost, shorter. */
  ghost predicate Grows(now: seq<Record>, before: seq<Record>, more: seq<Record>, clean: bool) {
    if clean then now == before + more else |now| < |before| + |more|
  }

  lemma FlushGrows(s: State, fails: set<nat>, clock: Timespec)
    requires s.open
    ensures Grows(Held(Flushed(s, fails, clock)), Held(s), [], FlushIsClean(s, fails))
  {
    StoredAll(s.batch, fails);
  }

  lemma RoomGrows(s: State, env: Env)
    requires s.open && |s.batch| <= BATCH_SIZE
    ensures var a := Room(s, env);
            && a.open && |a.batch| < BATCH_SIZE
            && Grows(Held(a), Held(s), [], |s.batch| >= BATCH_SIZE ==> FlushIsClean(s, env.fullFails))
  {
    FlushGrows(s, env.fullFails, env.full);
  }

  lemma {:induction false} InsertGrows(s: State, r: Record, env: Env)
    requires s.open && |s.batch| <= BATCH_SIZE
    ensures var t := Inserted(s, r, env);
            && t.open && |t.batch| <= BATCH_SIZE
            && Grows(Held(t), Held(s), [Kept(r)], IsClean(s, Insert(r, env)))
  {
    var a := Room(s, env);
    var b := Added(a, r);
    RoomGrows(s, env);
    assert Held(b) == Held(a) + [Kept(r)];
    FlushGrows(b, env.lateFails, env.late);
  }

  lemma {:induction false} StepGrows(s: State, op: Op)
    requires s.open && |s.batch| <= BATCH_SIZE
    ensures Step(s, op).open && |Step(s, op).batch| <= BATCH_SIZE
    ensures Grows(Held(Step(s, op)), Held(s), Brought(op), IsClean(s, op))
  {
    match op
    case Flush(fails, clock) => FlushGrows(s, fails, clock);
    case Insert(r, env) => InsertGrows(s, r, env);
  }

  /** MAIN: from opening on, table and batch together are every record inserted, in order, if and
      only if no SQLite step of any flush of the run failed; otherwise they are fewer. */
  lemma {:induction false} HeldIffClean(clock: Timespec, ops: seq<Op>)
    ensures var s := Run(State(true, [], [], clock), ops);
            && s.open && |s.batch| <= BATCH_SIZE
            && |Held(s)| <= |History(ops)|
            && (Held(s) == History(ops) <==> RunIsClean(State(true, [], [], clock), ops))
            && (!RunIsClean(State(true, [], [], clock), ops) ==> |Held(s)| < |History(ops)|)
    decreases |ops|
  {
    if ops != [] {
      var m := |ops| - 1;
      HeldIffClean(clock, ops[..m]);
      StepGrows(Run(State(true, [], [], clock), ops[..m]), ops[m]);
    }
  }

  /** MAIN: after closing, the table is the whole history if and only if no step of any flush
      failed, the closing one's included. */
  lemma {:induction false} CloseStoresAllIffClean(clock: Timespec, ops: seq<Op>, fails: set<nat>, end: Timespec)
    ensures var s := Run(State(true, [], [], clock), ops);
            Closed(s, fails, end).table == History(ops)
            <==> RunIsClean(State(true, [], [], clock), ops) && FlushIsClean(s, fails)
    ensures var t := Closed(Run(State(true, [], [], clock), ops), fails, end);
            !t.open && t.batch == []
  {
    var s := Run(State(true, [], [], clock), ops);
    HeldIffClean(clock, ops);
    FlushGrows(s, fails, end);
    FlushConserves(s, fails, end);
    assert Held(Flushed(s, fails, end)) == Closed(s, fails, end).table;
    assert Held(s) + [] == Held(s);
  }

  // ---- when a batch is flushed ----

  /** The last flush that had anything to write, or the opening: when it was, and how many of the
      records of the history had been handed in by then. */
  datatype Mark = Mark(at: Timespec, upTo: nat)

  /** A tenth record still waiting forces a flush before the next one is taken. */
  function MarkBefore(mark: Mark, total: nat, env: Env): Mark {
    if total >= mark.upTo + 10 then Mark(env.full, total) else mark
  }

  function LastFlush(start: Timespec, ops: seq<Op>): Mark {
    if ops == [] then Mark(start, 0)
    else
      var m := |ops| - 1;
      var mark, total := LastFlush(start, ops[..m]), |History(ops[..m])|;
      match ops[m]
      case Flush(_, clock) => if total > mark.upTo then Mark(clock, total) else mark
      case Insert(_, env) =>
        var before := MarkBefore(mark, total, env);
        if ElapsedMs(env.now, before.at) < 50 then before else Mark(env.late, total + 1)
  }

  ghost predicate Marked(s: State, mark: Mark, history: seq<Record>) {
    && s.open && s.last == mark.at
    && mark.upTo <= |history| <= mark.upTo + 10
    && s.batch == history[mark.upTo..]
  }

  lemma FlushIsMarked(s: State, mark: Mark, history: seq<Record>, fails: set<nat>, clock: Timespec)
    requires Marked(s, mark, history)
    ensures Marked(Flushed(s, fails, clock), if |history| > mark.upTo then Mark(clock, |history|) else mark, history)
  {
  }

  lemma {:induction false} InsertIsMarked(s: State, mark: Mark, history: seq<Record>, r: Record, env: Env)
    requires Marked(s, mark, history)
    ensures var before := MarkBefore(mark, |history|, env);
            var young := ElapsedMs(env.now, before.at) < 50;
            var t := Inserted(s, r, env);
            && Marked(t, if young then before else Mark(env.late, |history| + 1), history + [Kept(r)])
            && (t.batch != [] <==> young)
  {
    var before, longer := MarkBefore(mark, |history|, env), history + [Kept(r)];
    FlushIsMarked(s, mark, history, env.fullFails, env.full);
    var b := Added(Room(s, env), r);
    assert b.batch == longer[before.upTo..];
    FlushIsMarked(b, before, longer, env.lateFails, env.late);
  }

  /** MAIN: for every run the batch is exactly the records handed in since the last flush or the
      opening, ten at most, and the time kept is the time of that. */
  lemma {:induction false} BatchIsSinceLastFlush(start: Timespec, ops: seq<Op>)
    ensures Marked(Run(State(true, [], [], start), ops), LastFlush(start, ops), History(ops))
    decreases |ops|
  {
    if ops != [] {
      var m := |ops| - 1;
      var s, mark, history := Run(State(true, [], [], start), ops[..m]), LastFlush(start, ops[..m]), History(ops[..m]);
      BatchIsSinceLastFlush(start, ops[..m]);
      match ops[m]
      case Flush(fails, clock) =>
        FlushIsMarked(s, mark, history, fails, clock);
        assert history + [] == history;
      case Insert(r, env) =>
        InsertIsMarked(s, mark, history, r, env);
    }
  }

  /** MAIN: an insert leaves its record in the batch if and only if less than 50 computed
      milliseconds have gone by since the last flush before it or the opening. */
  lemma {:induction false} YoungBatchWaits(start: Timespec, ops: seq<Op>, r: Record, env: Env)
    ensures var since := MarkBefore(LastFlush(start, ops), |History(ops)|, env);
            Run(State(true, [], [], start), ops + [Insert(r, env)]).batch != []
            <==> ElapsedMs(env.now, since.at) < 50
  {
    BatchIsSinceLastFlush(start, ops);
    InsertIsMarked(Run(State(true, [], [], start), ops), LastFlush(start, ops), History(ops), r, env);
    assert (ops + [Insert(r, env)])[..|ops|] == ops;
  }

  // ---- the collector's rows ----

  /** The records handed in, uncut. */
  function Inserts(ops: seq<Op>): seq<Record> {
    if ops == [] then []
    else Inserts(ops[..|ops| - 1]) + match ops[|ops| - 1]
                                     case Insert(r, _) => [r]
                                     case Flush(_, _) => []
  }

  /** The record is the row with a time. */
  predicate IsRow(r: Record, row: Row) {
    r.sensor == row.sensor && r.channel == row.channel && r.value == row.value as real
  }

  lemma {:induction false} NothingToCut(ops: seq<Op>)
    requires forall r :: r in Inserts(ops) ==> Kept(r) == r
    ensures History(ops) == Inserts(ops)
    decreases |ops|
  {
    if ops != [] {
      NothingToCut(ops[..|ops| - 1]);
      if ops[|ops| - 1].Insert? {
        assert ops[|ops| - 1].r in Inserts(ops);
      }
    }
  }

  /** No name the collector inserts is cut: its rows reach the table unchanged. */
  lemma {:induction false} CollectorNamesFit(mpuOpen: bool, shtOpen: bool, inps: seq<Input>)
    ensures forall row :: row in Turns(Start(mpuOpen, shtOpen), inps).rows ==>
                            Cut(row.sensor) == row.sensor && Cut(row.channel) == row.channel
  {
    if inps != [] {
      var m := |inps| - 1;
      CollectorNamesFit(mpuOpen, shtOpen, inps[..m]);
      TurnRows(Turns(Start(mpuOpen, shtOpen), inps[..m]), inps[m]);
    }
  }

  lemma TurnRows(c: Status, inp: Input)
    ensures forall row :: row in Turn(c, inp).rows && row !in c.rows ==> |row.sensor| <= 15 && |row.channel| <= 15
  {
    var a := c.(heartbeat := c.heartbeat + 1);
    MpuPartRows(a, inp);
    ShtPartRows(MpuPart(a, inp), inp.sht);
  }

  lemma MpuPartRows(c: Status, inp: Input)
    ensures forall row :: row in MpuPart(c, inp).rows && row !in c.rows ==> |row.sensor| <= 15 && |row.channel| <= 15
  {
  }

  lemma ShtPartRows(c: Status, sht: ShtRead)
    ensures forall row :: row in ShtPart(c, sht).rows && row !in c.rows ==> |row.sensor| <= 15 && |row.channel| <= 15
  {
  }

  /** MAIN, from the collector's loop to the table: when the records inserted are the rows of a
      collector run, in order and with any flushes between, the table after closing holds exactly
      those records, uncut, if and only if no step of any flush failed. */
  lemma {:induction false} CollectorRowsReachTable(mpuOpen: bool, shtOpen: bool, inps: seq<Input>,
                                                   clock: Timespec, ops: seq<Op>, fails: set<nat>, end: Timespec)
    requires |Inserts(ops)| == |Turns(Start(mpuOpen, shtOpen), inps).rows|
    requires forall i :: 0 <= i < |Inserts(ops)| ==>
                           IsRow(Inserts(ops)[i], Turns(Start(mpuOpen, shtOpen), inps).rows[i])
    ensures var s := Run(State(true, [], [], clock), ops);
            Closed(s, fails, end).table == Inserts(ops)
            <==> RunIsClean(State(true, [], [], clock), ops) && FlushIsClean(s, fails)
  {
    var rows := Turns(Start(mpuOpen, shtOpen), inps).rows;
    CollectorNamesFit(mpuOpen, shtOpen, inps);
    forall r | r in Inserts(ops)
      ensures Kept(r) == r
    {
      var i :| 0 <= i < |Inserts(ops)| && Inserts(ops)[i] == r;
      assert rows[i] in rows;
    }
    NothingToCut(ops);
    CloseStoresAllIffClean(clock, ops, fails, end);
  }

  // ---- the clock ----

  /** The computed milliseconds against the true nanoseconds: rounded down when the nanosecond
      fields are in order, up when they are not, and never off by a whole millisecond. */
  lemma ElapsedMeans(now: Timespec, last: Timespec)
    requires Normalised(now) && Normalised(last)
    ensures var d := Nanos(now) - Nanos(last);
            var ms := ElapsedMs(now, last);
            && -1_000_000 < ms * 1_000_000 - d < 1_000_000
            && (now.nsec >= last.nsec ==> ms * 1_000_000 <= d)
            && (now.nsec < last.nsec ==> d <= ms * 1_000_000)
  {
  }

  /** A batch is therefore never flushed by the clock at 49 ms or less, and always at 51 ms. */
  lemma TimeoutWindow(now: Timespec, last: Timespec)
    requires Normalised(now) && Normalised(last)
    ensures ElapsedMs(now, last) >= BATCH_TIMEOUT_MS ==> Nanos(now) - Nanos(last) > 49_000_000
    ensures Nanos(now) - Nanos(last) >= 51_000_000 ==> ElapsedMs(now, last) >= BATCH_TIMEOUT_MS
  {
  }
}

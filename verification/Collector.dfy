/** The collector thread of app/main.c: one object per thread, one call of Iterate per turn of
    its endless loop.  Sensor and device outcomes are inputs. */
module Collector {
  import opened CArith
  import opened Sensor
  import opened Fsm

  // A read returning a negative number, zero, or a positive number of bytes.
  datatype MpuRead = MpuErr | MpuNone | MpuData(points: seq<Point>)
  datatype ShtRead = ShtErr | ShtNone | ShtData(temp: int, hum: int)

  /** For each of /dev/input/event0..3: does it exist and open? */
  type Probe = p: seq<bool> | |p| == 4 witness [false, false, false, false]

  /** What one turn meets: the probe at its start (used when no handle is open), the MPU read,
      the probe after a failure, and the SHT30 read. */
  datatype Input = Input(reopen: Probe, mpu: MpuRead, retry: Probe, sht: ShtRead)

  datatype Regs = Regs(temperature: nat, humidity: nat, accelX: nat, accelY: nat)
  const ZEROS := Regs(0, 0, 0, 0)

  datatype Row = Row(sensor: string, channel: string, value: int)

  datatype Status = Status(
    state: State, mpuOpen: bool, shtOpen: bool,
    mpuFail: nat, noData: nat, shtFail: nat,
    mpuFailCount: nat, i2cRetry: nat, tempRaw: int, humRaw: int,
    ax: int, ay: int, regs: Regs, rows: seq<Row>, published: State, heartbeat: nat)

  function AxisName(c: Channel): string {
    ["AX", "AY", "AZ", "GX", "GY", "GZ"][c]
  }

  function MpuRows(ps: seq<Point>): seq<Row> {
    seq(|ps|, i requires 0 <= i < |ps| => Row("mpu6050", AxisName(ps[i].channel), ps[i].value))
  }

  /** The value of the last point on a channel, or `dflt`. */
  function Latest(ps: seq<Point>, c: Channel, dflt: int): int {
    if ps == [] then dflt
    else if ps[|ps| - 1].channel == c then ps[|ps| - 1].value
    else Latest(ps[..|ps| - 1], c, dflt)
  }

  function FailState(s: State, streak: nat): State {
    if streak >= 3 then Fire(s, MPU_FAIL) else s
  }

  /** One more counted failure. */
  function CountFailure(c: Status, open: bool, noData: nat): Status {
    c.(mpuFail := c.mpuFail + 1, mpuFailCount := c.mpuFailCount + 1, mpuOpen := open, noData := noData,
    state := FailState(c.state, c.mpuFail + 1))
  }

  function HasHandle(c: Status, inp: Input): bool {
    c.mpuOpen || true in inp.reopen
  }

  function MpuPart(c: Status, inp: Input): Status {
    if !HasHandle(c, inp) then CountFailure(c, false, c.noData)
    else
      match inp.mpu
      case MpuErr => CountFailure(c, true in inp.retry, 0)
      case MpuData(ps) =>
        c.(mpuOpen := true, mpuFail := 0, noData := 0,
        state := if c.mpuFail > 0 && c.state == DEGRADED then Fire(c.state, MPU_RESTORED) else c.state,
        rows := c.rows + MpuRows(ps),
        ax := Latest(ps, 0, c.ax), ay := Latest(ps, 1, c.ay))
      case MpuNone =>
        if c.noData + 1 >= 10 then CountFailure(c, true in inp.retry, 0)
        else c.(mpuOpen := true, noData := c.noData + 1)
  }

  function ShtPart(c: Status, sht: ShtRead): Status {
    if !c.shtOpen then c
    else
      match sht
      case ShtErr =>
        c.(shtFail := c.shtFail + 1, i2cRetry := c.i2cRetry + 1,
        state := if c.mpuFail >= 3 && c.shtFail + 1 >= 3 then Fire(c.state, I2C_DEADLOCK) else c.state)
      case ShtData(t, h) =>
        c.(shtFail := 0, tempRaw := t, humRaw := h,
        rows := c.rows + [Row("sht30", "temperature", t), Row("sht30", "humidity", h)],
        regs := Regs(U16(Quot(t, 10)), U16(Quot(h, 10)), U16(c.ax), U16(c.ay)))
      case ShtNone => c
  }

  function Published(c: Status): Status {
    c.(published := c.state)
  }

  function Fed(c: Status): Status {
    c.(heartbeat := c.heartbeat + 1)
  }

  /** One turn of the loop. */
  function Turn(c: Status, inp: Input): Status {
    Fed(Published(ShtPart(MpuPart(Fed(c), inp), inp.sht)))
  }

  function Turns(c: Status, inps: seq<Input>): Status {
    if inps == [] then c else Turn(Turns(c, inps[..|inps| - 1]), inps[|inps| - 1])
  }

  /** The state when the loop is entered: RUNNING, all streaks zero. */
  function Start(mpuOpen: bool, shtOpen: bool): Status {
    Status(RUNNING, mpuOpen, shtOpen, 0, 0, 0, 0, 0, 0, 0, 0, 0, ZEROS, [], RUNNING, 0)
  }

  class Collector {
    const fsm: FsmContext
    var mpuHandle: bool
    var shtHandle: bool
    var mpuFailStreak: nat
    var mpuNoDataStreak: nat
    var shtFailStreak: nat
    var latestAx: int
    var latestAy: int
    var regs: Regs
    var rows: seq<Row>
    var systemState: State
    var heartbeat: nat

    ghost function View(): Status
      reads this, fsm
    {
      Status(fsm.current, mpuHandle, shtHandle, mpuFailStreak, mpuNoDataStreak, shtFailStreak,
             fsm.mpuFailCount, fsm.i2cRetryCount, fsm.tempRaw, fsm.humRaw,
             latestAx, latestAy, regs, rows, systemState, heartbeat)
    }

    /** main: the machine is initialised and told INIT_OK before the thread starts; the two
        flags say what the start-up probes found. */
    constructor (mpuOpen: bool, shtOpen: bool)
      ensures View() == Start(mpuOpen, shtOpen) && fresh(fsm)
    {
      var f := new FsmContext();
      var ret := f.Transition(INIT_OK);
      fsm := f;
      mpuHandle, shtHandle := mpuOpen, shtOpen;
      mpuFailStreak, mpuNoDataStreak, shtFailStreak := 0, 0, 0;
      latestAx, latestAy, regs, rows := 0, 0, ZEROS, [];
      systemState, heartbeat := RUNNING, 0;
    }

    /** Tries the four devices in order until one opens. */
    method TryOpen(p: Probe)
      modifies this`mpuHandle
      ensures mpuHandle == (old(mpuHandle) || true in p)
    {
      var i := 0;
      while i <= 3 && !mpuHandle
        invariant 0 <= i <= 4
        invariant mpuHandle == (old(mpuHandle) || true in p[..i])
      {
        if p[i] {
          mpuHandle := true;
        }
        i := i + 1;
      }
      if i <= 3 && true in p[..i] {
        assert p[..i] <= p;
      }
      assert p[..4] == p;
    }

    method CountedFailure()
      modifies this`mpuFailStreak, fsm`mpuFailCount, fsm`current
      ensures View() == CountFailure(old(View()), mpuHandle, mpuNoDataStreak)
    {
      mpuFailStreak := mpuFailStreak + 1;
      fsm.mpuFailCount := fsm.mpuFailCount + 1;
      if mpuFailStreak >= 3 {
        var ret := fsm.Transition(MPU_FAIL);
      }
    }

    method StoreReadings(ps: seq<Point>)
      modifies this`rows, this`latestAx, this`latestAy
      ensures rows == old(rows) + MpuRows(ps)
      ensures latestAx == Latest(ps, 0, old(latestAx)) && latestAy == Latest(ps, 1, old(latestAy))
    {
      var i := 0;
      while i < |ps|
        invariant 0 <= i <= |ps|
        invariant rows == old(rows) + MpuRows(ps[..i])
        invariant latestAx == Latest(ps[..i], 0, old(latestAx))
        invariant latestAy == Latest(ps[..i], 1, old(latestAy))
      {
        rows := rows + [Row("mpu6050", AxisName(ps[i].channel), ps[i].value)];
        if ps[i].channel == 0 { latestAx := ps[i].value; }
        if ps[i].channel == 1 { latestAy := ps[i].value; }
        assert ps[..i + 1][..i] == ps[..i];
        assert MpuRows(ps[..i + 1]) == MpuRows(ps[..i]) + [Row("mpu6050", AxisName(ps[i].channel), ps[i].value)];
        i := i + 1;
      }
      assert ps[..|ps|] == ps;
    }

    method MpuTurn(inp: Input)
      modifies this, fsm`mpuFailCount, fsm`current
      ensures View() == MpuPart(old(View()), inp)
    {
      if !mpuHandle {
        TryOpen(inp.reopen);
        if !mpuHandle {
          CountedFailure();
          return;
        }
      }
      MpuReadTurn(inp);
    }

    /** The read itself, with a handle open. */
    method MpuReadTurn(inp: Input)
      requires mpuHandle
      modifies this, fsm`mpuFailCount, fsm`current
      ensures View() == MpuPart(old(View()), inp)
    {
      match inp.mpu
      case MpuErr =>
        mpuNoDataStreak := 0;
        mpuHandle := false;
        TryOpen(inp.retry);
        CountedFailure();
      case MpuData(ps) =>
        if mpuFailStreak > 0 {
          var s := fsm.GetState();
          if s == DEGRADED {
            var ret := fsm.Transition(MPU_RESTORED);
          }
        }
        mpuFailStreak := 0;
        mpuNoDataStreak := 0;
        StoreReadings(ps);
      case MpuNone =>
        mpuNoDataStreak := mpuNoDataStreak + 1;
        if mpuNoDataStreak >= 10 {
          mpuNoDataStreak := 0;
          mpuHandle := false;
          TryOpen(inp.retry);
          CountedFailure();
        }
    }

    method ShtTurn(sht: ShtRead)
      modifies this, fsm
      ensures View() == ShtPart(old(View()), sht)
    {
      if !shtHandle {
        return;
      }
      match sht
      case ShtErr =>
        shtFailStreak := shtFailStreak + 1;
        fsm.i2cRetryCount := fsm.i2cRetryCount + 1;
        if mpuFailStreak >= 3 && shtFailStreak >= 3 {
          var ret := fsm.Transition(I2C_DEADLOCK);
        }
      case ShtData(t, h) =>
        shtFailStreak := 0;
        fsm.tempRaw := t;
        fsm.humRaw := h;
        rows := rows + [Row("sht30", "temperature", t), Row("sht30", "humidity", h)];
        regs := Regs(U16(Quot(t, 10)), U16(Quot(h, 10)), U16(latestAx), U16(latestAy));
      case ShtNone =>
    }

    /** modbus_server_start, called by main while this thread already runs, zeroes the registers. */
    method ServerStart()
      modifies this`regs
      ensures View() == old(View()).(regs := ZEROS)
    {
      regs := ZEROS;
    }

    method FeedHeartbeat()
      modifies this`heartbeat
      ensures View() == Fed(old(View()))
    {
      heartbeat := heartbeat + 1;
    }

    method PublishState()
      modifies this`systemState
      ensures View() == Published(old(View()))
    {
      systemState := fsm.GetState();
    }

    method Iterate(inp: Input)
      modifies this, fsm
      ensures View() == Turn(old(View()), inp)
    {
      FeedHeartbeat();
      MpuTurn(inp);
      ShtTurn(inp.sht);
      PublishState();
      FeedHeartbeat();
    }
  }

  // ---- the state as a function of the history ----

  /** Turn `n` of the run is one whose SHT30 read failed and which ended with both streaks at
      three or more. */
  ghost predicate DeadlockTurn(c: Status, inps: seq<Input>, n: nat)
    requires n < |inps|
  {
    var d := Turns(c, inps[..n + 1]);
    inps[n].sht.ShtErr? && c.shtOpen && d.mpuFail >= 3 && d.shtFail >= 3
  }

  ghost predicate SomeDeadlockTurn(c: Status, inps: seq<Input>) {
    exists n: nat :: n < |inps| && DeadlockTurn(c, inps, n)
  }

  lemma DeadlockTurnSnoc(c: Status, inps: seq<Input>)
    requires inps != []
    ensures var m := |inps| - 1;
            SomeDeadlockTurn(c, inps) <==> SomeDeadlockTurn(c, inps[..m]) || DeadlockTurn(c, inps, m)
  {
    var m := |inps| - 1;
    forall n: nat | n < m
      ensures DeadlockTurn(c, inps, n) == DeadlockTurn(c, inps[..m], n)
    {
      assert inps[..m][..n + 1] == inps[..n + 1];
    }
    if SomeDeadlockTurn(c, inps[..m]) {
      var n: nat :| n < m && DeadlockTurn(c, inps[..m], n);
      assert DeadlockTurn(c, inps, n);
    }
    if SomeDeadlockTurn(c, inps) {
      var n: nat :| n < |inps| && DeadlockTurn(c, inps, n);
      assert n < m ==> DeadlockTurn(c, inps[..m], n);
    }
  }

  /** What the streaks say the state is, `dead` telling whether a deadlock turn has happened. */
  ghost predicate Says(c: Status, dead: bool) {
    c.state == if dead then RECOVERING else if c.mpuFail >= 3 then DEGRADED else RUNNING
  }

  lemma MpuPartSays(c: Status, inp: Input, dead: bool)
    requires Says(c, dead)
    ensures Says(MpuPart(c, inp), dead) && MpuPart(c, inp).shtOpen == c.shtOpen
  {
  }

  lemma ShtPartSays(c: Status, sht: ShtRead, dead: bool)
    requires Says(c, dead)
    ensures var d := ShtPart(c, sht);
            && Says(d, dead || (sht.ShtErr? && c.shtOpen && d.mpuFail >= 3 && d.shtFail >= 3))
            && d.shtOpen == c.shtOpen
  {
  }

  lemma TurnSays(c: Status, inp: Input, dead: bool)
    requires Says(c, dead)
    ensures var d := Turn(c, inp);
            && Says(d, dead || (inp.sht.ShtErr? && c.shtOpen && d.mpuFail >= 3 && d.shtFail >= 3))
            && d.shtOpen == c.shtOpen && d.published == d.state
  {
    MpuPartSays(Fed(c), inp, dead);
    ShtPartSays(MpuPart(Fed(c), inp), inp.sht, dead);
  }

  /** MAIN: for every run, the state is what the streak history says. */
  lemma {:induction false} StateFromHistory(mpuOpen: bool, shtOpen: bool, inps: seq<Input>)
    ensures var c := Start(mpuOpen, shtOpen);
            var d := Turns(c, inps);
            && d.shtOpen == shtOpen
            && d.published == d.state
            && Says(d, SomeDeadlockTurn(c, inps))
  {
    var c := Start(mpuOpen, shtOpen);
    if inps != [] {
      var m := |inps| - 1;
      StateFromHistory(mpuOpen, shtOpen, inps[..m]);
      TurnSays(Turns(c, inps[..m]), inps[m], SomeDeadlockTurn(c, inps[..m]));
      DeadlockTurnSnoc(c, inps);
      assert inps[..m + 1] == inps;
    }
  }

  ghost predicate BothOffline(c: Status, inps: seq<Input>, n: nat)
    requires n < |inps|
  {
    var d := Turns(c, inps[..n + 1]);
    d.mpuFail >= 3 && d.shtFail >= 3
  }

  /** The SHT30 HAL never returns 0 bytes; then the machine is RECOVERING exactly when some turn
      ended with both streaks at three or more. */
  lemma {:induction false} RecoveringIffBothOffline(mpuOpen: bool, shtOpen: bool, inps: seq<Input>)
    requires forall i :: 0 <= i < |inps| ==> !inps[i].sht.ShtNone?
    ensures Turns(Start(mpuOpen, shtOpen), inps).state == RECOVERING
       <==> exists n: nat :: n < |inps| && BothOffline(Start(mpuOpen, shtOpen), inps, n)
  {
    var c := Start(mpuOpen, shtOpen);
    StateFromHistory(mpuOpen, shtOpen, inps);
    forall n: nat | n < |inps|
      ensures BothOffline(c, inps, n) == DeadlockTurn(c, inps, n)
    {
      assert inps[..n + 1][..n] == inps[..n];
      ShtStreakNeedsHandle(mpuOpen, shtOpen, inps[..n]);
      ShtStreakAfter(Turns(c, inps[..n]), inps[n]);
    }
    if SomeDeadlockTurn(c, inps) {
      var n: nat :| n < |inps| && DeadlockTurn(c, inps, n);
      assert BothOffline(c, inps, n);
    }
  }

  lemma ShtStreakAfter(c: Status, inp: Input)
    ensures var d := Turn(c, inp);
            && d.shtOpen == c.shtOpen
            && d.shtFail == if !c.shtOpen || inp.sht.ShtNone? then c.shtFail
                            else if inp.sht.ShtErr? then c.shtFail + 1 else 0
  {
  }

  lemma {:induction false} ShtStreakNeedsHandle(mpuOpen: bool, shtOpen: bool, inps: seq<Input>)
    ensures var d := Turns(Start(mpuOpen, shtOpen), inps);
            d.shtOpen == shtOpen && (!shtOpen ==> d.shtFail == 0)
  {
    if inps != [] {
      var m := |inps| - 1;
      ShtStreakNeedsHandle(mpuOpen, shtOpen, inps[..m]);
      ShtStreakAfter(Turns(Start(mpuOpen, shtOpen), inps[..m]), inps[m]);
    }
  }

  /** A turn never leaves RECOVERING, and enters it only by way of DEGRADED, in its SHT30 part. */
  ghost predicate EntersFromDegraded(c: Status, inp: Input) {
    && (c.state == RECOVERING ==> Turn(c, inp).state == RECOVERING)
    && (c.state != RECOVERING && Turn(c, inp).state == RECOVERING ==>
          MpuPart(Fed(c), inp).state == DEGRADED)
  }

  lemma TurnEntersRecovering(c: Status, inp: Input, dead: bool)
    requires Says(c, dead)
    ensures EntersFromDegraded(c, inp)
  {
  }

  /** RECOVERING is never left, and is entered only from DEGRADED, in every turn of every run. */
  lemma {:induction false} RecoveringIsEnteredFromDegraded(mpuOpen: bool, shtOpen: bool, inps: seq<Input>, inp: Input)
    ensures EntersFromDegraded(Turns(Start(mpuOpen, shtOpen), inps), inp)
  {
    StateFromHistory(mpuOpen, shtOpen, inps);
    TurnEntersRecovering(Turns(Start(mpuOpen, shtOpen), inps), inp, SomeDeadlockTurn(Start(mpuOpen, shtOpen), inps));
  }

  // ---- how long silence takes to be noticed ----

  /** A turn that gets data from the MPU6050. */
  predicate Success(c: Status, inp: Input) {
    HasHandle(c, inp) && inp.mpu.MpuData?
  }

  /** How many turns at the end of the run went by without success. */
  function Silence(c: Status, inps: seq<Input>): nat {
    if inps == [] then 0
    else
      var m := |inps| - 1;
      if Success(Turns(c, inps[..m]), inps[m]) then 0 else Silence(c, inps[..m]) + 1
  }

  function Measure(c: Status): nat {
    10 * c.mpuFail + c.noData
  }

  lemma TurnMeasure(c: Status, inp: Input)
    requires c.noData < 10
    ensures var d := Turn(c, inp);
            && d.noData < 10
            && (Success(c, inp) ==> Measure(d) == 0)
            && (!Success(c, inp) ==> Measure(c) + 1 <= Measure(d) <= Measure(c) + 10)
            && d.mpuFailCount == c.mpuFailCount + (if d.mpuFail > c.mpuFail then 1 else 0)
  {
  }

  /** MAIN: the measure counts silent turns, at least one and at most ten for each. */
  lemma {:induction false} MeasureTracksSilence(mpuOpen: bool, shtOpen: bool, inps: seq<Input>)
    ensures var c := Start(mpuOpen, shtOpen);
            var d := Turns(c, inps);
            && d.noData < 10
            && Silence(c, inps) <= Measure(d) <= 10 * Silence(c, inps)
  {
    if inps != [] {
      var m := |inps| - 1;
      MeasureTracksSilence(mpuOpen, shtOpen, inps[..m]);
      TurnMeasure(Turns(Start(mpuOpen, shtOpen), inps[..m]), inps[m]);
    }
  }

  /** MAIN: thirty silent turns are always noticed, and DEGRADED never comes before three. */
  lemma {:induction false} SilenceIsNoticed(mpuOpen: bool, shtOpen: bool, inps: seq<Input>)
    ensures var c := Start(mpuOpen, shtOpen);
            var d := Turns(c, inps);
            && (Silence(c, inps) >= 30 ==> d.state == DEGRADED || d.state == RECOVERING)
            && (d.state == DEGRADED ==> Silence(c, inps) >= 3)
  {
    StateFromHistory(mpuOpen, shtOpen, inps);
    MeasureTracksSilence(mpuOpen, shtOpen, inps);
  }

  function Repeat(inp: Input, n: nat): (r: seq<Input>)
    ensures |r| == n
  {
    if n == 0 then [] else Repeat(inp, n - 1) + [inp]
  }

  /** Thirty is exact: while every MPU6050 read is empty and its device keeps reopening, the
      machine is still RUNNING after n turns if and only if n < 30. */
  lemma {:induction false} EmptyReadsTakeThirty(inp: Input, shtOpen: bool, n: nat)
    requires true in inp.reopen && inp.mpu.MpuNone?
    ensures var d := Turns(Start(true, shtOpen), Repeat(inp, n));
            && Measure(d) == n && d.noData < 10
            && (d.state == RUNNING <==> n < 30)
  {
    if n > 0 {
      var e := Turns(Start(true, shtOpen), Repeat(inp, n - 1));
      EmptyReadsTakeThirty(inp, shtOpen, n - 1);
      assert Repeat(inp, n)[..n - 1] == Repeat(inp, n - 1);
      EmptyTurn(e, inp);
      var dead := SomeDeadlockTurn(Start(true, shtOpen), Repeat(inp, n - 1));
      StateFromHistory(true, shtOpen, Repeat(inp, n - 1));
      TurnSays(e, inp, dead);
    }
  }

  lemma EmptyTurn(c: Status, inp: Input)
    requires true in inp.reopen && inp.mpu.MpuNone? && c.noData < 10
    ensures Measure(Turn(c, inp)) == Measure(c) + 1 && Turn(c, inp).noData < 10
  {
  }

  // ---- what the Modbus registers show ----

  /** All MPU6050 points delivered by a run, oldest first. */
  function Delivered(c: Status, inps: seq<Input>): seq<Point> {
    if inps == [] then []
    else
      var m := |inps| - 1;
      Delivered(c, inps[..m]) + if Success(Turns(c, inps[..m]), inps[m]) then inps[m].mpu.points else []
  }

  lemma {:induction false} LatestConcat(a: seq<Point>, b: seq<Point>, c: Channel, d: int)
    ensures Latest(a + b, c, d) == Latest(b, c, Latest(a, c, d))
    decreases |b|
  {
    if b == [] {
      assert a + b == a;
    } else {
      LatestConcat(a, b[..|b| - 1], c, d);
      assert (a + b)[..|a + b| - 1] == a + b[..|b| - 1];
    }
  }

  lemma TurnRegisters(c: Status, inp: Input)
    ensures var d := Turn(c, inp);
            var ps := if Success(c, inp) then inp.mpu.points else [];
            && d.shtOpen == c.shtOpen
            && d.ax == Latest(ps, 0, c.ax) && d.ay == Latest(ps, 1, c.ay)
            && d.regs == (if c.shtOpen && inp.sht.ShtData?
                          then Regs(U16(Quot(inp.sht.temp, 10)), U16(Quot(inp.sht.hum, 10)), U16(d.ax), U16(d.ay))
                          else c.regs)
  {
  }

  lemma {:induction false} LatestIsKept(mpuOpen: bool, shtOpen: bool, inps: seq<Input>)
    ensures var c := Start(mpuOpen, shtOpen);
            var d := Turns(c, inps);
            && d.shtOpen == shtOpen
            && d.ax == Latest(Delivered(c, inps), 0, 0) && d.ay == Latest(Delivered(c, inps), 1, 0)
  {
    var c := Start(mpuOpen, shtOpen);
    if inps != [] {
      var m := |inps| - 1;
      LatestIsKept(mpuOpen, shtOpen, inps[..m]);
      TurnRegisters(Turns(c, inps[..m]), inps[m]);
      var before := Delivered(c, inps[..m]);
      var ps := if Success(Turns(c, inps[..m]), inps[m]) then inps[m].mpu.points else [];
      LatestConcat(before, ps, 0, 0);
      LatestConcat(before, ps, 1, 0);
    }
  }

  /** A turn together with what the server start does to the registers during it: which ones it
      zeroes before the turn stores them, and which after (either, if it stores none). */
  datatype Beat = Beat(inp: Input, before: Wipe, after: Wipe)
  type Wipe = w: seq<bool> | |w| == 4 witness [false, false, false, false]

  const NOTHING: Wipe := [false, false, false, false]
  const ALL: Wipe := [true, true, true, true]

  function Register(r: Regs, i: nat): nat
    requires i < 4
  {
    [r.temperature, r.humidity, r.accelX, r.accelY][i]
  }

  /** A turn that stores the registers. */
  predicate Updates(c: Status, inp: Input) {
    c.shtOpen && inp.sht.ShtData?
  }

  function Wiped(r: Regs, w: Wipe): (s: Regs)
    ensures forall i :: 0 <= i < 4 ==> Register(s, i) == if w[i] then 0 else Register(r, i)
  {
    Regs(if w[0] then 0 else r.temperature, if w[1] then 0 else r.humidity,
         if w[2] then 0 else r.accelX, if w[3] then 0 else r.accelY)
  }

  function Beaten(c: Status, b: Beat): Status {
    var d := Turn(c, b.inp);
    d.(regs := Wiped(if Updates(c, b.inp) then d.regs else Wiped(d.regs, b.before), b.after))
  }

  function Beats(c: Status, bs: seq<Beat>): Status {
    if bs == [] then c else Beaten(Beats(c, bs[..|bs| - 1]), bs[|bs| - 1])
  }

  function Inputs(bs: seq<Beat>): seq<Input> {
    seq(|bs|, i requires 0 <= i < |bs| => bs[i].inp)
  }

  lemma InputsSnoc(bs: seq<Beat>)
    requires bs != []
    ensures var m := |bs| - 1;
            Inputs(bs) == Inputs(bs[..m]) + [bs[m].inp] && Inputs(bs)[..m] == Inputs(bs[..m])
  {
  }

  lemma MpuPartWithRegisters(c: Status, r: Regs, inp: Input)
    ensures MpuPart(c.(regs := r), inp) == MpuPart(c, inp).(regs := r)
    ensures MpuPart(c, inp).regs == c.regs && MpuPart(c, inp).shtOpen == c.shtOpen
  {
  }

  lemma ShtPartWithRegisters(c: Status, r: Regs, sht: ShtRead)
    ensures var d := ShtPart(c, sht);
            ShtPart(c.(regs := r), sht) == d.(regs := if c.shtOpen && sht.ShtData? then d.regs else r)
  {
  }

  lemma {:induction false} TurnWithRegisters(c: Status, r: Regs, inp: Input)
    ensures Turn(c.(regs := r), inp) == Turn(c, inp).(regs := if Updates(c, inp) then Turn(c, inp).regs else r)
  {
    MpuPartWithRegisters(Fed(c), r, inp);
    ShtPartWithRegisters(MpuPart(Fed(c), inp), r, inp.sht);
    assert Fed(c.(regs := r)) == Fed(c).(regs := r);
  }

  /** The server start touches the registers only: everything else is as in the run without it. */
  lemma {:induction false} StartTouchesRegistersOnly(c: Status, bs: seq<Beat>)
    ensures Beats(c, bs) == Turns(c, Inputs(bs)).(regs := Beats(c, bs).regs)
  {
    if bs != [] {
      var m := |bs| - 1;
      StartTouchesRegistersOnly(c, bs[..m]);
      InputsSnoc(bs);
      TurnWithRegisters(Turns(c, Inputs(bs[..m])), Beats(c, bs[..m]).regs, bs[m].inp);
    }
  }

  /** One past the last good SHT30 reading, or 0. */
  function LastGood(shtOpen: bool, bs: seq<Beat>): (n: nat)
    ensures n <= |bs| && (n > 0 ==> shtOpen && bs[n - 1].inp.sht.ShtData?)
  {
    if bs == [] then 0
    else if shtOpen && bs[|bs| - 1].inp.sht.ShtData? then |bs|
    else LastGood(shtOpen, bs[..|bs| - 1])
  }

  /** One past the last turn during which register `i` was zeroed, or 0. */
  function LastReset(bs: seq<Beat>, i: nat): (m: nat)
    requires i < 4
    ensures m <= |bs|
  {
    if bs == [] then 0
    else if bs[|bs| - 1].before[i] || bs[|bs| - 1].after[i] then |bs|
    else LastReset(bs[..|bs| - 1], i)
  }

  /** What the turn number n - 1 stores: its reading, and the newest X and Y accelerations
      delivered by then. */
  function Reading(mpuOpen: bool, bs: seq<Beat>, n: nat): Regs
    requires 0 < n <= |bs| && bs[n - 1].inp.sht.ShtData?
  {
    var ps := Delivered(Start(mpuOpen, true), Inputs(bs[..n]));
    Regs(U16(Quot(bs[n - 1].inp.sht.temp, 10)), U16(Quot(bs[n - 1].inp.sht.hum, 10)),
         U16(Latest(ps, 0, 0)), U16(Latest(ps, 1, 0)))
  }

  /** The last good reading reached register `i` after it was last zeroed. */
  predicate StoredSince(shtOpen: bool, bs: seq<Beat>, i: nat)
    requires i < 4
  {
    var n, m := LastGood(shtOpen, bs), LastReset(bs, i);
    n > m || (n == m > 0 && !bs[m - 1].after[i])
  }

  lemma {:induction false} GoodBeat(mpuOpen: bool, bs: seq<Beat>)
    requires bs != [] && bs[|bs| - 1].inp.sht.ShtData?
    ensures var b := bs[|bs| - 1];
            var r := Reading(mpuOpen, bs, |bs|);
            Beats(Start(mpuOpen, true), bs).regs == Wiped(r, b.after)
  {
    var c, m := Start(mpuOpen, true), |bs| - 1;
    StartTouchesRegistersOnly(c, bs[..m]);
    InputsSnoc(bs);
    LatestIsKept(mpuOpen, true, Inputs(bs[..m]));
    LatestIsKept(mpuOpen, true, Inputs(bs));
    TurnRegisters(Turns(c, Inputs(bs[..m])), bs[m].inp);
    TurnWithRegisters(Turns(c, Inputs(bs[..m])), Beats(c, bs[..m]).regs, bs[m].inp);
    assert bs[..|bs|] == bs;
  }

  lemma {:induction false} OtherBeat(mpuOpen: bool, shtOpen: bool, bs: seq<Beat>)
    requires bs != [] && !(shtOpen && bs[|bs| - 1].inp.sht.ShtData?)
    ensures var m := |bs| - 1;
            Beats(Start(mpuOpen, shtOpen), bs).regs
            == Wiped(Wiped(Beats(Start(mpuOpen, shtOpen), bs[..m]).regs, bs[m].before), bs[m].after)
  {
    var c, m := Start(mpuOpen, shtOpen), |bs| - 1;
    StartTouchesRegistersOnly(c, bs[..m]);
    LatestIsKept(mpuOpen, shtOpen, Inputs(bs[..m]));
    TurnRegisters(Turns(c, Inputs(bs[..m])), bs[m].inp);
    TurnWithRegisters(Turns(c, Inputs(bs[..m])), Beats(c, bs[..m]).regs, bs[m].inp);
  }

  /** What register `i` ought to show after a run. */
  function Shown(mpuOpen: bool, shtOpen: bool, bs: seq<Beat>, i: nat): nat
    requires i < 4
  {
    if StoredSince(shtOpen, bs, i) then Register(Reading(mpuOpen, bs, LastGood(shtOpen, bs)), i) else 0
  }

  lemma {:induction false} ReadingStays(mpuOpen: bool, bs: seq<Beat>, n: nat)
    requires bs != [] && 0 < n < |bs| && bs[n - 1].inp.sht.ShtData?
    ensures Reading(mpuOpen, bs, n) == Reading(mpuOpen, bs[..|bs| - 1], n)
  {
    assert bs[..|bs| - 1][..n] == bs[..n];
  }

  lemma {:induction false} OtherBeatShows(mpuOpen: bool, shtOpen: bool, bs: seq<Beat>, i: nat)
    requires bs != [] && !(shtOpen && bs[|bs| - 1].inp.sht.ShtData?) && i < 4
    ensures var m := |bs| - 1;
            Shown(mpuOpen, shtOpen, bs, i)
            == if bs[m].before[i] || bs[m].after[i] then 0 else Shown(mpuOpen, shtOpen, bs[..m], i)
  {
    var m, n := |bs| - 1, LastGood(shtOpen, bs);
    assert LastGood(shtOpen, bs[..m]) == n;
    if n > 0 {
      ReadingStays(mpuOpen, bs, n);
    }
    if !bs[m].before[i] && !bs[m].after[i] {
      assert LastReset(bs, i) == LastReset(bs[..m], i);
    }
  }

  lemma {:induction false} GoodBeatShows(mpuOpen: bool, bs: seq<Beat>, i: nat)
    requires bs != [] && bs[|bs| - 1].inp.sht.ShtData? && i < 4
    ensures Register(Beats(Start(mpuOpen, true), bs).regs, i) == Shown(mpuOpen, true, bs, i)
  {
    GoodBeat(mpuOpen, bs);
    assert LastGood(true, bs) == |bs|;
  }

  /** MAIN: whenever the server start zeroes which register, each one shows the last good SHT30
      reading (or the newest acceleration delivered by then) if that was stored after its zeroing
      or there has been none, and 0 otherwise. */
  lemma {:induction false} RegistersShowLatest(mpuOpen: bool, shtOpen: bool, bs: seq<Beat>, i: nat)
    requires i < 4
    ensures Register(Beats(Start(mpuOpen, shtOpen), bs).regs, i) == Shown(mpuOpen, shtOpen, bs, i)
    decreases |bs|
  {
    if bs != [] {
      var m := |bs| - 1;
      if shtOpen && bs[m].inp.sht.ShtData? {
        GoodBeatShows(mpuOpen, bs, i);
      } else {
        RegistersShowLatest(mpuOpen, shtOpen, bs[..m], i);
        OtherBeat(mpuOpen, shtOpen, bs);
        OtherBeatShows(mpuOpen, shtOpen, bs, i);
      }
    }
  }

  /** The last good reading is on show exactly when every register that is not 0 in it has been
      stored since it was last zeroed. */
  lemma ReadingIsShownIff(mpuOpen: bool, shtOpen: bool, bs: seq<Beat>)
    requires LastGood(shtOpen, bs) > 0
    ensures var r := Reading(mpuOpen, bs, LastGood(shtOpen, bs));
            Beats(Start(mpuOpen, shtOpen), bs).regs == r
            <==> forall i :: 0 <= i < 4 ==> StoredSince(shtOpen, bs, i) || Register(r, i) == 0
  {
    var r, s := Reading(mpuOpen, bs, LastGood(shtOpen, bs)), Beats(Start(mpuOpen, shtOpen), bs).regs;
    forall i: nat | i < 4
      ensures Register(s, i) == Shown(mpuOpen, shtOpen, bs, i)
    {
      RegistersShowLatest(mpuOpen, shtOpen, bs, i);
    }
    SameRegisters(s, r);
  }

  lemma SameRegisters(r: Regs, s: Regs)
    ensures r == s <==> forall i: nat :: i < 4 ==> Register(r, i) == Register(s, i)
  {
    assert Register(r, 0) == r.temperature && Register(r, 1) == r.humidity;
    assert Register(r, 2) == r.accelX && Register(r, 3) == r.accelY;
  }

  /** One good turn, then only failing ones, the server starting in the first of them. */
  function OneGoodTurn(good: Input, failing: Input, n: nat): (bs: seq<Beat>)
    ensures |bs| == n + 2 && bs[0] == Beat(good, NOTHING, NOTHING)
    ensures bs[|bs| - 1] == Beat(failing, if n == 0 then ALL else NOTHING, NOTHING)
  {
    if n == 0 then [Beat(good, NOTHING, NOTHING), Beat(failing, ALL, NOTHING)]
    else OneGoodTurn(good, failing, n - 1) + [Beat(failing, NOTHING, NOTHING)]
  }

  /** A start that comes after the only good reading hides it for as long as the sensor fails. */
  lemma {:induction false} StartHidesReading(mpuOpen: bool, good: Input, failing: Input, n: nat)
    requires good.sht.ShtData? && failing.sht.ShtErr? && U16(Quot(good.sht.temp, 10)) != 0
    ensures var bs := OneGoodTurn(good, failing, n);
            && LastGood(true, bs) == 1
            && Reading(mpuOpen, bs, 1) != ZEROS
            && Beats(Start(mpuOpen, true), bs).regs == ZEROS
  {
    var bs := OneGoodTurn(good, failing, n);
    OtherBeat(mpuOpen, true, bs);
    if n > 0 {
      StartHidesReading(mpuOpen, good, failing, n - 1);
      assert bs[..|bs| - 1] == OneGoodTurn(good, failing, n - 1);
    } else {
      assert bs[..1] == [Beat(good, NOTHING, NOTHING)];
    }
  }

  /** A client reading the temperature register as int16 sees hundredths of a degree truncated
      toward zero, exactly when that fits; an acceleration register restores the sensor's word. */
  lemma RegistersDecode(temp: int, word: nat)
    requires word < 0x1_0000
    ensures S16(U16(Quot(temp, 10))) == Quot(temp, 10) <==> -327690 < temp < 327680
    ensures U16(S16(word)) == word
  {
  }

  // ---- start-up ----

  /** One /dev/input/eventN at start-up: does it open, and what do its warm-up reads return? */
  datatype Device = Device(opens: bool, warmup: seq<int>)

  predicate Warm(d: Device) {
    d.opens && exists w :: 0 <= w < |d.warmup| && w < 50 && d.warmup[w] > 0
  }

  /** The start-up probe keeps the first device that opens and delivers data within fifty
      reads. */
  method WarmUp(devs: seq<Device>) returns (chosen: int)
    requires |devs| == 4 && forall d :: d in devs ==> |d.warmup| >= 50
    ensures -1 <= chosen < 4
    ensures chosen >= 0 ==> Warm(devs[chosen])
    ensures forall i :: 0 <= i < (if chosen < 0 then 4 else chosen) ==> !Warm(devs[i])
  {
    var i := 0;
    while i <= 3
      invariant 0 <= i <= 4
      invariant forall j :: 0 <= j < i ==> !Warm(devs[j])
    {
      if devs[i].opens {
        var w := 0;
        while w < 50
          invariant 0 <= w <= 50
          invariant forall v :: 0 <= v < w ==> devs[i].warmup[v] <= 0
        {
          if devs[i].warmup[w] > 0 {
            return i;
          }
          w := w + 1;
        }
      }
      i := i + 1;
    }
    return -1;
  }
}

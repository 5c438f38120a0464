/** What the collector of app/main.c leaves behind, told from what its turns met: rows, handle,
    streaks, counters and the last values. */
module CollectorHistory {
  import opened Options
  import opened Sensor
  import opened Collector

  // ---- what a turn meets ----

  /** The MPU6050's part of a turn: no device to be had, a failed read, an empty one, or data. */
  datatype Met = Gone | Failed | Empty | Data

  function MetBy(open: bool, inp: Input): Met {
    if !open && inp.reopen == [false, false, false, false] then Gone
    else
      match inp.mpu
      case MpuErr => Failed
      case MpuNone => Empty
      case MpuData(_) => Data
  }

  /** Is a device open after these turns?  After data or an empty read, yes; after a failure or a
      tenth empty read, if the probe that follows opens one; and not while none can be had. */
  function Handle(mpuOpen: bool, inps: seq<Input>): bool
    decreases |inps|, 0
  {
    if inps == [] then mpuOpen
    else
      var last := inps[|inps| - 1];
      match LastMet(mpuOpen, inps)
      case Gone => false
      case Data => true
      case Failed => last.retry != [false, false, false, false]
      case Empty => Empties(mpuOpen, inps) % 10 != 0 || last.retry != [false, false, false, false]
  }

  function LastMet(mpuOpen: bool, inps: seq<Input>): Met
    requires inps != []
    decreases |inps| - 1, 2
  {
    MetBy(Handle(mpuOpen, inps[..|inps| - 1]), inps[|inps| - 1])
  }

  /** Empty reads since the last failed or good one; turns without a device do not matter. */
  function Empties(mpuOpen: bool, inps: seq<Input>): nat
    decreases |inps| - 1, 3
  {
    if inps == [] then 0
    else
      match LastMet(mpuOpen, inps)
      case Gone => Empties(mpuOpen, inps[..|inps| - 1])
      case Empty => Empties(mpuOpen, inps[..|inps| - 1]) + 1
      case _ => 0
  }

  /** A turn that counts as a failure: no device, a failed read, or every tenth empty one. */
  predicate Counted(mpuOpen: bool, inps: seq<Input>)
    requires inps != []
  {
    match LastMet(mpuOpen, inps)
    case Gone => true
    case Failed => true
    case Empty => Empties(mpuOpen, inps) % 10 == 0
    case Data => false
  }

  function Failures(mpuOpen: bool, inps: seq<Input>): nat {
    if inps == [] then 0
    else Failures(mpuOpen, inps[..|inps| - 1]) + if Counted(mpuOpen, inps) then 1 else 0
  }

  /** Failures since the last data. */
  function FailuresInARow(mpuOpen: bool, inps: seq<Input>): nat {
    if inps == [] then 0
    else if LastMet(mpuOpen, inps).Data? then 0
    else FailuresInARow(mpuOpen, inps[..|inps| - 1]) + if Counted(mpuOpen, inps) then 1 else 0
  }

  lemma NoProbe(p: Probe)
    ensures p == [false, false, false, false] <==> true !in p
  {
    assert true !in p ==> !p[0] && !p[1] && !p[2] && !p[3];
  }

  /** A turn from `c` to `d`, by what its MPU6050 part met. */
  ghost predicate Moves(c: Status, d: Status, inp: Input) {
    match MetBy(c.mpuOpen, inp)
    case Gone => !d.mpuOpen && d.noData == c.noData
                 && d.mpuFail == c.mpuFail + 1 && d.mpuFailCount == c.mpuFailCount + 1
    case Data => d.mpuOpen && d.noData == 0 && d.mpuFail == 0 && d.mpuFailCount == c.mpuFailCount
    case Failed => d.mpuOpen == (true in inp.retry) && d.noData == 0
                   && d.mpuFail == c.mpuFail + 1 && d.mpuFailCount == c.mpuFailCount + 1
    case Empty =>
      var tenth := c.noData + 1 >= 10;
      && d.mpuOpen == (!tenth || true in inp.retry) && d.noData == (if tenth then 0 else c.noData + 1)
      && d.mpuFail == c.mpuFail + (if tenth then 1 else 0)
      && d.mpuFailCount == c.mpuFailCount + (if tenth then 1 else 0)
  }

  lemma {:induction false} TurnMoves(c: Status, inp: Input)
    ensures Moves(c, Turn(c, inp), inp)
  {
    NoProbe(inp.reopen);
  }

  /** What the reads of a run say about handle, empty reads, and failures in a row and in all. */
  datatype Past = Past(open: bool, empties: nat, inARow: nat, inAll: nat)

  function PastOf(mpuOpen: bool, inps: seq<Input>): Past {
    Past(Handle(mpuOpen, inps), Empties(mpuOpen, inps), FailuresInARow(mpuOpen, inps), Failures(mpuOpen, inps))
  }

  ghost predicate MpuIs(c: Status, p: Past) {
    && c.mpuOpen == p.open && c.noData == p.empties % 10
    && c.mpuFail == p.inARow && c.mpuFailCount == p.inAll
  }

  /** The same, one turn longer. */
  ghost predicate PastMoves(p: Past, q: Past, inp: Input) {
    match MetBy(p.open, inp)
    case Gone => q == Past(false, p.empties, p.inARow + 1, p.inAll + 1)
    case Data => q == Past(true, 0, 0, p.inAll)
    case Failed => q == Past(true in inp.retry, 0, p.inARow + 1, p.inAll + 1)
    case Empty =>
      if (p.empties + 1) % 10 == 0 then q == Past(true in inp.retry, p.empties + 1, p.inARow + 1, p.inAll + 1)
      else q == Past(true, p.empties + 1, p.inARow, p.inAll)
  }

  lemma {:induction false} PastStep(mpuOpen: bool, inps: seq<Input>)
    requires inps != []
    ensures var m := |inps| - 1;
            PastMoves(PastOf(mpuOpen, inps[..m]), PastOf(mpuOpen, inps), inps[m])
  {
    NoProbe(inps[|inps| - 1].retry);
  }

  lemma {:induction false} MovesAgree(c: Status, d: Status, p: Past, q: Past, inp: Input)
    requires MpuIs(c, p) && Moves(c, d, inp) && PastMoves(p, q, inp)
    ensures MpuIs(d, q)
  {
  }

  /** MAIN: for every run, handle, streaks and failure counter are what the reads say. */
  lemma {:induction false} MpuHistory(mpuOpen: bool, shtOpen: bool, inps: seq<Input>)
    ensures MpuIs(Turns(Start(mpuOpen, shtOpen), inps), PastOf(mpuOpen, inps))
  {
    if inps != [] {
      var m := |inps| - 1;
      var c := Turns(Start(mpuOpen, shtOpen), inps[..m]);
      MpuHistory(mpuOpen, shtOpen, inps[..m]);
      TurnMoves(c, inps[m]);
      PastStep(mpuOpen, inps);
      MovesAgree(c, Turn(c, inps[m]), PastOf(mpuOpen, inps[..m]), PastOf(mpuOpen, inps), inps[m]);
    }
  }

  // ---- rows ----

  /** The row of one point: its channel by name, 0 to 2 the acceleration and 3 to 5 the rotation. */
  function PointRow(p: Point): Row {
    var name := if p.channel == 0 then "AX" else if p.channel == 1 then "AY" else if p.channel == 2 then "AZ"
                else if p.channel == 3 then "GX" else if p.channel == 4 then "GY" else "GZ";
    Row("mpu6050", name, p.value)
  }

  function PointRows(ps: seq<Point>): seq<Row> {
    if ps == [] then [] else PointRows(ps[..|ps| - 1]) + [PointRow(ps[|ps| - 1])]
  }

  /** The points a turn gets. */
  function Points(mpuOpen: bool, inps: seq<Input>): seq<Point>
    requires inps != []
  {
    if LastMet(mpuOpen, inps).Data? then inps[|inps| - 1].mpu.points else []
  }

  /** The good SHT30 reading of a turn, if there is one. */
  function ShtRows(shtOpen: bool, inp: Input): seq<Row> {
    if shtOpen && inp.sht.ShtData?
    then [Row("sht30", "temperature", inp.sht.temp), Row("sht30", "humidity", inp.sht.hum)]
    else []
  }

  /** Turn by turn: the points in order, then the reading. */
  function RowsOf(mpuOpen: bool, shtOpen: bool, inps: seq<Input>): seq<Row> {
    if inps == [] then []
    else
      RowsOf(mpuOpen, shtOpen, inps[..|inps| - 1])
      + PointRows(Points(mpuOpen, inps)) + ShtRows(shtOpen, inps[|inps| - 1])
  }

  lemma AxisNames(p: Point)
    ensures PointRow(p) == Row("mpu6050", AxisName(p.channel), p.value)
  {
  }

  lemma {:induction false} PointRowsAre(ps: seq<Point>)
    ensures |PointRows(ps)| == |ps| && PointRows(ps) == MpuRows(ps)
    decreases |ps|
  {
    if ps != [] {
      PointRowsAre(ps[..|ps| - 1]);
      AxisNames(ps[|ps| - 1]);
    }
  }

  lemma MpuPartRows(c: Status, inp: Input)
    ensures MpuPart(c, inp).rows
         == c.rows + if MetBy(c.mpuOpen, inp).Data? then MpuRows(inp.mpu.points) else []
    ensures MpuPart(c, inp).shtOpen == c.shtOpen
  {
    NoProbe(inp.reopen);
  }

  lemma ShtPartRows(c: Status, inp: Input)
    ensures ShtPart(c, inp.sht).rows == c.rows + ShtRows(c.shtOpen, inp)
  {
  }

  lemma {:induction false} TurnRows(c: Status, inp: Input)
    ensures Turn(c, inp).rows
         == c.rows + (if MetBy(c.mpuOpen, inp).Data? then PointRows(inp.mpu.points) else []) + ShtRows(c.shtOpen, inp)
    ensures Turn(c, inp).shtOpen == c.shtOpen
  {
    MpuPartRows(Fed(c), inp);
    ShtPartRows(MpuPart(Fed(c), inp), inp);
    if MetBy(c.mpuOpen, inp).Data? {
      PointRowsAre(inp.mpu.points);
    }
  }

  /** MAIN: for every run the rows are the points delivered, each under its axis' name, and after
      those of a turn its good SHT30 reading, temperature before humidity. */
  lemma {:induction false} RowsAreReadings(mpuOpen: bool, shtOpen: bool, inps: seq<Input>)
    ensures var d := Turns(Start(mpuOpen, shtOpen), inps);
            d.rows == RowsOf(mpuOpen, shtOpen, inps) && d.shtOpen == shtOpen
  {
    if inps != [] {
      var m := |inps| - 1;
      RowsAreReadings(mpuOpen, shtOpen, inps[..m]);
      MpuHistory(mpuOpen, shtOpen, inps[..m]);
      TurnRows(Turns(Start(mpuOpen, shtOpen), inps[..m]), inps[m]);
    }
  }

  // ---- counters and last values ----

  /** The last good SHT30 reading. */
  function LastReading(shtOpen: bool, inps: seq<Input>): Option<(int, int)> {
    if !shtOpen || inps == [] then None
    else if inps[|inps| - 1].sht.ShtData? then Some((inps[|inps| - 1].sht.temp, inps[|inps| - 1].sht.hum))
    else LastReading(shtOpen, inps[..|inps| - 1])
  }

  function ShtErrors(shtOpen: bool, inps: seq<Input>): nat {
    if inps == [] then 0
    else ShtErrors(shtOpen, inps[..|inps| - 1]) + if shtOpen && inps[|inps| - 1].sht.ShtErr? then 1 else 0
  }

  function ShtErrorsInARow(shtOpen: bool, inps: seq<Input>): nat {
    if inps == [] then 0
    else if shtOpen && inps[|inps| - 1].sht.ShtData? then 0
    else ShtErrorsInARow(shtOpen, inps[..|inps| - 1]) + if shtOpen && inps[|inps| - 1].sht.ShtErr? then 1 else 0
  }

  lemma ShtStep(c: Status, inp: Input)
    ensures var d := Turn(c, inp);
            && d.heartbeat == c.heartbeat + 2 && d.shtOpen == c.shtOpen
            && d.tempRaw == (if c.shtOpen && inp.sht.ShtData? then inp.sht.temp else c.tempRaw)
            && d.humRaw == (if c.shtOpen && inp.sht.ShtData? then inp.sht.hum else c.humRaw)
            && d.i2cRetry == c.i2cRetry + (if c.shtOpen && inp.sht.ShtErr? then 1 else 0)
            && d.shtFail == (if c.shtOpen && inp.sht.ShtData? then 0
                             else c.shtFail + if c.shtOpen && inp.sht.ShtErr? then 1 else 0)
  {
  }

  /** MAIN: for every run, two heartbeats a turn, the raw values of the last good SHT30 reading (0
      before the first), and its failures, in all and since that reading. */
  lemma {:induction false} ShtHistory(mpuOpen: bool, shtOpen: bool, inps: seq<Input>)
    ensures var d := Turns(Start(mpuOpen, shtOpen), inps);
            && d.heartbeat == 2 * |inps| && d.shtOpen == shtOpen
            && (d.tempRaw, d.humRaw) == (match LastReading(shtOpen, inps) case None => (0, 0) case Some(r) => r)
            && d.i2cRetry == ShtErrors(shtOpen, inps)
            && d.shtFail == ShtErrorsInARow(shtOpen, inps)
  {
    if inps != [] {
      var m := |inps| - 1;
      ShtHistory(mpuOpen, shtOpen, inps[..m]);
      ShtStep(Turns(Start(mpuOpen, shtOpen), inps[..m]), inps[m]);
    }
  }

  // ---- the newest value of a channel ----

  /** `v` is the value of the last of the points on channel `c`, or `dflt` if there is none. */
  ghost predicate IsNewest(ps: seq<Point>, c: Channel, dflt: int, v: int) {
    || (v == dflt && forall p :: p in ps ==> p.channel != c)
    || exists i :: 0 <= i < |ps| && ps[i].channel == c && ps[i].value == v
                   && forall k :: i < k < |ps| ==> ps[k].channel != c
  }

  lemma {:induction false} NewestStays(ps: seq<Point>, c: Channel, dflt: int, v: int)
    requires ps != [] && ps[|ps| - 1].channel != c && IsNewest(ps[..|ps| - 1], c, dflt, v)
    ensures IsNewest(ps, c, dflt, v)
  {
    var m := |ps| - 1;
    if i :| 0 <= i < m && ps[..m][i].channel == c && ps[..m][i].value == v
            && forall k :: i < k < m ==> ps[..m][k].channel != c {
      assert ps[i].channel == c && ps[i].value == v;
      assert forall k :: i < k < m ==> ps[..m][k] == ps[k];
    } else {
      assert forall p :: p in ps[..m] ==> p.channel != c;
    }
  }

  lemma {:induction false} LatestIsNewest(ps: seq<Point>, c: Channel, dflt: int)
    ensures IsNewest(ps, c, dflt, Latest(ps, c, dflt))
    decreases |ps|
  {
    if ps != [] {
      var m := |ps| - 1;
      if ps[m].channel == c {
        assert ps[m].value == Latest(ps, c, dflt);
      } else {
        LatestIsNewest(ps[..m], c, dflt);
        NewestStays(ps, c, dflt, Latest(ps, c, dflt));
      }
    }
  }

  /** The accelerations kept for the registers are the newest on channels 0 and 1. */
  lemma AccelerationsAreNewest(mpuOpen: bool, shtOpen: bool, inps: seq<Input>)
    ensures var c := Start(mpuOpen, shtOpen);
            && IsNewest(Delivered(c, inps), 0, 0, Turns(c, inps).ax)
            && IsNewest(Delivered(c, inps), 1, 0, Turns(c, inps).ay)
  {
    var ps := Delivered(Start(mpuOpen, shtOpen), inps);
    LatestIsKept(mpuOpen, shtOpen, inps);
    LatestIsNewest(ps, 0, 0);
    LatestIsNewest(ps, 1, 0);
  }
}

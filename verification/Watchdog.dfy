/** The monitor loop of app/core/watchdog.c.  A run is given by the heartbeat values read at each
    one-second tick. */
module Watchdog {

  const DEAD_THRESHOLD: int := 5

  /** One tick's readings of the two heartbeats. */
  datatype Tick = Tick(sensor: nat, http: nat)

  /** What the loop leaves: how many times it fed the hardware, whether it ended by itself, and the
      number of the thread it last blamed. */
  datatype Outcome = Outcome(feeds: nat, stopped: bool, deadThread: int)

  // ---- the simple test: no change over a window ----

  /** The heartbeat read at tick t; before the first tick it counts as 0. */
  function At(hs: seq<nat>, t: int): nat
    requires t < |hs|
  {
    if t < 0 then 0 else hs[t]
  }

  /** The value has been the same at tick t and each of the n ticks before it. */
  ghost predicate Still(hs: seq<nat>, t: int, n: nat)
    requires 0 <= t < |hs|
  {
    n <= t + 1 && forall i :: t - n <= i <= t ==> At(hs, i) == At(hs, t)
  }

  ghost predicate DeadAt(hs: seq<nat>, t: int)
    requires 0 <= t < |hs|
  {
    Still(hs, t, DEAD_THRESHOLD)
  }

  function Sensors(ticks: seq<Tick>): (hs: seq<nat>)
    ensures |hs| == |ticks|
  {
    seq(|ticks|, i requires 0 <= i < |ticks| => ticks[i].sensor)
  }

  function Https(ticks: seq<Tick>): (hs: seq<nat>)
    ensures |hs| == |ticks|
  {
    seq(|ticks|, i requires 0 <= i < |ticks| => ticks[i].http)
  }

  ghost predicate AnyDead(ticks: seq<Tick>, t: int)
    requires 0 <= t < |ticks|
  {
    DeadAt(Sensors(ticks), t) || DeadAt(Https(ticks), t)
  }

  /** Some thread is dead at tick t, and none at any later tick before `end`. */
  ghost predicate LastDead(ticks: seq<Tick>, t: int, end: int)
    requires 0 <= t < end <= |ticks|
  {
    AnyDead(ticks, t) && forall u :: t < u < end ==> !AnyDead(ticks, u)
  }

  /** Of two dead threads the HTTP server (2) is blamed rather than the collector (1). */
  ghost function Blamed(ticks: seq<Tick>, t: int): int
    requires 0 <= t < |ticks|
  {
    if DeadAt(Https(ticks), t) then 2 else 1
  }

  // ---- the counters ----

  /** The counter after tick t: the longest still stretch that ends there. */
  ghost predicate Counts(hs: seq<nat>, t: int, dead: int)
    requires -1 <= t < |hs|
  {
    && 0 <= dead <= t + 1
    && (t >= 0 ==> Still(hs, t, dead) && !Still(hs, t, dead + 1))
    && (t == -1 ==> dead == 0)
  }

  lemma CounterStep(hs: seq<nat>, t: int, dead: int)
    requires 0 <= t < |hs| && Counts(hs, t - 1, dead)
    ensures Counts(hs, t, if At(hs, t) == At(hs, t - 1) then dead + 1 else 0)
  {
  }

  lemma CounterDecides(hs: seq<nat>, t: int, dead: int)
    requires 0 <= t < |hs| && Counts(hs, t, dead)
    ensures dead >= DEAD_THRESHOLD <==> DeadAt(hs, t)
  {
  }

  /** The monitor.  In normal mode it stops feeding at the first tick at which some heartbeat has
      stood still for five seconds, and feeds at every tick before; in test mode it feeds at
      every tick and only notes the death, the last one if there are several. */
  method Monitor(testMode: bool, ticks: seq<Tick>) returns (o: Outcome)
    ensures testMode ==>
              && o.feeds == |ticks| && !o.stopped
              && (o.deadThread == 0 <==> forall t :: 0 <= t < |ticks| ==> !AnyDead(ticks, t))
              && (forall t :: 0 <= t < |ticks| && LastDead(ticks, t, |ticks|) ==> o.deadThread == Blamed(ticks, t))
    ensures !testMode && !o.stopped ==>
              o.feeds == |ticks| && forall t :: 0 <= t < |ticks| ==> !AnyDead(ticks, t)
    ensures !testMode && o.stopped ==>
              && o.feeds < |ticks| && AnyDead(ticks, o.feeds)
              && (forall t :: 0 <= t < o.feeds ==> !AnyDead(ticks, t))
              && o.deadThread == Blamed(ticks, o.feeds)
  {
    var lastSensor, lastHttp := 0, 0;
    var sensorDead, httpDead := 0, 0;
    o := Outcome(0, false, 0);
    ghost var last := -1;
    var t := 0;
    while t < |ticks|
      invariant 0 <= t <= |ticks| && o.feeds == t && !o.stopped
      invariant lastSensor == At(Sensors(ticks), t - 1) && lastHttp == At(Https(ticks), t - 1)
      invariant Counts(Sensors(ticks), t - 1, sensorDead) && Counts(Https(ticks), t - 1, httpDead)
      invariant -1 <= last < t && forall u :: last < u < t ==> !AnyDead(ticks, u)
      invariant o.deadThread == if last < 0 then 0 else Blamed(ticks, last)
      invariant last >= 0 ==> AnyDead(ticks, last)
      invariant !testMode ==> o.deadThread == 0
    {
      var currSensor, currHttp := ticks[t].sensor, ticks[t].http;
      CounterStep(Sensors(ticks), t, sensorDead);
      CounterStep(Https(ticks), t, httpDead);
      if currSensor == lastSensor {
        sensorDead := sensorDead + 1;
      } else {
        sensorDead := 0;
        lastSensor := currSensor;
      }
      if currHttp == lastHttp {
        httpDead := httpDead + 1;
      } else {
        httpDead := 0;
        lastHttp := currHttp;
      }
      CounterDecides(Sensors(ticks), t, sensorDead);
      CounterDecides(Https(ticks), t, httpDead);
      assert AnyDead(ticks, t) <==> sensorDead >= DEAD_THRESHOLD || httpDead >= DEAD_THRESHOLD;
      if sensorDead >= DEAD_THRESHOLD || httpDead >= DEAD_THRESHOLD {
        if sensorDead >= DEAD_THRESHOLD {
          o := o.(deadThread := 1);
        }
        if httpDead >= DEAD_THRESHOLD {
          o := o.(deadThread := 2);
        }
        last := t;
        if !testMode {
          o := o.(stopped := true);
          return;
        }
      }
      o := o.(feeds := o.feeds + 1);
      t := t + 1;
    }
  }

  // ---- monotone heartbeats ----

  predicate Monotone(hs: seq<nat>) {
    forall i, j :: 0 <= i < j < |hs| ==> hs[i] <= hs[j]
  }

  /** A counter that only grows has stood still exactly when it equals its value five ticks ago. */
  lemma MonotoneWindow(hs: seq<nat>, t: int)
    requires Monotone(hs) && 0 <= t < |hs|
    ensures DeadAt(hs, t) <==> t >= 4 && At(hs, t) == At(hs, t - 5)
  {
  }

  /** A thread whose last beat was seen at tick s (or that never beat, s = -1) is reported from
      tick s + 5 on and not before. */
  lemma HungThreadIsNoticed(hs: seq<nat>, s: int, t: int)
    requires -1 <= s <= t < |hs| && t >= 0
    requires forall i :: s <= i < |hs| ==> At(hs, i) == At(hs, s)
    requires s >= 0 ==> At(hs, s) != At(hs, s - 1)
    ensures DeadAt(hs, t) <==> t >= s + 5
  {
  }
}

/** mpu6050_hal_read of app/hal/mpu6050_hal.c: six-axis frames put together from single events.
    What libevdev delivers is an input. */
module MpuHal {
  import opened CArith
  import opened Sensor

  type Errno = e: int | e < 0 witness -1

  const NONE := Point(0, 0, 0)

  /** The next thing libevdev has: an event of one of the six axes, any other event, nothing yet
      (-EAGAIN), or an error. */
  datatype Event = Axis(p: Point) | Other | Again | Failure(rc: Errno)

  /** A device handle between calls. */
  datatype Cache = Cache(slots: seq<Point>, count: int)

  /** `rc` is 0 for a normal return and the negative error otherwise; `used` events were taken. */
  datatype Result = Result(cache: Cache, out: seq<Point>, rc: int, used: nat)

  // ---- the specification ----

  /** The drain: slots are handed out by position, the last `count` of them. */
  function Drained(c: Cache, max: nat): (r: (Cache, seq<Point>))
    requires |c.slots| == 6 && 0 <= c.count < 6
    ensures |r.0.slots| == 6 && 0 <= r.0.count < 6
  {
    var n := Min(c.count, max);
    (Cache(c.slots, c.count - n), c.slots[6 - c.count..6 - c.count + n])
  }

  /** One axis event: stored by channel, and the whole cache handed out at the sixth. */
  function Taken(c: Cache, out: seq<Point>, p: Point, max: nat): (r: (Cache, seq<Point>))
    requires |c.slots| == 6 && 0 <= c.count < 6 && |out| <= max
    ensures |r.0.slots| == 6 && 0 <= r.0.count < 6 && |out| <= |r.1| <= max
  {
    var s := c.slots[p.channel := p];
    if c.count + 1 >= 6 then (Cache(s, 0), out + s[..Min(6, max - |out|)])
    else (Cache(s, c.count + 1), out)
  }

  function Filled(c: Cache, out: seq<Point>, max: nat, evs: seq<Event>, used: nat): (r: Result)
    requires |c.slots| == 6 && 0 <= c.count < 6 && |out| <= max && used <= |evs|
    ensures |r.cache.slots| == 6 && 0 <= r.cache.count < 6 && |r.out| <= max && r.used <= |evs|
    decreases |evs| - used
  {
    if |out| >= max || used == |evs| then Result(c, out, 0, used)
    else
      match evs[used]
      case Again => Result(c, out, 0, used + 1)
      case Failure(rc) => Result(c, [], rc, used + 1)
      case Other => Filled(c, out, max, evs, used + 1)
      case Axis(p) =>
        var (d, o) := Taken(c, out, p, max);
        Filled(d, o, max, evs, used + 1)
  }

  function Call(c: Cache, max: nat, evs: seq<Event>): (r: Result)
    requires |c.slots| == 6 && 0 <= c.count < 6
    ensures |r.cache.slots| == 6 && 0 <= r.cache.count < 6 && |r.out| <= max && r.used <= |evs|
  {
    var (d, o) := Drained(c, max);
    Filled(d, o, max, evs, 0)
  }

  class Handle {
    const cache: array<Point>
    var cacheCount: int

    /** The cache is never over-full between calls, whatever the events were. */
    ghost predicate Valid()
      reads this
    {
      cache.Length == 6 && 0 <= cacheCount < 6
    }

    ghost function View(): (c: Cache)
      requires Valid()
      reads this, cache
      ensures |c.slots| == 6 && 0 <= c.count < 6
    {
      Cache(cache[..], cacheCount)
    }

    constructor ()
      ensures Valid() && fresh(cache) && cacheCount == 0
    {
      cache := new Point[6](_ => NONE);
      cacheCount := 0;
    }

    method Drain(out: array<Point>, max: nat) returns (returned: nat)
      requires Valid() && max <= out.Length && out != cache
      modifies this, out
      ensures Valid() && returned <= max
      ensures (View(), out[..returned]) == Drained(old(View()), max)
    {
      returned := 0;
      while cacheCount > 0 && returned < max
        invariant 0 <= cacheCount < 6 && returned <= max
        invariant cacheCount + returned == old(cacheCount)
        invariant cache[..] == old(cache[..])
        invariant out[..returned] == cache[6 - old(cacheCount)..6 - old(cacheCount) + returned]
      {
        out[returned] := cache[6 - cacheCount];
        cacheCount := cacheCount - 1;
        returned := returned + 1;
      }
    }

    method Take(p: Point, out: array<Point>, max: nat, returned: nat) returns (now: nat)
      requires Valid() && max <= out.Length && out != cache && returned <= max
      modifies this, cache, out
      ensures Valid() && now <= max
      ensures (View(), out[..now]) == Taken(old(View()), old(out[..returned]), p, max)
    {
      now := returned;
      cache[p.channel] := p;
      cacheCount := cacheCount + 1;
      if cacheCount >= 6 {
        var i := 0;
        while i < 6 && now < max
          invariant 0 <= i <= 6 && now == returned + i <= max
          invariant cache[..] == old(cache[..])[p.channel := p]
          invariant out[..now] == old(out[..returned]) + cache[..i]
        {
          out[now] := cache[i];
          now := now + 1;
          i := i + 1;
        }
        cacheCount := 0;
      }
    }

    /** mpu6050_hal_read; `out` holds the caller's buffer, `rc` the negative error if any. */
    method Read(out: array<Point>, evs: seq<Event>) returns (rc: int, returned: nat, ghost used: nat)
      requires Valid() && out != cache
      modifies this, cache, out
      ensures Valid() && returned <= out.Length
      ensures Result(View(), if rc < 0 then [] else out[..returned], rc, used)
           == Call(old(View()), out.Length, evs)
    {
      var max := out.Length;
      rc := 0;
      used := 0;
      returned := Drain(out, max);
      var next := 0;
      while returned < max && next < |evs|
        invariant Valid() && returned <= max && next <= |evs| && used == next
        invariant Filled(View(), out[..returned], max, evs, next) == Call(old(View()), max, evs)
        decreases |evs| - next
      {
        var ev := evs[next];
        next := next + 1;
        used := used + 1;
        match ev
        case Again =>
          return;
        case Failure(e) =>
          return e, 0, used;
        case Other =>
        case Axis(p) =>
          returned := Take(p, out, max, returned);
      }
    }
  }

  // ---- whole frames ----

  predicate IsStop(ev: Event) {
    ev.Again? || ev.Failure?
  }

  ghost predicate NoStop(evs: seq<Event>) {
    forall i :: 0 <= i < |evs| ==> !IsStop(evs[i])
  }

  function Axes(evs: seq<Event>): seq<Point> {
    if evs == [] then []
    else Axes(evs[..|evs| - 1]) + if evs[|evs| - 1].Axis? then [evs[|evs| - 1].p] else []
  }

  /** Points stored by channel, one after the other. */
  function Store(slots: seq<Point>, ps: seq<Point>): (r: seq<Point>)
    requires |slots| == 6
    ensures |r| == 6
  {
    if ps == [] then slots
    else Store(slots, ps[..|ps| - 1])[ps[|ps| - 1].channel := ps[|ps| - 1]]
  }

  lemma AxesSnoc(evs: seq<Event>, j: nat)
    requires 0 < j <= |evs|
    ensures Axes(evs[..j]) == Axes(evs[..j - 1]) + (if evs[j - 1].Axis? then [evs[j - 1].p] else [])
  {
    assert evs[..j][..j - 1] == evs[..j - 1];
  }

  lemma StoreSnoc(slots: seq<Point>, ps: seq<Point>, p: Point)
    requires |slots| == 6
    ensures Store(slots, ps + [p]) == Store(slots, ps)[p.channel := p]
  {
  }

  /** Events before the sixth axis event only fill the cache. */
  lemma {:induction false} FillsCache(c: Cache, out: seq<Point>, max: nat, evs: seq<Event>, j: nat)
    requires |c.slots| == 6 && 0 <= c.count < 6 && |out| < max && j <= |evs|
    requires forall i :: 0 <= i < j ==> !IsStop(evs[i])
    requires c.count + |Axes(evs[..j])| < 6
    ensures Filled(c, out, max, evs, 0)
         == Filled(Cache(Store(c.slots, Axes(evs[..j])), c.count + |Axes(evs[..j])|), out, max, evs, j)
  {
    if j > 0 {
      AxesSnoc(evs, j);
      FillsCache(c, out, max, evs, j - 1);
      var ps, ev := Axes(evs[..j - 1]), evs[j - 1];
      assert !IsStop(ev);
      if ev.Axis? {
        StoreSnoc(c.slots, ps, ev.p);
      } else {
        assert ps + [] == ps;
      }
    }
  }

  /** The sixth axis event hands the cache out and ends a call with room for six. */
  lemma SixthEnds(c: Cache, evs: seq<Event>, j: nat)
    requires |c.slots| == 6 && c.count == 5 && j < |evs| && evs[j].Axis?
    ensures var s := c.slots[evs[j].p.channel := evs[j].p];
            Filled(c, [], 6, evs, j) == Result(Cache(s, 0), s, 0, j + 1)
  {
  }

  /** The events of one frame: nothing stops them, the last is the sixth axis event. */
  ghost predicate IsFrame(evs: seq<Event>) {
    evs != [] && NoStop(evs) && evs[|evs| - 1].Axis? && |Axes(evs)| == 6
  }

  lemma StartsEmpty(slots: seq<Point>, evs: seq<Event>)
    requires |slots| == 6
    ensures Call(Cache(slots, 0), 6, evs) == Filled(Cache(slots, 0), [], 6, evs, 0)
  {
  }

  lemma {:induction false} SixAxisEvents(slots: seq<Point>, evs: seq<Event>, j: nat)
    requires |slots| == 6 && j < |evs| && evs[j].Axis? && |Axes(evs[..j])| == 5
    requires forall i :: 0 <= i < j ==> !IsStop(evs[i])
    ensures var s := Store(slots, Axes(evs[..j]) + [evs[j].p]);
            Call(Cache(slots, 0), 6, evs) == Result(Cache(s, 0), s, 0, j + 1)
  {
    StartsEmpty(slots, evs);
    FillsCache(Cache(slots, 0), [], 6, evs, j);
    StoreSnoc(slots, Axes(evs[..j]), evs[j].p);
    SixthEnds(Cache(Store(slots, Axes(evs[..j])), 5), evs, j);
  }

  /** A call with room for six that starts with an empty cache and meets a frame takes exactly its
      events, returns its points by channel, and leaves the cache empty. */
  lemma {:induction false} FrameIsReturned(slots: seq<Point>, frame: seq<Event>, rest: seq<Event>)
    requires |slots| == 6 && IsFrame(frame)
    ensures var s := Store(slots, Axes(frame));
            Call(Cache(slots, 0), 6, frame + rest) == Result(Cache(s, 0), s, 0, |frame|)
  {
    var evs, j := frame + rest, |frame| - 1;
    assert frame[..j + 1] == frame;
    AxesSnoc(frame, j + 1);
    assert evs[..j] == frame[..j];
    SixAxisEvents(slots, evs, j);
  }

  ghost predicate DistinctChannels(ps: seq<Point>) {
    forall i, j :: 0 <= i < j < |ps| ==> ps[i].channel != ps[j].channel
  }

  /** A slot holds the last point of its channel, or what it held before. */
  lemma {:induction false} StoreMeans(slots: seq<Point>, ps: seq<Point>, c: Channel)
    requires |slots| == 6
    ensures var s := Store(slots, ps);
            || (s[c] == slots[c] && forall i :: 0 <= i < |ps| ==> ps[i].channel != c)
            || exists i :: 0 <= i < |ps| && ps[i].channel == c && s[c] == ps[i]
                           && forall k :: i < k < |ps| ==> ps[k].channel != c
    decreases |ps|
  {
    if ps != [] {
      var n := |ps| - 1;
      StoreMeans(slots, ps[..n], c);
      if ps[n].channel == c {
        assert Store(slots, ps)[c] == ps[n];
      } else if i :| 0 <= i < n && ps[..n][i].channel == c && Store(slots, ps[..n])[c] == ps[..n][i]
                     && forall k :: i < k < n ==> ps[..n][k].channel != c {
        assert ps[i].channel == c && Store(slots, ps)[c] == ps[i];
      }
    }
  }

  function ChannelsOf(ps: seq<Point>): set<Channel> {
    set p | p in ps :: p.channel
  }

  lemma ChannelsSnoc(ps: seq<Point>)
    requires ps != []
    ensures var n := |ps| - 1;
            ChannelsOf(ps) == ChannelsOf(ps[..n]) + {ps[n].channel}
  {
  }

  lemma DistinctSnoc(ps: seq<Point>)
    requires ps != []
    ensures var n := |ps| - 1;
            DistinctChannels(ps) <==> DistinctChannels(ps[..n]) && ps[n].channel !in ChannelsOf(ps[..n])
  {
  }

  lemma {:induction false} ChannelCount(ps: seq<Point>)
    ensures |ChannelsOf(ps)| <= |ps|
    ensures |ChannelsOf(ps)| == |ps| <==> DistinctChannels(ps)
    decreases |ps|
  {
    if ps != [] {
      ChannelCount(ps[..|ps| - 1]);
      ChannelsSnoc(ps);
      DistinctSnoc(ps);
    }
  }

  /** Six points with distinct channels use every channel, and only such six do. */
  lemma SixChannels(ps: seq<Point>)
    requires |ps| == 6
    ensures DistinctChannels(ps) <==> forall c: Channel :: c in ChannelsOf(ps)
  {
    ChannelCount(ps);
    var all: set<Channel> := {0, 1, 2, 3, 4, 5};
    assert |all| == 6;
    var cs := ChannelsOf(ps);
    assert forall c: Channel :: c in all;
    if |cs| == 6 && cs != all {
      assert cs < all;
      ProperSubset(cs, all);
    }
    if forall c: Channel :: c in cs {
      assert cs == all;
    }
  }

  lemma ProperSubset(a: set<Channel>, b: set<Channel>)
    requires a < b
    ensures |a| < |b|
  {
    var x :| x in b && x !in a;
    assert b == a + (b - a);
    assert x in b - a;
  }

  /** MAIN: what a frame call returns is made of that frame's own points, each at the position of
      its channel, exactly when the six events have six different channels; otherwise a slot
      still holds a point of an earlier frame. */
  lemma FrameIsWhole(slots: seq<Point>, ps: seq<Point>)
    requires |slots| == 6 && |ps| == 6 && forall s :: s in slots ==> s !in ps
    ensures (forall s :: s in Store(slots, ps) ==> s in ps) <==> DistinctChannels(ps)
    ensures DistinctChannels(ps) ==> forall i :: 0 <= i < 6 ==> Store(slots, ps)[ps[i].channel] == ps[i]
  {
    var r := Store(slots, ps);
    SixChannels(ps);
    forall c: Channel
      ensures r[c] in ps <==> c in ChannelsOf(ps)
    {
      StoreMeans(slots, ps, c);
      assert slots[c] in slots;
    }
    if forall s :: s in r ==> s in ps {
      forall c: Channel
        ensures c in ChannelsOf(ps)
      {
        assert r[c] in r;
      }
    }
    if DistinctChannels(ps) {
      forall i | 0 <= i < 6
        ensures r[ps[i].channel] == ps[i]
      {
        StoreMeans(slots, ps, ps[i].channel);
      }
    }
  }

  /** A call with room for six that does not fail returns what it drained, or six points. */
  lemma {:induction false} FilledSizes(c: Cache, out: seq<Point>, evs: seq<Event>, used: nat)
    requires |c.slots| == 6 && 0 <= c.count < 6 && |out| <= 6 && used <= |evs|
    ensures var r := Filled(c, out, 6, evs, used);
            r.rc == 0 ==> r.out == out || (|r.out| == 6 && out <= r.out && r.cache.count == 0)
    decreases |evs| - used
  {
    if |out| < 6 && used < |evs| && !IsStop(evs[used]) {
      if evs[used].Axis? {
        var (d, o) := Taken(c, out, evs[used].p, 6);
        FilledSizes(d, o, evs, used + 1);
      } else {
        FilledSizes(c, out, evs, used + 1);
      }
    }
  }

  // ---- a stream of frames, call after call ----

  /** What successive calls with room for six return from one stream. */
  function Calls(c: Cache, evs: seq<Event>, n: nat): seq<seq<Point>>
    requires |c.slots| == 6 && 0 <= c.count < 6
    decreases n
  {
    if n == 0 then []
    else
      var r := Call(c, 6, evs);
      [r.out] + Calls(r.cache, evs[r.used..], n - 1)
  }

  function Flatten(groups: seq<seq<Event>>): seq<Event> {
    if groups == [] then [] else groups[0] + Flatten(groups[1..])
  }

  /** A quiet moment: events of no axis, if any, until there is nothing left or an error. */
  ghost predicate IsQuiet(g: seq<Event>) {
    g != [] && IsStop(g[|g| - 1]) && forall i :: 0 <= i < |g| - 1 ==> g[i].Other?
  }

  /** Either one whole frame of distinct channels, or a quiet moment. */
  ghost predicate IsGroup(g: seq<Event>) {
    (IsFrame(g) && DistinctChannels(Axes(g))) || IsQuiet(g)
  }

  /** The points of a frame in channel order; nothing for a quiet moment. */
  ghost function InOrder(g: seq<Event>): seq<Point> {
    if IsQuiet(g) then [] else Store(seq(6, _ => NONE), Axes(g))
  }

  lemma StoreForgets(slots: seq<Point>, other: seq<Point>, ps: seq<Point>)
    requires |slots| == |other| == |ps| == 6 && DistinctChannels(ps)
    ensures Store(slots, ps) == Store(other, ps)
  {
    SixChannels(ps);
    forall c | 0 <= c < 6
      ensures Store(slots, ps)[c] == Store(other, ps)[c]
    {
      StoreMeans(slots, ps, c);
      StoreMeans(other, ps, c);
      var ch: Channel := c;
      assert ch in ChannelsOf(ps);
    }
  }

  /** MAIN: when six-axis frames arrive whole, with any other events and quiet moments around
      them, successive calls return exactly the frames, each in channel order, one a call, and
      nothing at a quiet moment, whatever comes after. */
  lemma {:induction false} WholeFramesComeThrough(slots: seq<Point>, groups: seq<seq<Event>>, tail: seq<Event>)
    requires |slots| == 6 && forall i :: 0 <= i < |groups| ==> IsGroup(groups[i])
    ensures Calls(Cache(slots, 0), Flatten(groups) + tail, |groups|)
         == seq(|groups|, i requires 0 <= i < |groups| => InOrder(groups[i]))
    decreases |groups|
  {
    if groups != [] {
      var g, rest := groups[0], Flatten(groups[1..]) + tail;
      var r := Call(Cache(slots, 0), 6, g + rest);
      assert Flatten(groups) + tail == g + rest;
      FirstGroup(slots, g, rest);
      WholeFramesComeThrough(r.cache.slots, groups[1..], tail);
    }
  }

  /** A call that starts with an empty cache at a quiet moment takes it whole and returns no
      point. */
  lemma {:induction false} QuietIsTaken(slots: seq<Point>, g: seq<Event>, rest: seq<Event>, used: nat)
    requires |slots| == 6 && IsQuiet(g) && used < |g|
    ensures var last := g[|g| - 1];
            Filled(Cache(slots, 0), [], 6, g + rest, used)
            == Result(Cache(slots, 0), [], if last.Failure? then last.rc else 0, |g|)
    decreases |g| - used
  {
    if used < |g| - 1 {
      assert (g + rest)[used].Other?;
      QuietIsTaken(slots, g, rest, used + 1);
    }
  }

  lemma FirstGroup(slots: seq<Point>, g: seq<Event>, rest: seq<Event>)
    requires |slots| == 6 && IsGroup(g)
    ensures var r := Call(Cache(slots, 0), 6, g + rest);
            r.out == InOrder(g) && r.cache.count == 0 && (g + rest)[r.used..] == rest
  {
    if IsQuiet(g) {
      StartsEmpty(slots, g + rest);
      QuietIsTaken(slots, g, rest, 0);
    } else {
      FrameIsReturned(slots, g, rest);
      StoreForgets(slots, seq(6, _ => NONE), Axes(g));
    }
  }

  // ---- frames cut in two ----

  /** A slot that shows one of the points shows one of its own channel. */
  lemma {:induction false} SlotShows(slots: seq<Point>, ps: seq<Point>, c: Channel, i: nat)
    requires |slots| == 6 && i < |ps| && Store(slots, ps)[c] == ps[i]
    requires forall s :: s in slots ==> s !in ps
    ensures ps[i].channel == c
  {
    StoreMeans(slots, ps, c);
    assert slots[c] in slots && ps[i] in ps;
  }

  lemma SlotOfLast(slots: seq<Point>, ps: seq<Point>, i: nat)
    requires |slots| == 6 && i < |ps| && forall k :: i < k < |ps| ==> ps[k].channel != ps[i].channel
    ensures Store(slots, ps)[ps[i].channel] == ps[i]
  {
  }

  lemma DrainIsPositional(s: seq<Point>, k: nat, max: nat)
    requires |s| == 6 && 1 <= k <= 5 && max >= 6
    ensures Drained(Cache(s, k), max).1 == seq(k, i requires 0 <= i < k => s[6 - k + i])
  {
  }

  /** MAIN, a frame interrupted after k of its events: the next call drains the last k slots by
      position, so it returns those k points exactly when they were the last k channels in
      order.  A frame reported in channel order starts with channel 0 and never is. */
  lemma {:induction false} SplitFrame(slots: seq<Point>, ps: seq<Point>, max: nat)
    requires |slots| == 6 && 1 <= |ps| <= 5 && max >= 6
    requires forall s :: s in slots ==> s !in ps
    ensures var out := Drained(Cache(Store(slots, ps), |ps|), max).1;
            && (out == ps <==> forall i :: 0 <= i < |ps| ==> ps[i].channel == 6 - |ps| + i)
            && (ps[0].channel == 0 ==> out != ps)
  {
    var k := |ps|;
    DrainIsPositional(Store(slots, ps), k, max);
    var out := Drained(Cache(Store(slots, ps), k), max).1;
    if out == ps {
      forall i | 0 <= i < k
        ensures ps[i].channel == 6 - k + i
      {
        assert out[i] == ps[i];
        SlotShows(slots, ps, 6 - k + i, i);
      }
    }
    if forall i :: 0 <= i < k ==> ps[i].channel == 6 - k + i {
      forall i | 0 <= i < k
        ensures out[i] == ps[i]
      {
        SlotOfLast(slots, ps, i);
      }
    }
  }

  // ---- what a cut costs the frames after it ----

  /** A call that starts with k leftovers and meets a whole frame, with a buffer that does not
      outlast both: it hands out the leftovers, then the frame by channel as far as there is
      room; the rest of the frame is dropped, and the cache counts as empty. */
  lemma {:induction false} FrameFillsBuffer(slots: seq<Point>, k: nat, max: nat, frame: seq<Event>, rest: seq<Event>)
    requires |slots| == 6 && k <= 5 && k < max <= k + 6 && IsFrame(frame)
    ensures var s := Store(slots, Axes(frame));
            Call(Cache(slots, k), max, frame + rest) == Result(Cache(s, 0), slots[6 - k..] + s[..max - k], 0, |frame|)
  {
    var evs, j, left := frame + rest, |frame| - 1, slots[6 - k..];
    assert left == slots[6 - k..6];
    assert frame[..j + 1] == frame;
    AxesSnoc(frame, j + 1);
    assert evs[..j] == frame[..j];
    FillsCache(Cache(slots, 0), left, max, evs, j);
    StoreSnoc(slots, Axes(frame[..j]), frame[j].p);
    SixthFills(Cache(Store(slots, Axes(frame[..j])), 5), left, max, evs, j);
  }

  /** With the caller's six places: only the first 6 - k channels of the frame. */
  lemma FrameAfterLeftovers(slots: seq<Point>, k: nat, frame: seq<Event>, rest: seq<Event>)
    requires |slots| == 6 && 1 <= k <= 5 && IsFrame(frame)
    ensures var s := Store(slots, Axes(frame));
            Call(Cache(slots, k), 6, frame + rest) == Result(Cache(s, 0), slots[6 - k..] + s[..6 - k], 0, |frame|)
  {
    FrameFillsBuffer(slots, k, 6, frame, rest);
  }

  lemma SixthFills(c: Cache, out: seq<Point>, max: nat, evs: seq<Event>, j: nat)
    requires |c.slots| == 6 && c.count == 5 && |out| < max <= |out| + 6 && j < |evs| && evs[j].Axis?
    ensures var s := c.slots[evs[j].p.channel := evs[j].p];
            Filled(c, out, max, evs, j) == Result(Cache(s, 0), out + s[..max - |out|], 0, j + 1)
  {
  }

  lemma StoreInOrder(slots: seq<Point>, ps: seq<Point>, i: nat)
    requires |slots| == |ps| == 6 && DistinctChannels(ps) && i < 6
    ensures Store(slots, ps)[ps[i].channel] == ps[i]
  {
    SlotOfLast(slots, ps, i);
  }

  /** MAIN, what is lost: of a whole frame that meets k leftovers, exactly the points of the last
      k channels never come out. */
  lemma {:induction false} LeftoversPushOut(slots: seq<Point>, k: nat, frame: seq<Event>, rest: seq<Event>)
    requires |slots| == 6 && 1 <= k <= 5 && IsFrame(frame) && DistinctChannels(Axes(frame))
    requires forall s :: s in slots ==> s !in Axes(frame)
    ensures var r := Call(Cache(slots, k), 6, frame + rest);
            && r.cache.count == 0
            && forall p :: p in Axes(frame) ==> (p in r.out <==> p.channel < 6 - k)
  {
    var ps := Axes(frame);
    var s := Store(slots, ps);
    var out := slots[6 - k..] + s[..6 - k];
    FrameAfterLeftovers(slots, k, frame, rest);
    forall p | p in ps
      ensures p in out <==> p.channel < 6 - k
    {
      var i :| 0 <= i < 6 && ps[i] == p;
      StoreInOrder(slots, ps, i);
      if p.channel < 6 - k {
        assert out[k + p.channel] == p;
      }
      if p in out {
        OnlyInItsSlot(slots, ps, k, p);
      }
    }
  }

  lemma {:induction false} OnlyInItsSlot(slots: seq<Point>, ps: seq<Point>, k: nat, p: Point)
    requires |slots| == |ps| == 6 && k <= 5 && p in ps
    requires forall s :: s in slots ==> s !in ps
    requires p in slots[6 - k..] + Store(slots, ps)[..6 - k]
    ensures p.channel < 6 - k
  {
    assert p !in slots[6 - k..];
    var c: int :| 0 <= c < 6 - k && Store(slots, ps)[c] == p;
    var i :| 0 <= i < 6 && ps[i] == p;
    SlotShows(slots, ps, c, i);
  }

  // The driver reports a frame as its six axes in channel order and a sync event; here every one
  // of them reaches the reader, unless a lemma says otherwise.

  type Frame = f: seq<Point> | |f| == 6 && forall i :: 0 <= i < 6 ==> f[i].channel == i
    witness [Point(0, 0, 0), Point(0, 1, 0), Point(0, 2, 0), Point(0, 3, 0), Point(0, 4, 0), Point(0, 5, 0)]

  function Events(ps: seq<Point>): seq<Event> {
    seq(|ps|, i requires 0 <= i < |ps| => Axis(ps[i]))
  }

  function Reported(frames: seq<Frame>): seq<Event> {
    if frames == [] then [] else Events(frames[0]) + [Other] + Reported(frames[1..])
  }

  /** The end of one frame and the start of the next. */
  function Straddle(f: Frame, g: Frame, k: nat): seq<Event>
    requires k <= 6
  {
    Events(f[k..]) + [Other] + Events(g[..k])
  }

  function Straddles(frames: seq<Frame>, k: nat): seq<seq<Event>>
    requires frames != [] && k <= 6
  {
    seq(|frames| - 1, i requires 0 <= i < |frames| - 1 => Straddle(frames[i], frames[i + 1], k))
  }

  /** The driver's stream from axis k of its first frame on. */
  function Rest(frames: seq<Frame>, k: nat): seq<Event>
    requires frames != [] && k <= 6
  {
    Events(frames[0][k..]) + [Other] + Reported(frames[1..])
  }

  lemma RestOfReported(frames: seq<Frame>, k: nat)
    requires frames != [] && k <= 6
    ensures Reported(frames) == Events(frames[0][..k]) + Rest(frames, k)
  {
    assert Events(frames[0]) == Events(frames[0][..k]) + Events(frames[0][k..]);
  }

  lemma {:induction false} RestSplits(frames: seq<Frame>, k: nat)
    requires |frames| >= 2 && k <= 6
    ensures Rest(frames, k) == Straddle(frames[0], frames[1], k) + Rest(frames[1..], k)
  {
    RestOfReported(frames[1..], k);
  }

  lemma FirstStraddle(frames: seq<Frame>, k: nat)
    requires |frames| >= 2 && k <= 6
    ensures Flatten(Straddles(frames, k)) == Straddle(frames[0], frames[1], k) + Flatten(Straddles(frames[1..], k))
  {
    var gs := Straddles(frames, k);
    assert gs[0] == Straddle(frames[0], frames[1], k) && gs[1..] == Straddles(frames[1..], k);
  }

  lemma Regroup<T>(whole: seq<T>, first: seq<T>, more: seq<T>, groups: seq<T>, end: seq<T>)
    requires whole == first + more && more == groups + end
    ensures whole == (first + groups) + end
  {
  }

  /** The driver's stream from axis k on, taken apart after the first k axes of every frame. */
  lemma {:induction false} RestIsStraddles(frames: seq<Frame>, k: nat)
    requires frames != [] && k <= 6
    ensures Rest(frames, k) == Flatten(Straddles(frames, k)) + Rest([frames[|frames| - 1]], k)
    decreases |frames|
  {
    var rest := frames[1..];
    if rest == [] {
      assert Straddles(frames, k) == [] && frames == [frames[0]];
    } else {
      RestSplits(frames, k);
      RestIsStraddles(rest, k);
      FirstStraddle(frames, k);
      Regroup(Rest(frames, k), Straddle(frames[0], frames[1], k), Rest(rest, k),
              Flatten(Straddles(rest, k)), Rest([frames[|frames| - 1]], k));
    }
  }

  lemma {:induction false} AxesConcat(a: seq<Event>, b: seq<Event>)
    ensures Axes(a + b) == Axes(a) + Axes(b)
    decreases |b|
  {
    if b == [] {
      assert a + b == a;
    } else {
      AxesConcat(a, b[..|b| - 1]);
      assert (a + b)[..|a + b| - 1] == a + b[..|b| - 1];
    }
  }

  lemma {:induction false} AxesOfEvents(ps: seq<Point>)
    ensures Axes(Events(ps)) == ps
    decreases |ps|
  {
    if ps != [] {
      AxesOfEvents(ps[..|ps| - 1]);
      assert Events(ps)[..|ps| - 1] == Events(ps[..|ps| - 1]);
    }
  }

  lemma {:induction false} PairAxes(a: seq<Point>, b: seq<Point>)
    requires b != [] && |a| + |b| == 6
    ensures var evs := Events(a) + [Other] + Events(b);
            Axes(evs) == a + b && IsFrame(evs)
  {
    AxesConcat(Events(a) + [Other], Events(b));
    AxesConcat(Events(a), [Other]);
    AxesOfEvents(a);
    AxesOfEvents(b);
    assert Axes([Other]) == [];
  }

  lemma {:induction false} StraddleAxes(f: Frame, g: Frame, k: nat)
    requires 1 <= k <= 5
    ensures Axes(Straddle(f, g, k)) == f[k..] + g[..k]
    ensures IsFrame(Straddle(f, g, k))
  {
    PairAxes(f[k..], g[..k]);
  }

  lemma {:induction false} StraddleStored(slots: seq<Point>, f: Frame, g: Frame, k: nat)
    requires |slots| == 6 && 1 <= k <= 5
    ensures DistinctChannels(f[k..] + g[..k]) && Store(slots, f[k..] + g[..k]) == g[..k] + f[k..]
  {
    var ps := f[k..] + g[..k];
    forall c | 0 <= c < 6
      ensures Store(slots, ps)[c] == (g[..k] + f[k..])[c]
    {
      StoreInOrder(slots, ps, if c < k then 6 - k + c else c - k);
    }
  }

  /** The first k channels of each frame but the first, with the others of the frame before. */
  function Mixtures(frames: seq<Frame>, k: nat): seq<seq<Point>>
    requires frames != [] && k <= 6
  {
    seq(|frames| - 1, i requires 0 <= i < |frames| - 1 => frames[i + 1][..k] + frames[i][k..])
  }

  /** A busy stream whose first frame lacks its first k axes: every call returns the first k
      channels of one frame with the others of the frame before it. */
  lemma {:induction false} LateStartKeepsMixing(slots: seq<Point>, frames: seq<Frame>, k: nat)
    requires |slots| == 6 && 1 <= k <= 5 && frames != []
    ensures Calls(Cache(slots, 0), Rest(frames, k), |frames| - 1)
         == Mixtures(frames, k)
  {
    var gs := Straddles(frames, k);
    forall i | 0 <= i < |gs|
      ensures IsGroup(gs[i]) && InOrder(gs[i]) == frames[i + 1][..k] + frames[i][k..]
    {
      StraddleAxes(frames[i], frames[i + 1], k);
      StraddleStored(seq(6, _ => NONE), frames[i], frames[i + 1], k);
    }
    RestIsStraddles(frames, k);
    WholeFramesComeThrough(slots, gs, Rest([frames[|frames| - 1]], k));
  }

  /** MAIN, what one short frame does to a busy stream: any 6 - k points of any channels, the rest
      of their frame missing, come out with the first k axes of the next frame, and every later
      call mixes two frames in a row. */
  lemma {:induction false} ShortFrameKeepsMixing(slots: seq<Point>, ps: seq<Point>, frames: seq<Frame>)
    requires |slots| == 6 && 1 <= |ps| <= 5 && frames != []
    ensures var k := 6 - |ps|;
            Calls(Cache(slots, 0), Events(ps) + [Other] + Reported(frames), |frames|)
            == [Store(slots, ps + frames[0][..k])] + Mixtures(frames, k)
  {
    var k := 6 - |ps|;
    var first := Events(ps) + [Other] + Events(frames[0][..k]);
    var evs := Events(ps) + [Other] + Reported(frames);
    RestOfReported(frames, k);
    assert evs == first + Rest(frames, k);
    PairAxes(ps, frames[0][..k]);
    FrameIsReturned(slots, first, Rest(frames, k));
    assert evs[|first|..] == Rest(frames, k);
    LateStartKeepsMixing(Store(slots, ps + frames[0][..k]), frames, k);
  }

  /** The call that is cut off: it returns nothing and leaves k points behind. */
  lemma {:induction false} CutCall(slots: seq<Point>, ps: seq<Point>, rest: seq<Event>)
    requires |slots| == 6 && 1 <= |ps| <= 5
    ensures var evs := Events(ps) + [Again] + rest;
            Call(Cache(slots, 0), 6, evs) == Result(Cache(Store(slots, ps), |ps|), [], 0, |ps| + 1)
  {
    var evs := Events(ps) + [Again] + rest;
    StartsEmpty(slots, evs);
    assert evs[..|ps|] == Events(ps);
    AxesOfEvents(ps);
    FillsCache(Cache(slots, 0), [], 6, evs, |ps|);
    assert evs[|ps|] == Again;
  }

  /** The call after it: the leftovers by position, and part of the first straddle. */
  lemma {:induction false} CallAfterCut(slots: seq<Point>, f: Frame, g: Frame, k: nat, rest: seq<Event>)
    requires |slots| == 6 && 1 <= k <= 5
    ensures var s := g[..k] + f[k..];
            Call(Cache(slots, k), 6, Straddle(f, g, k) + rest)
            == Result(Cache(s, 0), slots[6 - k..] + s[..6 - k], 0, |Straddle(f, g, k)|)
  {
    StraddleAxes(f, g, k);
    StraddleStored(slots, f, g, k);
    FrameAfterLeftovers(slots, k, Straddle(f, g, k), rest);
  }

  /** The cut call and the one after it. */
  lemma {:induction false} CutThenStraddle(slots: seq<Point>, f: Frame, g: Frame, k: nat, rest: seq<Event>, n: nat)
    requires |slots| == 6 && 1 <= k <= 5
    ensures var left, s := Store(slots, f[..k]), g[..k] + f[k..];
            Calls(Cache(slots, 0), Events(f[..k]) + [Again] + (Straddle(f, g, k) + rest), n + 2)
            == [[], left[6 - k..] + s[..6 - k]] + Calls(Cache(s, 0), rest, n)
  {
    var left, s, second := Store(slots, f[..k]), g[..k] + f[k..], Straddle(f, g, k) + rest;
    var evs := Events(f[..k]) + [Again] + second;
    CutCall(slots, f[..k], second);
    assert evs[k + 1..] == second;
    CallAfterCut(left, f, g, k, rest);
    assert second[|Straddle(f, g, k)|..] == rest;
    TwoCalls(Cache(slots, 0), evs, Result(Cache(left, k), [], 0, k + 1),
             Result(Cache(s, 0), left[6 - k..] + s[..6 - k], 0, |Straddle(f, g, k)|), rest, n);
  }

  /** MAIN, what one cut does to a busy stream: a frame cut after its first k axes comes out by
      position with part of the next, and every later call mixes two frames in a row. */
  lemma {:induction false} CutKeepsMixing(slots: seq<Point>, frames: seq<Frame>, k: nat)
    requires |slots| == 6 && 1 <= k <= 5 && |frames| >= 2
    ensures var left := Store(slots, frames[0][..k]);
            Calls(Cache(slots, 0), Events(frames[0][..k]) + [Again] + Rest(frames, k), |frames|)
            == [[], left[6 - k..] + (frames[1][..k] + frames[0][k..])[..6 - k]] + Mixtures(frames[1..], k)
  {
    RestSplits(frames, k);
    CutThenStraddle(slots, frames[0], frames[1], k, Rest(frames[1..], k), |frames| - 2);
    LateStartKeepsMixing(frames[1][..k] + frames[0][k..], frames[1..], k);
  }

  // ---- calls that run dry ----

  /** Events of which fewer than six are of an axis, up to the first -EAGAIN or error. */
  ghost predicate RunsDry(g: seq<Event>) {
    g != [] && IsStop(g[|g| - 1]) && NoStop(g[..|g| - 1]) && |Axes(g[..|g| - 1])| < 6
  }

  /** A caller's buffer that the leftovers fill: nothing is read, and they are handed out by
      position. */
  lemma LeftoversFillBuffer(slots: seq<Point>, k: nat, max: nat, evs: seq<Event>)
    requires |slots| == 6 && max <= k <= 5
    ensures Call(Cache(slots, k), max, evs) == Result(Cache(slots, k - max), slots[6 - k..6 - k + max], 0, 0)
  {
  }

  /** MAIN, a call that runs dry: from k leftovers, with a larger buffer, it returns exactly those,
      by position, and takes the events up to and with the -EAGAIN; the j points among them stay
      behind, stored by channel, with count j.  An error is passed on, and then the drained
      points are lost with it. */
  lemma {:induction false} DryCall(slots: seq<Point>, k: nat, max: nat, g: seq<Event>, rest: seq<Event>)
    requires |slots| == 6 && k <= 5 && k < max && RunsDry(g)
    ensures var ps, last := Axes(g[..|g| - 1]), g[|g| - 1];
            Call(Cache(slots, k), max, g + rest)
            == Result(Cache(Store(slots, ps), |ps|), if last.Failure? then [] else slots[6 - k..],
                      if last.Failure? then last.rc else 0, |g|)
  {
    var evs, j, left := g + rest, |g| - 1, slots[6 - k..];
    assert left == slots[6 - k..6];
    assert evs[..j] == g[..j];
    assert forall i :: 0 <= i < j ==> evs[i] == g[..j][i];
    FillsCache(Cache(slots, 0), left, max, evs, j);
    assert evs[j] == g[j];
  }

  // ---- a stream that pauses after every frame ----

  /** A frame as the driver reports it, read to the end. */
  function Paused(frames: seq<Frame>): seq<Event> {
    if frames == [] then [] else Events(frames[0]) + [Other, Again] + Paused(frames[1..])
  }

  /** How many points each of some calls leaves behind. */
  function Counts(c: Cache, evs: seq<Event>, n: nat): seq<int>
    requires |c.slots| == 6 && 0 <= c.count < 6
    decreases n
  {
    if n == 0 then []
    else
      var r := Call(c, 6, evs);
      [r.cache.count] + Counts(r.cache, evs[r.used..], n - 1)
  }

  /** A frame, then nothing, and so on. */
  function WithPauses(frames: seq<Frame>): seq<seq<Point>> {
    if frames == [] then [] else [frames[0], []] + WithPauses(frames[1..])
  }

  function Zeros(n: nat): seq<int> {
    seq(n, _ => 0)
  }

  lemma {:induction false} SyncedAxes(ps: seq<Point>)
    ensures Axes(Events(ps) + [Other]) == ps && NoStop(Events(ps) + [Other])
  {
    var evs := Events(ps) + [Other];
    AxesOfEvents(ps);
    assert evs[..|evs| - 1] == Events(ps);
  }

  /** A call that meets the rest of a frame and then a pause. */
  lemma {:induction false} PausedCall(slots: seq<Point>, k: nat, ps: seq<Point>, rest: seq<Event>)
    requires |slots| == 6 && k <= 5 && |ps| <= 5
    ensures Call(Cache(slots, k), 6, Events(ps) + [Other, Again] + rest)
         == Result(Cache(Store(slots, ps), |ps|), slots[6 - k..], 0, |ps| + 2)
  {
    var g := Events(ps) + [Other, Again];
    assert g[..|g| - 1] == Events(ps) + [Other];
    SyncedAxes(ps);
    DryCall(slots, k, 6, g, rest);
  }

  lemma {:induction false} InOrderStored(slots: seq<Point>, f: Frame)
    requires |slots| == 6
    ensures Store(slots, f) == f && IsFrame(Events(f)) && Axes(Events(f)) == f && DistinctChannels(f)
  {
    AxesOfEvents(f);
    forall c | 0 <= c < 6
      ensures Store(slots, f)[c] == f[c]
    {
      StoreInOrder(slots, f, c);
    }
  }

  /** A whole frame and its pause, met with k leftovers: two calls. */
  lemma {:induction false} FrameThenPause(slots: seq<Point>, k: nat, f: Frame, rest: seq<Event>)
    requires |slots| == 6 && k <= 5
    ensures var evs := Events(f) + [Other, Again] + rest;
            var r := Call(Cache(slots, k), 6, evs);
            && r == Result(Cache(f, 0), slots[6 - k..] + f[..6 - k], 0, 6)
            && evs[6..] == [Other, Again] + rest
            && Call(r.cache, 6, evs[6..]) == Result(Cache(f, 0), [], 0, 2)
  {
    var evs, after := Events(f) + [Other, Again] + rest, [Other, Again] + rest;
    assert evs == Events(f) + after;
    InOrderStored(slots, f);
    if k == 0 {
      FrameIsReturned(slots, Events(f), after);
      assert slots[6..] + f[..6] == f;
    } else {
      FrameAfterLeftovers(slots, k, Events(f), after);
    }
    PausedCall(f, 0, [], rest);
    assert Events([]) + [Other, Again] + rest == after;
    assert Store(f, []) == f;
  }

  lemma {:induction false} OneCall(c: Cache, evs: seq<Event>, r: Result, rest: seq<Event>, n: nat)
    requires |c.slots| == 6 && 0 <= c.count < 6
    requires r == Call(c, 6, evs) && rest == evs[r.used..]
    ensures Calls(c, evs, n + 1) == [r.out] + Calls(r.cache, rest, n)
    ensures Counts(c, evs, n + 1) == [r.cache.count] + Counts(r.cache, rest, n)
  {
  }

  lemma {:induction false} TwoCalls(c: Cache, evs: seq<Event>, r: Result, t: Result, rest: seq<Event>, n: nat)
    requires |c.slots| == 6 && 0 <= c.count < 6
    requires r == Call(c, 6, evs) && t == Call(r.cache, 6, evs[r.used..]) && rest == evs[r.used..][t.used..]
    ensures Calls(c, evs, n + 2) == [r.out, t.out] + Calls(t.cache, rest, n)
    ensures Counts(c, evs, n + 2) == [r.cache.count, t.cache.count] + Counts(t.cache, rest, n)
  {
    OneCall(c, evs, r, evs[r.used..], n + 1);
    OneCall(r.cache, evs[r.used..], t, rest, n);
  }

  lemma {:induction false} FirstPaused(slots: seq<Point>, k: nat, frames: seq<Frame>, n: nat)
    requires |slots| == 6 && k <= 5 && frames != []
    ensures var f := frames[0];
            && Calls(Cache(slots, k), Paused(frames), n + 2)
               == [slots[6 - k..] + f[..6 - k], []] + Calls(Cache(f, 0), Paused(frames[1..]), n)
            && Counts(Cache(slots, k), Paused(frames), n + 2)
               == [0, 0] + Counts(Cache(f, 0), Paused(frames[1..]), n)
  {
    var f, rest := frames[0], Paused(frames[1..]);
    FrameThenPause(slots, k, f, rest);
    assert ([Other, Again] + rest)[2..] == rest;
    TwoCalls(Cache(slots, k), Paused(frames), Result(Cache(f, 0), slots[6 - k..] + f[..6 - k], 0, 6),
             Result(Cache(f, 0), [], 0, 2), rest, n);
  }

  lemma {:induction false} FirstWhole(slots: seq<Point>, frames: seq<Frame>, n: nat)
    requires |slots| == 6 && frames != []
    ensures Calls(Cache(slots, 0), Paused(frames), n + 2)
         == [frames[0], []] + Calls(Cache(frames[0], 0), Paused(frames[1..]), n)
    ensures Counts(Cache(slots, 0), Paused(frames), n + 2)
         == [0, 0] + Counts(Cache(frames[0], 0), Paused(frames[1..]), n)
  {
    FirstPaused(slots, 0, frames, n);
    assert slots[6 - 0..] + frames[0][..6 - 0] == frames[0];
  }

  /** With nothing left behind, every frame comes out whole. */
  lemma {:induction false} PausedFramesComeThrough(slots: seq<Point>, frames: seq<Frame>, n: nat)
    requires |slots| == 6 && n == 2 * |frames|
    ensures Calls(Cache(slots, 0), Paused(frames), n) == WithPauses(frames)
    decreases |frames|
  {
    if frames != [] {
      FirstWhole(slots, frames, n - 2);
      PausedFramesComeThrough(frames[0], frames[1..], n - 2);
      assert WithPauses(frames) == [frames[0], []] + WithPauses(frames[1..]);
    }
  }

  lemma {:induction false} PausedFramesLeaveNothing(slots: seq<Point>, frames: seq<Frame>, n: nat)
    requires |slots| == 6 && n == 2 * |frames|
    ensures Counts(Cache(slots, 0), Paused(frames), n) == Zeros(n)
    decreases |frames|
  {
    if frames != [] {
      FirstWhole(slots, frames, n - 2);
      PausedFramesLeaveNothing(frames[0], frames[1..], n - 2);
      assert Zeros(n) == [0, 0] + Zeros(n - 2);
    }
  }

  /** A paused stream met with k leftovers. */
  lemma {:induction false} PauseHeals(slots: seq<Point>, k: nat, frames: seq<Frame>)
    requires |slots| == 6 && k <= 5 && frames != []
    ensures var n := 2 * |frames[1..]|;
            && Calls(Cache(slots, k), Paused(frames), n + 2)
               == [slots[6 - k..] + frames[0][..6 - k], []] + WithPauses(frames[1..])
            && Counts(Cache(slots, k), Paused(frames), n + 2) == [0, 0] + Zeros(n)
  {
    FirstPaused(slots, k, frames, 2 * |frames[1..]|);
    PausedFramesComeThrough(frames[0], frames[1..], 2 * |frames[1..]|);
    PausedFramesLeaveNothing(frames[0], frames[1..], 2 * |frames[1..]|);
  }

  /** The cut and the rest of the frame. */
  lemma {:induction false} CutThenPause(slots: seq<Point>, f: Frame, k: nat, tail: seq<Event>, n: nat)
    requires |slots| == 6 && 1 <= k <= 5
    ensures var left := Store(slots, f[..k]);
            var evs := Events(f[..k]) + [Again] + (Events(f[k..]) + [Other, Again] + tail);
            && Calls(Cache(slots, 0), evs, n + 2) == [[], left[6 - k..]] + Calls(Cache(f, 6 - k), tail, n)
            && Counts(Cache(slots, 0), evs, n + 2) == [k, 6 - k] + Counts(Cache(f, 6 - k), tail, n)
  {
    var left, second := Store(slots, f[..k]), Events(f[k..]) + [Other, Again] + tail;
    var evs := Events(f[..k]) + [Again] + second;
    CutCall(slots, f[..k], second);
    assert evs[k + 1..] == second;
    PausedCall(left, k, f[k..], tail);
    WholeAgain(slots, f, k);
    assert second[6 - k + 2..] == tail;
    TwoCalls(Cache(slots, 0), evs, Result(Cache(left, k), [], 0, k + 1),
             Result(Cache(f, 6 - k), left[6 - k..], 0, 6 - k + 2), tail, n);
  }

  /** MAIN, what one cut does to a stream that pauses after every frame: the cut frame's start comes
      out by position and its end only with the start of the next frame, whose end is lost; from
      then on nothing is left behind and every frame comes out whole. */
  lemma {:induction false} PauseHealsCut(slots: seq<Point>, f: Frame, frames: seq<Frame>, k: nat)
    requires |slots| == 6 && 1 <= k <= 5 && frames != []
    ensures var left := Store(slots, f[..k]);
            var evs := Events(f[..k]) + [Again] + (Events(f[k..]) + [Other, Again] + Paused(frames));
            var n := 2 * |frames[1..]|;
            && Calls(Cache(slots, 0), evs, n + 2 + 2)
               == [[], left[6 - k..]] + ([f[k..] + frames[0][..k], []] + WithPauses(frames[1..]))
            && Counts(Cache(slots, 0), evs, n + 2 + 2) == [k, 6 - k] + ([0, 0] + Zeros(n))
  {
    CutThenPause(slots, f, k, Paused(frames), 2 * |frames[1..]| + 2);
    PauseHeals(f, 6 - k, frames);
    assert f[6 - (6 - k)..] + frames[0][..6 - (6 - k)] == f[k..] + frames[0][..k];
  }

  /** Both parts of a frame together fill every slot with it. */
  lemma {:induction false} WholeAgain(slots: seq<Point>, f: Frame, k: nat)
    requires |slots| == 6 && k <= 6
    ensures Store(Store(slots, f[..k]), f[k..]) == f
  {
    StoreConcat(slots, f[..k], f[k..]);
    assert f[..k] + f[k..] == f;
    InOrderStored(slots, f);
  }

  lemma {:induction false} StoreConcat(slots: seq<Point>, a: seq<Point>, b: seq<Point>)
    requires |slots| == 6
    ensures Store(slots, a + b) == Store(Store(slots, a), b)
    decreases |b|
  {
    if b == [] {
      assert a + b == a;
    } else {
      StoreConcat(slots, a, b[..|b| - 1]);
      assert (a + b)[..|a + b| - 1] == a + b[..|b| - 1];
    }
  }
}

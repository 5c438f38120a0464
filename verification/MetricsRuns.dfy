/** One writer recording latencies while one reader takes a snapshot of the window: every
    interleaving of their atomic steps (app/core/metrics.c).  Sequentially consistent. */
module MetricsRuns {
  import opened CArith
  import opened Words32
  import opened Circular
  import opened Metrics

  datatype Writer = WIdle | WGotIdx(x: int, idx: int) | WStored | WCounted(seen: int)
  datatype Reader = RIdle | RLoading(c: nat, loaded: seq<int>) | RDone(c: nat, loaded: seq<int>)

  /** `log` lists the samples stored so far; `since` is its length when the reader loaded the
      count; `from` the numbers of the samples it has loaded. */
  datatype Sys = Sys(
    window: seq<int>, writeIdx: int, count: int, wr: Writer, rd: Reader,
    log: seq<int>, since: nat, from: seq<nat>)

  datatype Action = WCall(x: int) | WStore | WCount | WClamp | RCount | RLoad | RFinish

  function Init(window: seq<int>): Sys {
    Sys(window, 0, 0, WIdle, RIdle, [], 0, [])
  }

  function Step(s: Sys, a: Action): (t: Sys)
    requires |s.window| == WINDOW
    ensures |t.window| == WINDOW
  {
    match a
    case WCall(x) =>
      // the signed index is meaningful for the first 2^31 calls
      if s.wr.WIdle? && |s.log| < 0x8000_0000 then
        s.(writeIdx := Wrap32((s.writeIdx + 1) % WORD), wr := WGotIdx(x, Rem(s.writeIdx, WINDOW)))
      else s
    case WStore =>
      if s.wr.WGotIdx? && 0 <= s.wr.idx < WINDOW then
        s.(window := s.window[s.wr.idx := s.wr.x], log := s.log + [s.wr.x], wr := WStored)
      else s
    case WCount => if s.wr.WStored? then s.(count := s.count + 1, wr := WCounted(s.count)) else s
    case WClamp =>
      if s.wr.WCounted? then
        s.(count := if s.wr.seen >= WINDOW then WINDOW else s.count, wr := WIdle)
      else s
    case RCount =>
      if s.rd.RIdle? && s.count > 0 then
        s.(rd := RLoading(Min(s.count, WINDOW), []), since := |s.log|, from := [])
      else s
    case RLoad =>
      if s.rd.RLoading? && |s.rd.loaded| < s.rd.c && s.rd.c <= WINDOW
         && |s.rd.loaded| < |s.log| then
        var i := |s.rd.loaded|;
        s.(rd := RLoading(s.rd.c, s.rd.loaded + [s.window[i]]), from := s.from + [Newest(i, |s.log|, WINDOW)])
      else s
    case RFinish =>
      if s.rd.RLoading? && |s.rd.loaded| == s.rd.c then s.(rd := RDone(s.rd.c, s.rd.loaded))
      else if s.rd.RDone? then s.(rd := RIdle)
      else s
  }

  function Run(s: Sys, acts: seq<Action>): (t: Sys)
    requires |s.window| == WINDOW
    ensures |t.window| == WINDOW
  {
    if acts == [] then s else Step(Run(s, acts[..|acts| - 1]), acts[|acts| - 1])
  }

  ghost predicate WriterInv(s: Sys) {
    var n := |s.log|;
    && n <= 0x8000_0000
    && match s.wr
       case WIdle => s.writeIdx == Wrap32(n) && s.count == Min(n, WINDOW)
       case WGotIdx(_, idx) =>
         && n < 0x8000_0000 && s.writeIdx == Wrap32(n + 1)
         && idx == n % WINDOW && s.count == Min(n, WINDOW)
       case WStored => n > 0 && s.writeIdx == Wrap32(n) && s.count == Min(n - 1, WINDOW)
       case WCounted(o) =>
         n > 0 && s.writeIdx == Wrap32(n) && o == Min(n - 1, WINDOW) && s.count == o + 1
  }

  /** What the reader holds: slot i's value is a recorded sample whose number is congruent to i
      and is no more than a window older than the moment the count was loaded. */
  ghost predicate Snapshot(s: Sys, c: nat, loaded: seq<int>) {
    && |loaded| == |s.from| <= c && c > 0
    && Min(s.since - 1, WINDOW) <= c <= Min(s.since, WINDOW)
    && s.since <= |s.log|
    && forall i: nat :: i < |loaded| ==>
                          && s.from[i] < |s.log| && loaded[i] == s.log[s.from[i]]
                          && s.from[i] % WINDOW == i && s.since <= s.from[i] + 1024
  }

  ghost predicate ReaderInv(s: Sys) {
    match s.rd
    case RIdle => true
    case RLoading(c, loaded) => Snapshot(s, c, loaded)
    case RDone(c, loaded) => Snapshot(s, c, loaded) && |loaded| == c
  }

  ghost predicate Inv(s: Sys) {
    |s.window| == WINDOW && SlotsHoldNewest(s.window, s.log) && WriterInv(s) && ReaderInv(s)
  }

  lemma SlotIsNewest(w: seq<int>, log: seq<int>, i: nat)
    requires |w| == WINDOW && SlotsHoldNewest(w, log) && i < WINDOW && i < |log|
    ensures var n := Newest(i, |log|, WINDOW);
            n < |log| <= n + WINDOW && n % WINDOW == i && w[i] == log[n]
  {
    NewestMeans(i, |log|, WINDOW);
    var n := Newest(i, |log|, WINDOW);
    assert w[n % |w|] == log[n];
  }

  lemma StoreKeepsInv(s: Sys)
    requires Inv(s) && s.wr.WGotIdx?
    ensures Inv(Step(s, WStore))
  {
  }

  lemma LoadKeepsInv(s: Sys)
    requires Inv(s) && s.rd.RLoading? && |s.rd.loaded| < s.rd.c
    ensures Inv(Step(s, RLoad))
  {
    SlotIsNewest(s.window, s.log, |s.rd.loaded|);
  }

  lemma CallKeepsInv(s: Sys, x: int)
    requires Inv(s)
    ensures Inv(Step(s, WCall(x)))
  {
  }

  lemma {:induction false} StepKeepsInv(s: Sys, a: Action)
    requires Inv(s)
    ensures Inv(Step(s, a))
  {
    match a
    case WCall(x) =>
      CallKeepsInv(s, x);
    case WStore =>
      if s.wr.WGotIdx? { StoreKeepsInv(s); }
    case RLoad =>
      if s.rd.RLoading? && |s.rd.loaded| < s.rd.c { LoadKeepsInv(s); }
    case _ =>
  }

  lemma {:induction false} RunKeepsInv(window: seq<int>, acts: seq<Action>)
    requires |window| == WINDOW
    ensures Inv(Run(Init(window), acts))
    decreases |acts|
  {
    if acts != [] {
      RunKeepsInv(window, acts[..|acts| - 1]);
      StepKeepsInv(Run(Init(window), acts[..|acts| - 1]), acts[|acts| - 1]);
    }
  }

  /** MAIN: in every interleaving a finished snapshot is made of distinct recorded samples, none
      older than the window at its start, and misses at most the sample being counted; the
      count stays at 1024 or 1025 once the window is full, and below that never exceeds the
      number of stored samples. */
  lemma SnapshotIsRecent(window: seq<int>, acts: seq<Action>)
    requires |window| == WINDOW
    ensures var s := Run(Init(window), acts);
            && (s.rd.RDone? ==> Snapshot(s, s.rd.c, s.rd.loaded) && |s.rd.loaded| == s.rd.c
                                && forall i, j :: 0 <= i < j < |s.from| ==> s.from[i] != s.from[j])
            && (|s.log| > 1024 ==> s.count == 1024 || s.count == 1025)
            && (s.count <= |s.log|)
  {
    RunKeepsInv(window, acts);
  }

  /** MAIN, what is reported while recording goes on: put in order, a finished snapshot shows at the
      two positions the values of those ranks among the samples loaded, which are recorded ones,
      and the median is at most the other. */
  lemma {:induction false} SnapshotPercentiles(window: seq<int>, acts: seq<Action>, sorted: seq<int>)
    requires |window| == WINDOW
    requires var s := Run(Init(window), acts);
             s.rd.RDone? && Sorted(sorted) && multiset(sorted) == multiset(s.rd.loaded)
    ensures var s := Run(Init(window), acts);
            var n := |s.rd.loaded|;
            && n > 0 && |sorted| == n == s.rd.c
            && IsRank(s.rd.loaded, n * 50 / 100, sorted[n * 50 / 100])
            && IsRank(s.rd.loaded, n * 99 / 100, sorted[n * 99 / 100])
            && sorted[n * 50 / 100] <= sorted[n * 99 / 100]
            && forall x :: x in s.rd.loaded ==> x in s.log
  {
    var s := Run(Init(window), acts);
    var n := |s.rd.loaded|;
    RunKeepsInv(window, acts);
    assert |sorted| == |multiset(sorted)| == n;
    SortedHasRanks(sorted, n * 50 / 100);
    SortedHasRanks(sorted, n * 99 / 100);
    RankPermuted(sorted, s.rd.loaded, n * 50 / 100, sorted[n * 50 / 100]);
    RankPermuted(sorted, s.rd.loaded, n * 99 / 100, sorted[n * 99 / 100]);
  }

  /** The reader never loads a slot nobody has written: a load is always enabled until the
      snapshot is complete. */
  lemma LoadsOnlyWritten(window: seq<int>, acts: seq<Action>)
    requires |window| == WINDOW
    ensures var s := Run(Init(window), acts);
            s.rd.RLoading? && |s.rd.loaded| < s.rd.c ==> |s.rd.loaded| < Min(|s.log|, WINDOW)
  {
    RunKeepsInv(window, acts);
  }
}

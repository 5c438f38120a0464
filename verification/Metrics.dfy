/** The latency window and its percentiles, app/core/metrics.c. */
module Metrics {
  import opened CArith
  import opened Words32
  import opened Circular

  const WINDOW: nat := 1024

  /** An `atomic_int` after n increments from 0. */
  function Wrap32(n: nat): int {
    var w := n % WORD;
    if w < 0x8000_0000 then w else w - WORD
  }

  /** The signed index of call number n has not wrapped below zero, or is a multiple of the
      window. */
  predicate IndexFits(n: nat) {
    n % WORD < 0x8000_0000 || n % WINDOW == 0
  }

  lemma WordKeepsSlot(n: nat)
    ensures (n % WORD) % WINDOW == n % WINDOW
    ensures n % WORD >= 0x8000_0000 ==> ((WORD - n % WORD) % WINDOW == 0 <==> n % WINDOW == 0)
  {
    var w, q := n % WORD, n / WORD;
    assert n == (q * 0x40_0000) * WINDOW + w;
    assert WORD == 0x40_0000 * WINDOW;
  }

  lemma NegativeRem(x: int)
    requires x < 0
    ensures Rem(x, WINDOW) <= 0
    ensures Rem(x, WINDOW) == 0 <==> (-x) % WINDOW == 0
  {
  }

  /** Call number n stores inside the window, and then in its proper slot, exactly if so. */
  lemma {:induction false} IndexInWindow(n: nat)
    ensures 0 <= Rem(Wrap32(n), WINDOW) < WINDOW <==> IndexFits(n)
    ensures IndexFits(n) ==> Rem(Wrap32(n), WINDOW) == n % WINDOW
  {
    WordKeepsSlot(n);
    if Wrap32(n) < 0 {
      NegativeRem(Wrap32(n));
    } else {
      assert Rem(Wrap32(n), WINDOW) == Wrap32(n) % WINDOW;
    }
  }

  lemma WrapStep(n: nat)
    ensures Wrap32((Wrap32(n) + 1) % WORD) == Wrap32(n + 1)
  {
  }

  /** The most recent samples, at most a window of them. */
  function Recent(h: seq<int>): seq<int> {
    h[|h| - Min(|h|, 1024)..]
  }

  // ---- order statistics ----

  /** How many elements are below `v` (or equal to it, when `orEqual`). */
  function CountBelow(s: seq<int>, v: int, orEqual: bool): (n: nat)
    ensures n <= |s|
  {
    if s == [] then 0
    else CountBelow(s[..|s| - 1], v, orEqual)
         + if s[|s| - 1] < v || (orEqual && s[|s| - 1] == v) then 1 else 0
  }

  /** `v` is what stands at position `rank` when `s` is put in order. */
  predicate IsRank(s: seq<int>, rank: nat, v: int) {
    v in s && CountBelow(s, v, false) <= rank < CountBelow(s, v, true)
  }

  lemma {:induction false} CountConcat(a: seq<int>, b: seq<int>, v: int, e: bool)
    ensures CountBelow(a + b, v, e) == CountBelow(a, v, e) + CountBelow(b, v, e)
    decreases |b|
  {
    if b == [] {
      assert a + b == a;
    } else {
      CountConcat(a, b[..|b| - 1], v, e);
      assert (a + b)[..|a + b| - 1] == a + b[..|b| - 1];
    }
  }

  lemma CountRemove(s: seq<int>, j: nat, v: int, e: bool)
    requires j < |s|
    ensures CountBelow(s, v, e) == CountBelow(s[..j] + s[j + 1..], v, e) + CountBelow([s[j]], v, e)
  {
    assert s == s[..j] + ([s[j]] + s[j + 1..]);
    CountConcat(s[..j], [s[j]] + s[j + 1..], v, e);
    CountConcat([s[j]], s[j + 1..], v, e);
    CountConcat(s[..j], s[j + 1..], v, e);
  }

  /** Counting does not depend on order. */
  lemma {:induction false} CountPermuted(s: seq<int>, t: seq<int>, v: int, e: bool)
    requires multiset(s) == multiset(t)
    ensures CountBelow(s, v, e) == CountBelow(t, v, e)
    decreases |s|
  {
    assert |s| == |multiset(s)| && |t| == |multiset(t)|;
    if s != [] {
      var x := s[|s| - 1];
      assert x in multiset(t);
      var j: nat :| j < |t| && t[j] == x;
      var s', t' := s[..|s| - 1], t[..j] + t[j + 1..];
      assert s == s' + [x];
      assert t == t[..j] + [x] + t[j + 1..];
      assert multiset(s) == multiset(s') + multiset{x};
      assert multiset(t) == multiset(t[..j]) + multiset{x} + multiset(t[j + 1..]);
      assert multiset(t) == multiset(t') + multiset{x};
      assert multiset(s') == multiset(s) - multiset{x};
      assert multiset(t') == multiset(t) - multiset{x};
      CountPermuted(s', t', v, e);
      CountRemove(t, j, v, e);
      CountRemove(s, |s| - 1, v, e);
      assert s[..|s| - 1] + s[|s|..] == s';
    }
  }

  lemma {:induction false} CountIsMonotone(s: seq<int>, u: int, v: int)
    requires u < v
    ensures CountBelow(s, u, true) <= CountBelow(s, v, false)
    decreases |s|
  {
    if s != [] {
      CountIsMonotone(s[..|s| - 1], u, v);
    }
  }

  /** There is only one value of a given rank, and rank order is value order. */
  lemma RankIsMonotone(s: seq<int>, r1: nat, v1: int, r2: nat, v2: int)
    requires IsRank(s, r1, v1) && IsRank(s, r2, v2) && r1 <= r2
    ensures v1 <= v2 && (r1 == r2 ==> v1 == v2)
  {
    if v2 < v1 {
      CountIsMonotone(s, v2, v1);
    } else if v1 < v2 {
      CountIsMonotone(s, v1, v2);
    }
  }

  predicate Sorted(s: seq<int>) {
    forall i, j :: 0 <= i < j < |s| ==> s[i] <= s[j]
  }

  lemma {:induction false} CountAllOrNone(s: seq<int>, v: int, e: bool)
    ensures (forall i :: 0 <= i < |s| ==> s[i] < v || (e && s[i] == v)) ==> CountBelow(s, v, e) == |s|
    ensures (forall i :: 0 <= i < |s| ==> s[i] > v || (!e && s[i] == v)) ==> CountBelow(s, v, e) == 0
    decreases |s|
  {
    if s != [] {
      CountAllOrNone(s[..|s| - 1], v, e);
    }
  }

  lemma FewBelow(s: seq<int>, r: nat)
    requires Sorted(s) && r < |s|
    ensures CountBelow(s, s[r], false) <= r
  {
  }

  lemma ManyUpTo(s: seq<int>, r: nat)
    requires Sorted(s) && r < |s|
    ensures CountBelow(s, s[r], true) > r
  {
    var a, b := s[..r + 1], s[r + 1..];
    assert s == a + b;
    CountConcat(a, b, s[r], true);
    CountAllOrNone(a, s[r], true);
  }

  lemma SortedHasRanks(s: seq<int>, r: nat)
    requires Sorted(s) && r < |s|
    ensures IsRank(s, r, s[r])
  {
    FewBelow(s, r);
    ManyUpTo(s, r);
  }

  lemma RankPermuted(s: seq<int>, t: seq<int>, r: nat, v: int)
    requires multiset(s) == multiset(t) && IsRank(s, r, v)
    ensures IsRank(t, r, v)
  {
    CountPermuted(s, t, v, false);
    CountPermuted(s, t, v, true);
    assert v in multiset(s);
  }

  // ---- the window as a rearrangement of the recent samples ----

  lemma PartialWindow(w: seq<int>, h: seq<int>)
    requires |w| == WINDOW && SlotsHoldNewest(w, h) && |h| <= WINDOW
    ensures w[..|h|] == h
  {
  }

  /** Once full, the window is the recent samples `older + newer`, turned round. */
  lemma FullWindow(w: seq<int>, h: seq<int>) returns (newer: seq<int>, older: seq<int>)
    requires |w| == WINDOW && SlotsHoldNewest(w, h) && |h| > WINDOW
    ensures w == newer + older && Recent(h) == older + newer
  {
    var n, p := |h|, |h| % WINDOW;
    newer, older := h[n - p..], h[n - WINDOW..n - p];
    forall i: nat | i < WINDOW
      ensures w[i] == (newer + older)[i]
    {
      var k := if i < p then n - p + i else n - WINDOW - p + i;
      assert k % |w| == i;
      assert w[k % |w|] == h[k];
    }
  }

  lemma WindowIsRecent(w: seq<int>, h: seq<int>)
    requires |w| == WINDOW && SlotsHoldNewest(w, h)
    ensures multiset(w[..Min(|h|, WINDOW)]) == multiset(Recent(h))
  {
    if |h| <= WINDOW {
      PartialWindow(w, h);
      assert Recent(h) == h;
    } else {
      var newer, older := FullWindow(w, h);
      assert w[..WINDOW] == w;
    }
  }

  // ---- the code ----

  /** Everything before position `i` is at most everything from it on. */
  predicate Splits(s: seq<int>, i: nat) {
    forall x, y :: 0 <= x < i <= y < |s| ==> s[x] <= s[y]
  }

  /** The inner loop of the sort has compared position `i` with everything up to `j`. */
  predicate LeastUpTo(s: seq<int>, i: nat, j: nat) {
    j <= |s| && forall k :: i < k < j ==> s[i] <= s[k]
  }

  lemma SwapKeepsOrder(s: seq<int>, i: nat, j: nat)
    requires i < j < |s| && s[i] > s[j] && Splits(s, i) && LeastUpTo(s, i, j)
    ensures var t := s[i := s[j]][j := s[i]];
            && t[..i] == s[..i] && Splits(t, i) && LeastUpTo(t, i, j + 1)
            && multiset(t) == multiset(s)
  {
  }

  lemma PassExtends(s: seq<int>, i: nat)
    requires i < |s| && Sorted(s[..i]) && Splits(s, i) && LeastUpTo(s, i, |s|)
    ensures Sorted(s[..i + 1]) && Splits(s, i + 1)
  {
  }

  method SwapSlots(a: array<int>, i: nat, j: nat, ghost count: nat)
    requires i < j < count <= a.Length
    modifies a
    ensures a[..count] == old(a[..count])[i := old(a[j])][j := old(a[i])]
  {
    var tmp := a[i];
    a[i] := a[j];
    a[j] := tmp;
  }

  method Pass(a: array<int>, i: nat, count: nat)
    requires i < count <= a.Length && Sorted(a[..count][..i]) && Splits(a[..count], i)
    modifies a
    ensures Sorted(a[..count][..i]) && Splits(a[..count], i) && LeastUpTo(a[..count], i, count)
    ensures multiset(a[..count]) == multiset(old(a[..count]))
  {
    var j := i + 1;
    while j < count
      invariant i < j <= count
      invariant Sorted(a[..count][..i]) && Splits(a[..count], i) && LeastUpTo(a[..count], i, j)
      invariant multiset(a[..count]) == multiset(old(a[..count]))
    {
      if a[i] > a[j] {
        SwapKeepsOrder(a[..count], i, j);
        SwapSlots(a, i, j, count);
      }
      j := j + 1;
    }
  }

  method SortPrefix(a: array<int>, count: nat)
    requires count <= a.Length
    modifies a
    ensures Sorted(a[..count])
    ensures multiset(a[..count]) == multiset(old(a[..count]))
  {
    var i := 0;
    while i < count - 1
      invariant 0 <= i <= count
      invariant i > 0 ==> i < count
      invariant Sorted(a[..count][..i]) && Splits(a[..count], i)
      invariant multiset(a[..count]) == multiset(old(a[..count]))
    {
      Pass(a, i, count);
      PassExtends(a[..count], i);
      i := i + 1;
    }
    if count > 0 {
      LastIsSorted(a[..count], i);
    }
  }

  lemma LastIsSorted(s: seq<int>, i: nat)
    requires i + 1 == |s| && Sorted(s[..i]) && Splits(s, i)
    ensures Sorted(s)
  {
  }

  class Latency {
    const window: array<int>
    var writeIdx: int
    var count: int
    ghost var history: seq<int>

    ghost predicate Valid()
      reads this, window
    {
      && window.Length == WINDOW
      && writeIdx == Wrap32(|history|)
      && count == Min(|history|, WINDOW)
      && SlotsHoldNewest(window[..], history)
    }

    constructor ()
      ensures Valid() && history == [] && fresh(window)
    {
      window := new int[WINDOW](_ => 0);
      writeIdx, count, history := 0, 0, [];
    }

    /** Outside IndexFits, first at call number 2^31 + 1, the C code stores before the array. */
    method Record(latencyUs: int)
      requires Valid() && IndexFits(|history|)
      modifies this, window
      ensures Valid() && history == old(history) + [latencyUs]
    {
      IndexInWindow(|history|);
      WrapStep(|history|);
      ghost var h, w := history, window[..];
      StoreKeepsNewest(w, h, latencyUs);
      var idx := Rem(writeIdx, WINDOW);
      writeIdx := Wrap32((writeIdx + 1) % WORD);
      window[idx] := latencyUs;
      assert window[..] == w[|h| % |w| := latencyUs];
      var oldCount := count;
      count := count + 1;
      if oldCount >= WINDOW {
        count := WINDOW;
      }
      history := history + [latencyUs];
    }

    method Percentiles() returns (p50: int, p99: int)
      requires Valid()
      ensures history == [] ==> p50 == 0 && p99 == 0
      ensures history != [] ==>
                var s := Recent(history);
                IsRank(s, |s| * 50 / 100, p50) && IsRank(s, |s| * 99 / 100, p99) && p50 <= p99
    {
      var n := count;
      if n > WINDOW {
        n := WINDOW;
      }
      if n == 0 {
        return 0, 0;
      }
      var local := new int[WINDOW];
      var i := 0;
      while i < n
        invariant 0 <= i <= n
        invariant local[..i] == window[..i]
      {
        local[i] := window[i];
        i := i + 1;
      }
      assert local[..n] == window[..][..n];
      WindowIsRecent(window[..], history);
      SortPrefix(local, n);
      p50 := local[n * 50 / 100];
      p99 := local[n * 99 / 100];
      ghost var s := local[..n];
      SortedHasRanks(s, n * 50 / 100);
      SortedHasRanks(s, n * 99 / 100);
      RankPermuted(s, Recent(history), n * 50 / 100, p50);
      RankPermuted(s, Recent(history), n * 99 / 100, p99);
      RankIsMonotone(s, n * 50 / 100, p50, n * 99 / 100, p99);
    }
  }
}

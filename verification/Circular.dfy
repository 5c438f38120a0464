/** Slots filled round-robin by an ever-growing log. */
module Circular {
  import opened Words32

  /** Each slot holds the newest stored item whose number has that residue. */
  ghost predicate SlotsHoldNewest<T>(slots: seq<T>, stored: seq<T>) {
    forall i: nat :: |stored| - |slots| <= i < |stored| && |slots| > 0 ==> slots[i % |slots|] == stored[i]
  }

  lemma {:induction false} StoreKeepsNewest<T>(slots: seq<T>, stored: seq<T>, x: T)
    requires |slots| > 0 && SlotsHoldNewest(slots, stored)
    ensures SlotsHoldNewest(slots[|stored| % |slots| := x], stored + [x])
  {
    var n, c := |stored|, |slots|;
    var slots', stored' := slots[n % c := x], stored + [x];
    forall i: nat | n + 1 - c <= i < n + 1
      ensures slots'[i % c] == stored'[i]
    {
      if i < n {
        ResiduesDistinct(c, i, n);
      }
    }
  }

  /** The largest number below `n` reached from `i` in steps of `c`. */
  function Newest(i: nat, n: nat, c: nat): (r: nat)
    requires i < n && c > 0
    ensures i <= r < n <= r + c
    ensures r == i <==> n <= i + c
    decreases n - i
  {
    if i + c >= n then i else Newest(i + c, n, c)
  }

  lemma {:induction false} NewestMeans(i: nat, n: nat, c: nat)
    requires i < n && c > 0
    ensures Newest(i, n, c) % c == i % c
    decreases n - i
  {
    if i + c < n {
      NewestMeans(i + c, n, c);
      ModAddMultiple(i, 1, c);
    }
  }
}

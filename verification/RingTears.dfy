/** The ring buffer once more, with the struct assignments into and out of a slot taking time: a
    store and a copy that overlap on one slot tear the item. */
module RingTears {
  import opened Words32
  import opened Circular
  import opened RingBuffer
  import opened RingRuns

  /** `base` changes when a store or a copy ends.  `torn` says that a store to its slot was under
      way at some moment of the copy in progress. */
  datatype Split<T> = Split(base: Sys<T>, storing: bool, copying: bool, torn: bool)

  /** Every step of RingRuns but the store and the copy is still one step.  A torn copy hands out
      `junk`, whatever that may be. */
  datatype Act<T> = Whole(a: Action<T>) | StoreBegins | StoreEnds | CopyBegins | CopyEnds(junk: T)

  function Start<T>(slots: seq<T>): Split<T> {
    Split(Init(slots), false, false, false)
  }

  predicate SameSlot<T>(k: nat, s: Sys<T>) {
    s.prod.PWriting? && s.cons.CReading? && And(s.prod.w, Mask(k)) == And(s.cons.r, Mask(k))
  }

  function SplitStep<T>(v: Variant, k: nat, s: Split<T>, a: Act<T>): (t: Split<T>)
    requires |s.base.slots| == Pow2(k)
    ensures |t.base.slots| == Pow2(k)
  {
    match a
    case Whole(b) => if b.PStore? || b.CCopy? then s else s.(base := Step(v, k, s.base, b))
    case StoreBegins =>
      if s.base.prod.PWriting? then
        s.(storing := true, torn := s.torn || (s.copying && SameSlot(k, s.base)))
      else s
    case StoreEnds => if s.storing then s.(base := Step(v, k, s.base, PStore), storing := false) else s
    case CopyBegins =>
      if s.base.cons.CReading? && !s.copying then
        s.(copying := true, torn := s.storing && SameSlot(k, s.base))
      else s
    case CopyEnds(junk) =>
      if !s.copying then s
      else
        Split(if s.torn then TornCopy(s.base, junk) else Step(v, k, s.base, CCopy), s.storing, false, false)
  }

  function TornCopy<T>(s: Sys<T>, junk: T): Sys<T> {
    if s.cons.CReading? then s.(cons := CCopied(s.cons.r, junk)) else s
  }

  function SplitRun<T>(v: Variant, k: nat, s: Split<T>, acts: seq<Act<T>>): (t: Split<T>)
    requires |s.base.slots| == Pow2(k)
    ensures |t.base.slots| == Pow2(k)
    decreases |acts|
  {
    if acts == [] then s else SplitStep(v, k, SplitRun(v, k, s, acts[..|acts| - 1]), acts[|acts| - 1])
  }

  // ---- what every run keeps ----

  /** How many items have been stored since, and with, the one being read. */
  function Lag<T>(s: Sys<T>): int {
    |s.stored| - s.R()
  }

  /** More than `capacity` items stored since, or just as many and another store under way. */
  ghost predicate Late<T>(k: nat, s: Split<T>) {
    Lag(s.base) > Pow2(k) || (Lag(s.base) == Pow2(k) && s.storing)
  }

  ghost predicate Overlaps<T>(k: nat, s: Split<T>) {
    && (s.storing ==> s.base.prod.PWriting?)
    && (s.copying ==> s.base.cons.CReading?)
    && (s.torn ==> s.copying && Late(k, s))
    && (s.storing && s.copying && SameSlot(k, s.base) ==> s.torn)
  }

  ghost predicate SplitInv<T>(k: nat, s: Split<T>) {
    Always(k, s.base) && Overlaps(k, s)
  }

  /** While both threads are at a slot, it is the same one only if at least `capacity` items have
      been stored since, and always if just as many have. */
  lemma {:induction false} SameSlotMeans<T>(k: nat, s: Sys<T>)
    requires Always(k, s) && s.prod.PWriting? && s.cons.CReading?
    ensures SameSlot(k, s) ==> Lag(s) >= Pow2(k)
    ensures Lag(s) == Pow2(k) ==> SameSlot(k, s)
  {
    var R, n, c := s.R(), |s.stored|, Pow2(k);
    WrapKeepsSlot(n, k);
    WrapKeepsSlot(R, k);
    if n < R + c {
      ResiduesDistinct(c, R, n);
    } else if n == R + c {
      ModAddMultiple(R, 1, c);
    }
  }

  lemma WholeLeaves<T>(v: Variant, k: nat, s: Sys<T>, a: Action<T>)
    requires |s.slots| == Pow2(k) && !a.PStore? && !a.CCopy?
    ensures var t := Step(v, k, s, a);
            && t.slots == s.slots && t.stored == s.stored
            && (s.prod.PWriting? ==> t.prod == s.prod)
            && (s.cons.CReading? ==> t.cons == s.cons && t.taken == s.taken)
  {
  }

  lemma {:induction false} BeginsKeepInv<T>(v: Variant, k: nat, s: Split<T>, a: Act<T>)
    requires SplitInv(k, s) && (a.StoreBegins? || a.CopyBegins?)
    ensures SplitInv(k, SplitStep(v, k, s, a))
  {
    if s.base.prod.PWriting? && s.base.cons.CReading? {
      SameSlotMeans(k, s.base);
    }
  }

  lemma {:induction false} EndsKeepInv<T>(v: Variant, k: nat, s: Split<T>, a: Act<T>)
    requires SplitInv(k, s) && (a.StoreEnds? || a.CopyEnds?)
    ensures SplitInv(k, SplitStep(v, k, s, a))
  {
    if a.StoreEnds? {
      AlwaysStep(v, k, s.base, PStore);
    } else {
      AlwaysStep(v, k, s.base, CCopy);
    }
  }

  lemma {:induction false} SplitStepKeepsInv<T>(v: Variant, k: nat, s: Split<T>, a: Act<T>)
    requires SplitInv(k, s)
    ensures SplitInv(k, SplitStep(v, k, s, a))
  {
    if a.Whole? {
      AlwaysStep(v, k, s.base, a.a);
      if !a.a.PStore? && !a.a.CCopy? { WholeLeaves(v, k, s.base, a.a); }
    } else if a.StoreBegins? || a.CopyBegins? {
      BeginsKeepInv(v, k, s, a);
    } else {
      EndsKeepInv(v, k, s, a);
    }
  }

  lemma {:induction false} SplitRunKeepsInv<T>(v: Variant, k: nat, slots: seq<T>, acts: seq<Act<T>>)
    requires k < 32 && |slots| == Pow2(k)
    ensures SplitInv(k, SplitRun(v, k, Start(slots), acts))
    decreases |acts|
  {
    if acts == [] {
      InitInv(k, slots);
    } else {
      var m := |acts| - 1;
      SplitRunKeepsInv(v, k, slots, acts[..m]);
      SplitStepKeepsInv(v, k, SplitRun(v, k, Start(slots), acts[..m]), acts[m]);
    }
  }

  /** A copy that is not torn finds the same item in its slot from its first moment to its last. */
  lemma {:induction false} UntornSlotIsSteady<T>(v: Variant, k: nat, s: Split<T>, a: Act<T>)
    requires SplitInv(k, s) && s.copying
    requires SplitStep(v, k, s, a).copying && !SplitStep(v, k, s, a).torn
    ensures var i, t := And(s.base.cons.r, Mask(k)), SplitStep(v, k, s, a);
            t.base.cons == s.base.cons && t.base.slots[i] == s.base.slots[i]
  {
    if a.Whole? && !a.a.PStore? && !a.a.CCopy? {
      WholeLeaves(v, k, s.base, a.a);
    }
    AndMaskIsMod(s.base.cons.r, k);
  }

  /** What a copy hands out, in every run of either variant: junk if a store to its slot overlapped
      it, else the newest stored item of its residue; its own item exactly if it is not late. */
  lemma {:induction false} CopyHandsOut<T>(v: Variant, k: nat, s: Split<T>, junk: T)
    requires SplitInv(k, s) && s.copying
    ensures var n := Newest(s.base.R(), |s.base.stored|, Pow2(k));
            && n < |s.base.stored|
            && SplitStep(v, k, s, CopyEnds(junk)).base
               == TornCopy(s.base, if s.torn then junk else s.base.stored[n])
            && (!s.torn && n == s.base.R() <==> !Late(k, s))
  {
    CopyReadsNewest(k, s.base);
    if s.base.prod.PWriting? {
      SameSlotMeans(k, s.base);
    }
  }

  // ---- exactly which runs are FIFO ----

  /** The items handed out so far, with the one a read has just copied. */
  function HandedOut<T>(s: Sys<T>): seq<T> {
    s.taken + if s.cons.CCopied? then [s.cons.item] else []
  }

  ghost predicate InOrder<T>(s: Sys<T>) {
    HandedOut(s) <= s.stored
  }

  ghost predicate AllDistinct<T(!new)>(xs: seq<T>) {
    forall i, j :: 0 <= i < j < |xs| ==> xs[i] != xs[j]
  }

  /** No torn copy happens to look like a stored item. */
  ghost predicate JunkIsForeign<T(!new)>(acts: seq<Act<T>>, stored: seq<T>) {
    forall i :: 0 <= i < |acts| && acts[i].CopyEnds? ==> acts[i].junk !in stored
  }

  /** A copy ends with fewer than `capacity` items stored since its own, or just as many and no
      store under way. */
  ghost predicate InTime<T>(k: nat, s: Split<T>, a: Act<T>) {
    a.CopyEnds? && s.copying ==> !Late(k, s)
  }

  ghost predicate RunInTime<T>(v: Variant, k: nat, s: Split<T>, acts: seq<Act<T>>)
    requires |s.base.slots| == Pow2(k)
    decreases |acts|
  {
    acts != [] ==>
      var m := |acts| - 1;
      RunInTime(v, k, s, acts[..m]) && InTime(k, SplitRun(v, k, s, acts[..m]), acts[m])
  }

  lemma HandedOutFits<T>(s: Sys<T>)
    requires Words(s) && Threads(s)
    ensures |HandedOut(s)| <= |s.stored|
  {
  }

  /** Only the end of a copy hands anything out. */
  lemma {:induction false} OtherStepsHandNothingOut<T>(v: Variant, k: nat, s: Split<T>, a: Act<T>)
    requires SplitInv(k, s) && !(a.CopyEnds? && s.copying)
    ensures var t := SplitStep(v, k, s, a);
            HandedOut(t.base) == HandedOut(s.base) && s.base.stored <= t.base.stored
  {
  }

  lemma {:induction false} OrderStep<T(!new)>(v: Variant, k: nat, s: Split<T>, a: Act<T>)
    requires SplitInv(k, s)
    ensures var t := SplitStep(v, k, s, a);
            InOrder(s.base) && InTime(k, s, a) ==> InOrder(t.base)
    ensures var t := SplitStep(v, k, s, a);
            AllDistinct(t.base.stored) && (a.CopyEnds? ==> a.junk !in t.base.stored) && InOrder(t.base)
            ==> InOrder(s.base) && InTime(k, s, a)
  {
    var t := SplitStep(v, k, s, a);
    if a.CopyEnds? && s.copying {
      var R := s.base.R();
      CopyHandsOut(v, k, s, a.junk);
      assert HandedOut(s.base) == s.base.taken;
      assert HandedOut(t.base) == s.base.taken + [t.base.cons.item];
      if InOrder(t.base) {
        assert t.base.stored[R] == HandedOut(t.base)[R] == t.base.cons.item;
        assert s.base.taken == HandedOut(t.base)[..R];
      }
    } else {
      OtherStepsHandNothingOut(v, k, s, a);
      HandedOutFits(s.base);
    }
  }

  lemma StoredGrows<T>(v: Variant, k: nat, s: Split<T>, a: Act<T>)
    requires |s.base.slots| == Pow2(k)
    ensures s.base.stored <= SplitStep(v, k, s, a).base.stored
  {
  }

  /** MAIN, exactly which runs are FIFO, for either variant: if every copy is in time, the items
      handed out are the stored ones in order, whatever torn copies would yield; and if the items
      can be told apart, only then. */
  lemma {:induction false} FifoIffInTime<T(!new)>(v: Variant, k: nat, slots: seq<T>, acts: seq<Act<T>>)
    requires k < 32 && |slots| == Pow2(k)
    ensures var s := SplitRun(v, k, Start(slots), acts).base;
            && (RunInTime(v, k, Start(slots), acts) ==> InOrder(s))
            && (AllDistinct(s.stored) && JunkIsForeign(acts, s.stored) && InOrder(s) ==>
                  RunInTime(v, k, Start(slots), acts))
    decreases |acts|
  {
    if acts != [] {
      var m := |acts| - 1;
      var s := SplitRun(v, k, Start(slots), acts[..m]);
      SplitRunKeepsInv(v, k, slots, acts[..m]);
      StoredGrows(v, k, s, acts[m]);
      FifoIffInTime(v, k, slots, acts[..m]);
      OrderStep(v, k, s, acts[m]);
    }
  }

  // ---- runs whose tests decide correctly never tear ----

  ghost predicate ActExact<T>(v: Variant, k: nat, s: Split<T>, a: Act<T>) {
    a.Whole? ==> TestExact(v, k, s.base, a.a)
  }

  ghost predicate SplitExact<T>(v: Variant, k: nat, s: Split<T>, acts: seq<Act<T>>)
    requires |s.base.slots| == Pow2(k)
  {
    forall n: nat :: n < |acts| ==> ActExact(v, k, SplitRun(v, k, s, acts[..n]), acts[n])
  }

  lemma NeverSameSlot<T>(k: nat, s: Sys<T>)
    requires Inv(k, s)
    ensures !SameSlot(k, s)
  {
    if s.prod.PWriting? && s.cons.CReading? {
      WriterSlotIsFree(k, s, s.R());
    }
  }

  lemma {:induction false} ExactStepNeverTears<T>(v: Variant, k: nat, s: Split<T>, a: Act<T>)
    requires Inv(k, s.base) && !s.torn && ActExact(v, k, s, a)
    ensures var t := SplitStep(v, k, s, a);
            Inv(k, t.base) && !t.torn
  {
    NeverSameSlot(k, s.base);
    match a
    case Whole(b) => FifoStep(v, k, s.base, b);
    case StoreEnds => FifoStep(v, k, s.base, PStore);
    case CopyEnds(_) => FifoStep(v, k, s.base, CCopy);
    case _ =>
  }

  lemma {:induction false} ExactRunNeverTears<T>(v: Variant, k: nat, slots: seq<T>, acts: seq<Act<T>>)
    requires k < 32 && |slots| == Pow2(k) && SplitExact(v, k, Start(slots), acts)
    ensures var s := SplitRun(v, k, Start(slots), acts);
            Inv(k, s.base) && !s.torn
    decreases |acts|
  {
    if acts == [] {
      InitInv(k, slots);
    } else {
      var m := |acts| - 1;
      assert forall n: nat :: n < m ==> acts[..m][..n] == acts[..n];
      ExactRunNeverTears(v, k, slots, acts[..m]);
      ExactStepNeverTears(v, k, SplitRun(v, k, Start(slots), acts[..m]), acts[m]);
    }
  }

  /** MAIN, intended code: no copy is ever torn, and in every interleaving the reads are a prefix of
      the writes with at most capacity - 1 items held. */
  lemma MaskedNeverTears<T>(k: nat, slots: seq<T>, acts: seq<Act<T>>)
    requires k < 32 && |slots| == Pow2(k)
    ensures var s := SplitRun(Masked, k, Start(slots), acts);
            && !s.torn
            && s.base.R() <= s.base.W() <= s.base.R() + Mask(k)
            && s.base.taken == s.base.stored[..s.base.R()]
  {
    ExactRunNeverTears(Masked, k, slots, acts);
  }

  /** Code as written: the same while every test sees a read index at most the mask or a buffer
      that does not look full. */
  lemma {:induction false} AsWrittenNeverTears<T>(k: nat, slots: seq<T>, acts: seq<Act<T>>)
    requires k < 32 && |slots| == Pow2(k) && SplitExact(AsWritten, k, Start(slots), acts)
    ensures var s := SplitRun(AsWritten, k, Start(slots), acts);
            && !s.torn
            && s.base.R() <= s.base.W() <= s.base.R() + Mask(k)
            && s.base.taken == s.base.stored[..s.base.R()]
  {
    ExactRunNeverTears(AsWritten, k, slots, acts);
  }

  lemma {:induction false} TakenGrowsByStep<T>(v: Variant, k: nat, s: Split<T>, a: Act<T>)
    requires |s.base.slots| == Pow2(k)
    ensures s.base.R() <= SplitStep(v, k, s, a).base.R()
  {
  }

  lemma {:induction false} SplitTakenGrows<T>(v: Variant, k: nat, s: Split<T>, acts: seq<Act<T>>, n: nat)
    requires |s.base.slots| == Pow2(k) && n <= |acts|
    ensures SplitRun(v, k, s, acts[..n]).base.R() <= SplitRun(v, k, s, acts).base.R()
    decreases |acts|
  {
    if n < |acts| {
      var m := |acts| - 1;
      assert acts[..m][..n] == acts[..n];
      SplitTakenGrows(v, k, s, acts[..m], n);
      TakenGrowsByStep(v, k, SplitRun(v, k, s, acts[..m]), acts[m]);
    } else {
      assert acts[..n] == acts;
    }
  }

  /** In particular until the consumer has finished its mask-th read. */
  lemma {:induction false} AsWrittenNeverTearsAtFirst<T>(k: nat, slots: seq<T>, acts: seq<Act<T>>)
    requires k < 32 && |slots| == Pow2(k)
    requires SplitRun(AsWritten, k, Start(slots), acts).base.R() <= Mask(k)
    ensures var s := SplitRun(AsWritten, k, Start(slots), acts);
            && !s.torn
            && s.base.R() <= s.base.W() <= s.base.R() + Mask(k)
            && s.base.taken == s.base.stored[..s.base.R()]
  {
    forall n: nat | n < |acts|
      ensures ActExact(AsWritten, k, SplitRun(AsWritten, k, Start(slots), acts[..n]), acts[n])
    {
      var s := SplitRun(AsWritten, k, Start(slots), acts[..n]);
      SplitRunKeepsInv(AsWritten, k, slots, acts[..n]);
      SplitTakenGrows(AsWritten, k, Start(slots), acts, n);
      if acts[n].Whole? {
        SmallIndexIsExact(k, s.base, acts[n].a);
      }
    }
    AsWrittenNeverTears(k, slots, acts);
  }

  // ---- a run that tears ----

  /** A run of whole stores and copies as a run of this module. */
  function Parts<T>(acts: seq<Action<T>>, junk: T): seq<Act<T>> {
    if acts == [] then []
    else
      var a := acts[|acts| - 1];
      Parts(acts[..|acts| - 1], junk) +
      if a.PStore? then [StoreBegins, StoreEnds] else if a.CCopy? then [CopyBegins, CopyEnds(junk)] else [Whole(a)]
  }

  lemma SplitRunSnoc<T>(v: Variant, k: nat, s: Split<T>, acts: seq<Act<T>>, a: Act<T>)
    requires |s.base.slots| == Pow2(k)
    ensures SplitRun(v, k, s, acts + [a]) == SplitStep(v, k, SplitRun(v, k, s, acts), a)
  {
    assert (acts + [a])[..|acts|] == acts;
  }

  lemma {:induction false} SplitRunSnocTwo<T>(v: Variant, k: nat, s: Split<T>, acts: seq<Act<T>>, a: Act<T>, b: Act<T>)
    requires |s.base.slots| == Pow2(k)
    ensures SplitRun(v, k, s, acts + [a, b]) == SplitStep(v, k, SplitStep(v, k, SplitRun(v, k, s, acts), a), b)
  {
    SplitRunSnoc(v, k, s, acts, a);
    SplitRunSnoc(v, k, s, acts + [a], b);
    assert acts + [a, b] == acts + [a] + [b];
  }

  /** Every run of RingRuns is a run of this module in which nothing overlaps. */
  lemma {:induction false} WholeRunIsSplitRun<T>(v: Variant, k: nat, s: Sys<T>, acts: seq<Action<T>>, junk: T)
    requires |s.slots| == Pow2(k)
    ensures SplitRun(v, k, Split(s, false, false, false), Parts(acts, junk))
         == Split(Run(v, k, s, acts), false, false, false)
    decreases |acts|
  {
    if acts != [] {
      var m, s0 := |acts| - 1, Split(s, false, false, false);
      var a, before := acts[m], Parts(acts[..m], junk);
      WholeRunIsSplitRun(v, k, s, acts[..m], junk);
      if a.PStore? {
        SplitRunSnocTwo(v, k, s0, before, StoreBegins, StoreEnds);
      } else if a.CCopy? {
        SplitRunSnocTwo(v, k, s0, before, CopyBegins, CopyEnds(junk));
      } else {
        SplitRunSnoc(v, k, s0, before, Whole(a));
      }
    }
  }

  lemma {:induction false} RunThree<T>(v: Variant, k: nat, s: Sys<T>, a: Action<T>, b: Action<T>, c: Action<T>)
    requires |s.slots| == Pow2(k)
    ensures Run(v, k, s, [a, b, c]) == Step(v, k, Step(v, k, Step(v, k, s, a), b), c)
  {
    RunSnoc(v, k, s, [], a);
    RunSnoc(v, k, s, [a], b);
    RunSnoc(v, k, s, [a, b], c);
    assert [] + [a] == [a];
    assert [a] + [b] == [a, b];
    assert [a, b] + [c] == [a, b, c];
  }

  lemma {:induction false} ProducerArrives<T>(k: nat, m: Sys<T>, y: T)
    requires Always(k, m) && m.prod.PIdle? && m.r > Mask(k)
    ensures Run(AsWritten, k, m, [PCall(y), PLoadOther, PTest]) == m.(prod := PWriting(y, m.w), seenR := m.R())
  {
    RunThree(AsWritten, k, m, PCall(y), PLoadOther, PTest);
    AndOfSmall(Inc(m.w), k);
  }

  lemma {:induction false} ConsumerArrives<T>(v: Variant, k: nat, s: Sys<T>)
    requires Always(k, s) && s.cons.CIdle? && s.R() < s.W() < s.R() + WORD
    ensures Run(v, k, s, [CCall, CLoadOther, CTest]) == s.(cons := CReading(s.r), seenW := s.W())
  {
    RunThree(v, k, s, CCall, CLoadOther, CTest);
    ReadIsNotRefused(v, k, s);
  }

  /** The producer, then the consumer, on the way to a slot. */
  function BothArrive<T>(y: T): seq<Action<T>> {
    [PCall(y), PLoadOther, PTest] + [CCall, CLoadOther, CTest]
  }

  lemma {:induction false} TheyMeet<T>(k: nat, m: Sys<T>, y: T)
    requires Always(k, m) && m.prod.PIdle? && m.cons.CIdle?
    requires m.r > Mask(k) && m.W() == m.R() + Pow2(k)
    ensures var s := Run(AsWritten, k, m, BothArrive(y));
            && Always(k, s) && s.stored == m.stored && s.taken == m.taken && SameSlot(k, s)
  {
    var p := m.(prod := PWriting(y, m.w), seenR := m.R());
    WordsExceedCapacity(k);
    ProducerArrives(k, m, y);
    RunConcat(AsWritten, k, m, [PCall(y), PLoadOther, PTest], [CCall, CLoadOther, CTest]);
    ConsumerArrives(AsWritten, k, p);
    RunKeepsAlways(AsWritten, k, m, BothArrive(y));
    SameSlotMeans(k, Run(AsWritten, k, m, BothArrive(y)));
  }

  /** A store and a copy of one slot, the copy inside the store. */
  lemma {:induction false} CopyInsideStore<T>(v: Variant, k: nat, s: Sys<T>, junk: T)
    requires |s.slots| == Pow2(k) && SameSlot(k, s)
    ensures SplitRun(v, k, Split(s, false, false, false), [StoreBegins, CopyBegins] + [CopyEnds(junk)])
         == Split(TornCopy(s, junk), true, false, false)
  {
    var s0 := Split(s, false, false, false);
    var both: seq<Act<T>> := [StoreBegins, CopyBegins];
    SplitRunSnocTwo(v, k, s0, [], StoreBegins, CopyBegins);
    assert [] + both == both;
    SplitRunSnoc(v, k, s0, both, CopyEnds(junk));
  }

  lemma {:induction false} SplitRunConcat<T>(v: Variant, k: nat, s: Split<T>, a: seq<Act<T>>, b: seq<Act<T>>)
    requires |s.base.slots| == Pow2(k)
    ensures SplitRun(v, k, s, a + b) == SplitRun(v, k, SplitRun(v, k, s, a), b)
    decreases |b|
  {
    if b == [] {
      assert a + b == a;
    } else {
      var m := |b| - 1;
      SplitRunConcat(v, k, s, a, b[..m]);
      assert (a + b)[..|a + b| - 1] == a + b[..m];
    }
  }

  /** `capacity` items written and read, as many written again, and both threads meet. */
  function Meeting<T>(c: nat, x: T): seq<Action<T>> {
    Cycles(c, x) + WritesOf(Copies(c, x)) + BothArrive(x)
  }

  lemma {:induction false} MeetingHappens<T>(k: nat, slots: seq<T>, x: T)
    requires 0 < k < 32 && |slots| == Pow2(k)
    ensures var c := Pow2(k);
            var s := Run(AsWritten, k, Init(slots), Meeting(c, x));
            && SameSlot(k, s) && Always(k, s)
            && s.taken == Copies(c, x) && s.stored == Copies(c, x) + Copies(c, x)
  {
    var c := Pow2(k);
    var m := Run(AsWritten, k, Init(slots), Cycles(c, x));
    WordsExceedCapacity(k);
    CyclesStayInStep(k, slots, c, x);
    BurstIsAccepted(k, m, Copies(c, x));
    RunConcat(AsWritten, k, Init(slots), Cycles(c, x), WritesOf(Copies(c, x)));
    RunConcat(AsWritten, k, Init(slots), Cycles(c, x) + WritesOf(Copies(c, x)), BothArrive(x));
    TheyMeet(k, Run(AsWritten, k, m, WritesOf(Copies(c, x))), x);
  }

  /** For every capacity from 2 up, the code as written has a run, only `x` ever written, whose
      last read hands out any `junk` there is: the copy overlaps a store to its slot, while no
      more than `capacity` items have been stored since. */
  lemma {:induction false} CopyCanTear<T>(k: nat, slots: seq<T>, x: T, junk: T) returns (acts: seq<Act<T>>)
    requires 0 < k < 32 && |slots| == Pow2(k)
    ensures var s := SplitRun(AsWritten, k, Start(slots), acts).base;
            && Lag(s) == Pow2(k) && s.stored == Copies(Pow2(k), x) + Copies(Pow2(k), x)
            && HandedOut(s) == Copies(Pow2(k), x) + [junk]
  {
    var before := Parts(Meeting(Pow2(k), x), junk);
    var s := Run(AsWritten, k, Init(slots), Meeting(Pow2(k), x));
    MeetingHappens(k, slots, x);
    WholeRunIsSplitRun(AsWritten, k, Init(slots), Meeting(Pow2(k), x), junk);
    CopyInsideStore(AsWritten, k, s, junk);
    SplitRunConcat(AsWritten, k, Start(slots), before, [StoreBegins, CopyBegins] + [CopyEnds(junk)]);
    acts := before + ([StoreBegins, CopyBegins] + [CopyEnds(junk)]);
  }
}

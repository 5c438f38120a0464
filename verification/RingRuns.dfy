/** Every interleaving of one producer and one consumer of the ring buffer, at the
    granularity of single atomic steps.  Atomic loads and stores are taken as sequentially
    consistent. */
module RingRuns {
  import opened Words32
  import opened Circular
  import opened RingBuffer

  // Where each thread is inside its call; the fields are its local variables.
  datatype Producer<T> =
    | PIdle
    | PGotOwn(item: T, w: u32)
    | PGotBoth(item: T, w: u32, r: u32)
    | PWriting(item: T, w: u32)
    | PStored(w: u32)

  datatype Consumer<T> =
    | CIdle
    | CGotOwn(r: u32)
    | CGotBoth(r: u32, w: u32)
    | CReading(r: u32)
    | CCopied(r: u32, item: T)

  /** Shared memory, the two threads, and history: `stored` lists every item put into a slot,
      `taken` every item a finished read handed out; `seenR` and `seenW` are the unbounded
      values behind the last index each thread loaded from the other. */
  datatype Sys<T> = Sys(
    w: u32, r: u32, slots: seq<T>,
    prod: Producer<T>, cons: Consumer<T>,
    stored: seq<T>, taken: seq<T>, seenR: nat, seenW: nat)
  {
    /** Completed writes. */
    function W(): int {
      if prod.PStored? then |stored| - 1 else |stored|
    }

    /** Completed reads. */
    function R(): nat {
      |taken|
    }
  }

  datatype Action<T> =
    | PCall(item: T) | PLoadOther | PTest | PStore | PPublish
    | CCall | CLoadOther | CTest | CCopy | CPublish

  function Mask(k: nat): nat {
    Pow2(k) - 1
  }

  function Init<T>(slots: seq<T>): Sys<T> {
    Sys(0, 0, slots, PIdle, CIdle, [], [], 0, 0)
  }

  /** One atomic step; a step the thread is not ready for changes nothing. */
  function Step<T>(v: Variant, k: nat, s: Sys<T>, a: Action<T>): (t: Sys<T>)
    requires |s.slots| == Pow2(k)
    ensures |t.slots| == Pow2(k)
  {
    match a
    case PCall(x) => if s.prod.PIdle? then s.(prod := PGotOwn(x, s.w)) else s
    case PLoadOther =>
      if s.prod.PGotOwn? then s.(prod := PGotBoth(s.prod.item, s.prod.w, s.r), seenR := s.R()) else s
    case PTest =>
      if s.prod.PGotBoth? then
        s.(prod := if FullTest(v, Mask(k), s.prod.w, s.prod.r) then PIdle
        else PWriting(s.prod.item, s.prod.w))
      else s
    case PStore =>
      if s.prod.PWriting? then
        s.(slots := s.slots[And(s.prod.w, Mask(k)) := s.prod.item],
        stored := s.stored + [s.prod.item], prod := PStored(s.prod.w))
      else s
    case PPublish => if s.prod.PStored? then s.(w := Inc(s.prod.w), prod := PIdle) else s
    case CCall => if s.cons.CIdle? then s.(cons := CGotOwn(s.r)) else s
    case CLoadOther =>
      if s.cons.CGotOwn? && s.W() >= 0 then s.(cons := CGotBoth(s.cons.r, s.w), seenW := s.W()) else s
    case CTest =>
      if s.cons.CGotBoth? then s.(cons := if s.cons.r == s.cons.w then CIdle else CReading(s.cons.r)) else s
    case CCopy =>
      if s.cons.CReading? then s.(cons := CCopied(s.cons.r, s.slots[And(s.cons.r, Mask(k))])) else s
    case CPublish =>
      if s.cons.CCopied? then
        s.(r := Inc(s.cons.r), taken := s.taken + [s.cons.item], cons := CIdle)
      else s
  }

  function Run<T>(v: Variant, k: nat, s: Sys<T>, acts: seq<Action<T>>): (t: Sys<T>)
    requires |s.slots| == Pow2(k)
    ensures |t.slots| == Pow2(k)
    decreases |acts|
  {
    if acts == [] then s else Step(v, k, Run(v, k, s, acts[..|acts| - 1]), acts[|acts| - 1])
  }

  // ---- what every run of either variant keeps ----

  ghost predicate Words<T>(s: Sys<T>) {
    && s.W() >= s.R()
    && s.w == s.W() % WORD
    && s.r == s.R() % WORD
  }

  ghost predicate Threads<T>(s: Sys<T>) {
    && (match s.prod
        case PIdle => true
        case PGotOwn(_, w) => w == s.w
        case PGotBoth(_, w, r) => w == s.w && r == s.seenR % WORD && s.seenR <= s.R()
        case PWriting(_, w) => w == s.w
        case PStored(w) => w == s.w)
    && (match s.cons
        case CIdle => true
        case CGotOwn(r) => r == s.r
        case CGotBoth(r, w) => r == s.r && w == s.seenW % WORD && s.R() <= s.seenW <= s.W()
        case CReading(r) => r == s.r && s.R() < s.W()
        case CCopied(r, _) => r == s.r && s.R() < s.W())
  }

  ghost predicate Always<T>(k: nat, s: Sys<T>) {
    k < 32 && |s.slots| == Pow2(k) && Words(s) && Threads(s) && SlotsHoldNewest(s.slots, s.stored)
  }

  lemma StoreKeepsAlways<T>(v: Variant, k: nat, s: Sys<T>)
    requires Always(k, s) && s.prod.PWriting?
    ensures Always(k, Step(v, k, s, PStore))
  {
    WrapKeepsSlot(|s.stored|, k);
    StoreKeepsNewest(s.slots, s.stored, s.prod.item);
  }

  lemma PublishKeepsAlways<T>(v: Variant, k: nat, s: Sys<T>)
    requires Always(k, s)
    ensures Always(k, Step(v, k, s, PPublish)) && Always(k, Step(v, k, s, CPublish))
  {
    if s.prod.PStored? { IncWraps(|s.stored| - 1); }
    if s.cons.CCopied? { IncWraps(s.R()); }
  }

  lemma {:induction false} AlwaysStep<T>(v: Variant, k: nat, s: Sys<T>, a: Action<T>)
    requires Always(k, s)
    ensures Always(k, Step(v, k, s, a))
  {
    if a.PStore? && s.prod.PWriting? {
      StoreKeepsAlways(v, k, s);
    } else if a.PPublish? || a.CPublish? {
      PublishKeepsAlways(v, k, s);
    }
  }

  /** The item a copy step reads, in every run of either variant: the newest stored one whose
      number is congruent to the read number.  It is the right one exactly when no more than
      `capacity` items have been stored since. */
  lemma {:induction false} CopyReadsNewest<T>(k: nat, s: Sys<T>)
    requires Always(k, s) && s.cons.CReading?
    ensures var n := Newest(s.R(), |s.stored|, Pow2(k));
            && n < |s.stored|
            && s.slots[And(s.cons.r, Mask(k))] == s.stored[n]
            && (n == s.R() <==> |s.stored| - s.R() <= Pow2(k))
  {
    NewestMeans(s.R(), |s.stored|, Pow2(k));
    WrapKeepsSlot(s.R(), k);
  }

  // ---- FIFO ----

  /** Nothing lost, duplicated or reordered; one slot always free. */
  ghost predicate Fifo<T>(k: nat, s: Sys<T>) {
    && s.R() <= s.W() <= s.R() + Mask(k)
    && s.taken == s.stored[..s.R()]
    && (s.prod.PGotBoth? ==> s.W() - s.seenR <= Mask(k))
    && (s.prod.PWriting? || s.prod.PStored? ==> s.W() - s.R() < Mask(k))
    && (s.cons.CCopied? ==> s.R() < |s.stored| && s.cons.item == s.stored[s.R()])
  }

  ghost predicate Inv<T>(k: nat, s: Sys<T>) {
    Always(k, s) && Fifo(k, s)
  }

  lemma {:induction false} NextHitsReader(c: nat, W: nat, R: nat)
    requires c > 0 && R <= W < R + c
    ensures (W + 1) % c == R % c <==> W + 1 - R == c
  {
    if W + 1 - R < c {
      ResiduesDistinct(c, R, W + 1);
    } else {
      ModAddMultiple(R, 1, c);
    }
  }

  lemma AndOfSmall(x: nat, k: nat)
    ensures And(x, Mask(k)) <= Mask(k)
    ensures x <= Mask(k) ==> And(x, Mask(k)) == x
  {
    AndMaskIsMod(x, k);
    if x <= Mask(k) { ModUnique(x, Pow2(k), 0, x); }
  }

  lemma {:induction false} IncSlot(k: nat, W: nat)
    requires k < 32
    ensures And(Inc(W % WORD), Mask(k)) == (W + 1) % Pow2(k)
  {
    IncWraps(W);
    WrapKeepsSlot(W + 1, k);
  }

  lemma FullTestIs(v: Variant, k: nat, w: u32, r: u32)
    ensures FullTest(v, Mask(k), w, r) <==>
            And(Inc(w), Mask(k)) == And(r, Mask(k)) && (v.Masked? || r <= Mask(k))
  {
    AndOfSmall(r, k);
    AndOfSmall(Inc(w), k);
  }

  /** The full test against the truth, `W - R == mask`: the masked test is exact, the one as
      written is exact only while the read index is at most the mask. */
  lemma FullTestMeans(v: Variant, k: nat, W: nat, R: nat)
    requires k < 32 && R <= W <= R + Mask(k)
    ensures FullTest(v, Mask(k), W % WORD, R % WORD)
       <==> W - R == Mask(k) && (v.Masked? || R % WORD <= Mask(k))
  {
    IncSlot(k, W);
    WrapKeepsSlot(R, k);
    NextHitsReader(Pow2(k), W, R);
    FullTestIs(v, k, W % WORD, R % WORD);
  }

  /** The test step of the code as written decides correctly: either the loaded read index is
      at most the mask, or the buffer does not look full. */
  ghost predicate TestExact<T>(v: Variant, k: nat, s: Sys<T>, a: Action<T>) {
    a.PTest? && s.prod.PGotBoth? && v.AsWritten? ==>
      s.prod.r <= Mask(k) || Minus(s.prod.w, s.prod.r) != Mask(k)
  }

  lemma WordsExceedCapacity(k: nat)
    requires k < 32
    ensures 2 * Pow2(k) <= WORD
  {
    Pow2Word();
    Pow2Monotone(k + 1, 32);
  }

  lemma DistanceIsExact(k: nat, W: nat, R: nat)
    requires k < 32 && R <= W <= R + Mask(k)
    ensures Minus(W % WORD, R % WORD) == W - R
  {
    WordsExceedCapacity(k);
    MinusExact(W, R);
  }

  /** The code as written decides as the intended one exactly at the steps TestExact names. */
  lemma DecidesAsIntended<T>(k: nat, s: Sys<T>)
    requires Inv(k, s) && s.prod.PGotBoth?
    ensures Step(AsWritten, k, s, PTest) == Step(Masked, k, s, PTest) <==> TestExact(AsWritten, k, s, PTest)
  {
    FullTestMeans(AsWritten, k, s.W(), s.seenR);
    FullTestMeans(Masked, k, s.W(), s.seenR);
    DistanceIsExact(k, s.W(), s.seenR);
  }

  lemma {:induction false} FifoStep<T>(v: Variant, k: nat, s: Sys<T>, a: Action<T>)
    requires Inv(k, s) && TestExact(v, k, s, a)
    ensures Inv(k, Step(v, k, s, a))
  {
    AlwaysStep(v, k, s, a);
    match a
    case PTest =>
      if s.prod.PGotBoth? {
        FullTestMeans(v, k, s.W(), s.seenR);
        DistanceIsExact(k, s.W(), s.seenR);
      }
    case CCopy =>
      if s.cons.CReading? {
        WrapKeepsSlot(s.R(), k);
        assert s.stored[s.R()] == s.slots[s.R() % Pow2(k)];
      }
    case _ =>
  }

  ghost predicate RunExact<T>(v: Variant, k: nat, s: Sys<T>, acts: seq<Action<T>>)
    requires |s.slots| == Pow2(k)
  {
    forall n: nat :: n < |acts| ==> TestExact(v, k, Run(v, k, s, acts[..n]), acts[n])
  }

  lemma {:induction false} RunKeepsAlways<T>(v: Variant, k: nat, s: Sys<T>, acts: seq<Action<T>>)
    requires Always(k, s)
    ensures Always(k, Run(v, k, s, acts))
    decreases |acts|
  {
    if acts != [] {
      RunKeepsAlways(v, k, s, acts[..|acts| - 1]);
      AlwaysStep(v, k, Run(v, k, s, acts[..|acts| - 1]), acts[|acts| - 1]);
    }
  }

  lemma {:induction false} RunKeepsInv<T>(v: Variant, k: nat, s: Sys<T>, acts: seq<Action<T>>)
    requires Inv(k, s) && RunExact(v, k, s, acts)
    ensures Inv(k, Run(v, k, s, acts))
    decreases |acts|
  {
    if acts != [] {
      var n := |acts| - 1;
      forall m: nat | m < n
        ensures TestExact(v, k, Run(v, k, s, acts[..n][..m]), acts[..n][m])
      {
        assert acts[..n][..m] == acts[..m];
      }
      RunKeepsInv(v, k, s, acts[..n]);
      FifoStep(v, k, Run(v, k, s, acts[..n]), acts[n]);
    }
  }

  lemma InitInv<T>(k: nat, slots: seq<T>)
    requires k < 32 && |slots| == Pow2(k)
    ensures Inv(k, Init(slots))
  {
  }

  /** MAIN, intended code: in every interleaving the reads are a prefix of the writes, and at
      most capacity - 1 items are held. */
  lemma MaskedIsFifo<T>(k: nat, slots: seq<T>, acts: seq<Action<T>>)
    requires k < 32 && |slots| == Pow2(k)
    ensures var s := Run(Masked, k, Init(slots), acts);
            s.R() <= s.W() <= s.R() + Mask(k) && s.taken == s.stored[..s.R()]
  {
    InitInv(k, slots);
    RunKeepsInv(Masked, k, Init(slots), acts);
  }

  /** MAIN, code as written: the same in every interleaving whose test steps all decide with a
      read index at most the mask or on a buffer that does not look full. */
  lemma {:induction false} AsWrittenIsFifo<T>(k: nat, slots: seq<T>, acts: seq<Action<T>>)
    requires k < 32 && |slots| == Pow2(k) && RunExact(AsWritten, k, Init(slots), acts)
    ensures var s := Run(AsWritten, k, Init(slots), acts);
            s.R() <= s.W() <= s.R() + Mask(k) && s.taken == s.stored[..s.R()]
  {
    InitInv(k, slots);
    RunKeepsInv(AsWritten, k, Init(slots), acts);
  }

  lemma {:induction false} TakenGrows<T>(v: Variant, k: nat, s: Sys<T>, acts: seq<Action<T>>, n: nat)
    requires |s.slots| == Pow2(k) && n <= |acts|
    ensures Run(v, k, s, acts[..n]).R() <= Run(v, k, s, acts).R()
    decreases |acts|
  {
    if n < |acts| {
      var m := |acts| - 1;
      assert acts[..m][..n] == acts[..n];
      TakenGrows(v, k, s, acts[..m], n);
    } else {
      assert acts[..n] == acts;
    }
  }

  lemma SmallIndexIsExact<T>(k: nat, s: Sys<T>, a: Action<T>)
    requires Always(k, s) && s.R() <= Mask(k)
    ensures TestExact(AsWritten, k, s, a)
  {
  }

  lemma SmallReadIndexIsExact<T>(k: nat, slots: seq<T>, acts: seq<Action<T>>, n: nat)
    requires k < 32 && |slots| == Pow2(k) && n < |acts|
    requires Run(AsWritten, k, Init(slots), acts).R() <= Mask(k)
    ensures TestExact(AsWritten, k, Run(AsWritten, k, Init(slots), acts[..n]), acts[n])
  {
    InitInv(k, slots);
    RunKeepsAlways(AsWritten, k, Init(slots), acts[..n]);
    TakenGrows(AsWritten, k, Init(slots), acts, n);
    SmallIndexIsExact(k, Run(AsWritten, k, Init(slots), acts[..n]), acts[n]);
  }

  /** In particular until the consumer has finished its mask-th read. */
  lemma AsWrittenIsFifoAtFirst<T>(k: nat, slots: seq<T>, acts: seq<Action<T>>)
    requires k < 32 && |slots| == Pow2(k)
    requires Run(AsWritten, k, Init(slots), acts).R() <= Mask(k)
    ensures var s := Run(AsWritten, k, Init(slots), acts);
            s.R() <= s.W() <= s.R() + Mask(k) && s.taken == s.stored[..s.R()]
  {
    InitInv(k, slots);
    forall n: nat | n < |acts|
      ensures TestExact(AsWritten, k, Run(AsWritten, k, Init(slots), acts[..n]), acts[n])
    {
      SmallReadIndexIsExact(k, slots, acts, n);
    }
    AsWrittenIsFifo(k, slots, acts);
  }

  /** No data race: the slot being written is neither the slot being read nor any slot that
      holds an unread item. */
  lemma {:induction false} WriterSlotIsFree<T>(k: nat, s: Sys<T>, i: nat)
    requires Inv(k, s) && s.prod.PWriting? && s.R() <= i < s.W()
    ensures And(s.prod.w, Mask(k)) != And(i % WORD, Mask(k))
    ensures s.cons.CReading? ==> And(s.prod.w, Mask(k)) != And(s.cons.r, Mask(k))
  {
    WrapKeepsSlot(s.W(), k);
    WrapKeepsSlot(i, k);
    WrapKeepsSlot(s.R(), k);
    ResiduesDistinct(Pow2(k), i, s.W());
    ResiduesDistinct(Pow2(k), s.R(), s.W());
  }

  /** A refused write saw a full buffer when it loaded the read index, and a refused read an
      empty one when it loaded the write index; neither refuses otherwise. */
  lemma RefusalsAreHonest<T>(v: Variant, k: nat, s: Sys<T>)
    requires Inv(k, s)
    ensures s.prod.PGotBoth? && TestExact(v, k, s, PTest) ==>
              (Step(v, k, s, PTest).prod.PIdle? <==> s.W() - s.seenR == Mask(k))
    ensures s.cons.CGotBoth? ==> (Step(v, k, s, CTest).cons.CIdle? <==> s.seenW == s.R())
  {
    if s.prod.PGotBoth? {
      FullTestMeans(v, k, s.W(), s.seenR);
      DistanceIsExact(k, s.W(), s.seenR);
    }
    if s.cons.CGotBoth? {
      DistanceIsExact(k, s.seenW, s.R());
    }
  }

  lemma WrappedDifference(W: nat, R: nat, k: nat)
    requires k < 32
    ensures And(Minus(W % WORD, R % WORD), Mask(k)) == (W - R) % Pow2(k)
  {
    var d := Minus(W % WORD, R % WORD);
    assert d == (W - R) % WORD;
    AndMaskIsMod(d, k);
    Pow2Word();
    Pow2Splits(k, 32 - k);
    ModOfMod(W - R, Pow2(k), Pow2(32 - k));
  }

  /** ring_buffer_count loads the two indices one after the other, so `R` may be a later value
      than `W`.  The result is the difference modulo the capacity: the number of items held if
      that is below the capacity, 0 if `capacity` are held, and short of the capacity by as many
      reads as have overtaken the loaded write index. */
  lemma CountMeans(k: nat, W: nat, R: nat)
    requires k < 32
    ensures var n := And(Minus(W % WORD, R % WORD), Mask(k));
            && n == (W - R) % Pow2(k)
            && (R <= W < R + Pow2(k) ==> n == W - R)
            && (W == R + Pow2(k) ==> n == 0)
            && (W < R <= W + Pow2(k) ==> n == Pow2(k) - (R - W))
  {
    var c := Pow2(k);
    WrappedDifference(W, R, k);
    if R <= W < R + c {
      ModUnique(W - R, c, 0, W - R);
    } else if W == R + c {
      ModUnique(W - R, c, 1, 0);
    } else if W < R <= W + c {
      ModUnique(W - R, c, -1, c - (R - W));
    }
  }

  // ---- where the code as written breaks ----

  function MemOf<T>(s: Sys<T>): Mem<T> {
    Mem(s.w, s.r, s.slots)
  }

  function WriteActs<T>(x: T): seq<Action<T>> {
    [PCall(x), PLoadOther, PTest, PStore, PPublish]
  }

  function ReadActs<T>(): seq<Action<T>> {
    [CCall, CLoadOther, CTest, CCopy, CPublish]
  }

  lemma {:induction false} RunConcat<T>(v: Variant, k: nat, s: Sys<T>, a: seq<Action<T>>, b: seq<Action<T>>)
    requires |s.slots| == Pow2(k)
    ensures Run(v, k, s, a + b) == Run(v, k, Run(v, k, s, a), b)
    decreases |b|
  {
    if b == [] {
      assert a + b == a;
    } else {
      var m := |b| - 1;
      RunConcat(v, k, s, a, b[..m]);
      assert (a + b)[..|a + b| - 1] == a + b[..m];
    }
  }

  lemma RunSnoc<T>(v: Variant, k: nat, s: Sys<T>, acts: seq<Action<T>>, a: Action<T>)
    requires |s.slots| == Pow2(k)
    ensures Run(v, k, s, acts + [a]) == Step(v, k, Run(v, k, s, acts), a)
  {
  }

  lemma RunFive<T>(v: Variant, k: nat, s: Sys<T>, a: Action<T>, b: Action<T>, c: Action<T>, d: Action<T>, e: Action<T>)
    requires |s.slots| == Pow2(k)
    ensures Run(v, k, s, [a, b, c, d, e])
         == Step(v, k, Step(v, k, Step(v, k, Step(v, k, Step(v, k, s, a), b), c), d), e)
  {
    RunSnoc(v, k, s, [], a);
    RunSnoc(v, k, s, [a], b);
    RunSnoc(v, k, s, [a, b], c);
    RunSnoc(v, k, s, [a, b, c], d);
    RunSnoc(v, k, s, [a, b, c, d], e);
    assert [] + [a] == [a];
    assert [a] + [b] == [a, b];
    assert [a, b] + [c] == [a, b, c];
    assert [a, b, c] + [d] == [a, b, c, d];
    assert [a, b, c, d] + [e] == [a, b, c, d, e];
  }

  /** A write call that nothing interrupts has the effect of the class's Write. */
  lemma UninterruptedWrite<T>(v: Variant, k: nat, s: Sys<T>, x: T)
    requires Always(k, s) && s.prod.PIdle?
    ensures var t := Run(v, k, s, WriteActs(x));
            && MemOf(t) == WriteMem(v, Mask(k), MemOf(s), x)
            && t.prod.PIdle? && t.cons == s.cons && t.taken == s.taken
            && t.stored == (if FullTest(v, Mask(k), s.w, s.r) then s.stored else s.stored + [x])
  {
    RunFive(v, k, s, PCall(x), PLoadOther, PTest, PStore, PPublish);
    AndMaskIsMod(s.w, k);
  }

  /** One uninterrupted write keeps a slot free exactly when the read index is at most the
      mask or the buffer is not full; otherwise the code as written fills the last slot. */
  lemma WriteKeepsBound<T>(v: Variant, k: nat, s: Sys<T>, x: T)
    requires Inv(k, s) && s.prod.PIdle?
    ensures var t := Run(v, k, s, WriteActs(x));
            t.W() - t.R() <= Mask(k)
            <==> v.Masked? || s.r <= Mask(k) || s.W() - s.R() < Mask(k)
  {
    UninterruptedWrite(v, k, s, x);
    FullTestMeans(v, k, s.W(), s.R());
  }

  /** The first three steps of an uninterrupted read of a buffer that is not empty. */
  function ReadBegun<T>(v: Variant, k: nat, s: Sys<T>): (t: Sys<T>)
    requires |s.slots| == Pow2(k)
    ensures |t.slots| == Pow2(k)
  {
    Step(v, k, Step(v, k, Step(v, k, s, CCall), CLoadOther), CTest)
  }

  lemma ReadIsNotRefused<T>(v: Variant, k: nat, s: Sys<T>)
    requires Always(k, s) && s.cons.CIdle? && s.R() < s.W() < s.R() + WORD
    ensures ReadBegun(v, k, s) == s.(cons := CReading(s.r), seenW := s.W())
    ensures Always(k, ReadBegun(v, k, s))
  {
  }

  lemma UninterruptedRead<T>(v: Variant, k: nat, s: Sys<T>)
    requires Always(k, s) && s.cons.CIdle? && s.R() < s.W() < s.R() + WORD
    ensures s.R() < |s.stored|
    ensures var t := Run(v, k, s, ReadActs());
            && t.taken == s.taken + [s.stored[Newest(s.R(), |s.stored|, Pow2(k))]]
            && t.stored == s.stored && t.prod == s.prod && t.cons.CIdle? && t.w == s.w && t.r == Inc(s.r)
  {
    RunFive(v, k, s, CCall, CLoadOther, CTest, CCopy, CPublish);
    ReadIsNotRefused(v, k, s);
    CopyReadsNewest(k, ReadBegun(v, k, s));
  }

  lemma ReadAfter<T>(k: nat, m: Sys<T>)
    requires Always(k, m) && m.cons.CIdle? && m.R() < m.W() < m.R() + WORD
    ensures var n := Newest(m.R(), |m.stored|, Pow2(k));
            var t := Run(AsWritten, k, m, ReadActs());
            && n < |m.stored| && t.stored == m.stored && t.taken == m.taken + [m.stored[n]]
            && (n == m.R() <==> |m.stored| - m.R() <= Pow2(k))
  {
    UninterruptedRead(AsWritten, k, m);
    NewestMeans(m.R(), |m.stored|, Pow2(k));
  }

  function WritesOf<T>(xs: seq<T>): seq<Action<T>> {
    if xs == [] then [] else WritesOf(xs[..|xs| - 1]) + WriteActs(xs[|xs| - 1])
  }

  lemma OneMoreIsAccepted<T>(k: nat, s: Sys<T>, x: T)
    requires Always(k, s) && s.prod.PIdle? && s.r > Mask(k)
    ensures var t := Run(AsWritten, k, s, WriteActs(x));
            && Always(k, t) && t.prod.PIdle? && t.r == s.r
            && t.stored == s.stored + [x] && t.taken == s.taken && t.cons == s.cons
  {
    UninterruptedWrite(AsWritten, k, s, x);
    RunKeepsAlways(AsWritten, k, s, WriteActs(x));
    AndOfSmall(Inc(s.w), k);
  }

  /** Once the read index has passed the mask, the code as written accepts every write. */
  lemma {:induction false} BurstIsAccepted<T>(k: nat, s: Sys<T>, xs: seq<T>)
    requires Always(k, s) && s.prod.PIdle? && s.r > Mask(k)
    ensures var t := Run(AsWritten, k, s, WritesOf(xs));
            && Always(k, t) && t.prod.PIdle? && t.r == s.r
            && t.stored == s.stored + xs && t.taken == s.taken && t.cons == s.cons
    decreases |xs|
  {
    if xs != [] {
      var n := |xs| - 1;
      BurstIsAccepted(k, s, xs[..n]);
      RunConcat(AsWritten, k, s, WritesOf(xs[..n]), WriteActs(xs[n]));
      OneMoreIsAccepted(k, Run(AsWritten, k, s, WritesOf(xs[..n])), xs[n]);
      assert xs == xs[..n] + [xs[n]];
    }
  }

  /** MAIN, where FIFO ends for the code as written: with the read index past the mask, a read
      after a burst of writes returns the item it should exactly when the unread items still
      fit the slots; after more, it returns a later one. */
  lemma {:induction false} BurstThenRead<T>(k: nat, s: Sys<T>, xs: seq<T>)
    requires Always(k, s) && s.prod.PIdle? && s.cons.CIdle? && s.r > Mask(k)
    requires 0 < s.W() + |xs| - s.R() < WORD
    ensures var m := Run(AsWritten, k, s, WritesOf(xs));
            m.stored == s.stored + xs && s.R() < |m.stored|
    ensures var m := Run(AsWritten, k, s, WritesOf(xs));
            var t := Run(AsWritten, k, m, ReadActs());
            var n := Newest(s.R(), |m.stored|, Pow2(k));
            && t == Run(AsWritten, k, s, WritesOf(xs) + ReadActs())
            && n < |m.stored| && t.stored == m.stored && t.taken == s.taken + [m.stored[n]]
            && (n == s.R() <==> s.W() + |xs| - s.R() <= Pow2(k))
  {
    var m := Run(AsWritten, k, s, WritesOf(xs));
    BurstIsAccepted(k, s, xs);
    RunConcat(AsWritten, k, s, WritesOf(xs), ReadActs());
    ReadAfter(k, m);
  }

  function Cycles<T>(n: nat, x: T): seq<Action<T>> {
    if n == 0 then [] else Cycles(n - 1, x) + (WriteActs(x) + ReadActs())
  }

  function Copies<T>(n: nat, x: T): seq<T> {
    seq(n, _ => x)
  }

  lemma OneCycle<T>(k: nat, s: Sys<T>, x: T)
    requires 0 < k < 32 && Always(k, s) && s.prod.PIdle? && s.cons.CIdle?
    requires s.R() == s.W()
    ensures var t := Run(AsWritten, k, s, WriteActs(x) + ReadActs());
            && Always(k, t) && t.prod.PIdle? && t.cons.CIdle?
            && t.stored == s.stored + [x] && t.taken == s.taken + [x]
  {
    var m := Run(AsWritten, k, s, WriteActs(x));
    UninterruptedWrite(AsWritten, k, s, x);
    FullTestMeans(AsWritten, k, s.W(), s.R());
    assert Mask(k) > 0;
    RunKeepsAlways(AsWritten, k, s, WriteActs(x));
    RunConcat(AsWritten, k, s, WriteActs(x), ReadActs());
    UninterruptedRead(AsWritten, k, m);
    NewestMeans(s.R(), |m.stored|, Pow2(k));
    RunKeepsAlways(AsWritten, k, m, ReadActs());
  }

  lemma {:induction false} CyclesStayInStep<T>(k: nat, slots: seq<T>, n: nat, x: T)
    requires 0 < k < 32 && |slots| == Pow2(k)
    ensures var t := Run(AsWritten, k, Init(slots), Cycles(n, x));
            && Always(k, t) && t.prod.PIdle? && t.cons.CIdle?
            && t.stored == Copies(n, x) && t.taken == Copies(n, x)
  {
    InitInv(k, slots);
    if n > 0 {
      CyclesStayInStep(k, slots, n - 1, x);
      var m := Run(AsWritten, k, Init(slots), Cycles(n - 1, x));
      RunConcat(AsWritten, k, Init(slots), Cycles(n - 1, x), WriteActs(x) + ReadActs());
      OneCycle(k, m, x);
      assert Copies(n, x) == Copies(n - 1, x) + [x];
    }
  }

  /** Once the read index is `capacity`, one item more than the slots hold is misread. */
  lemma {:induction false} LateBurstLoses<T>(k: nat, m: Sys<T>, x: T, y: T)
    requires 0 < k < 32 && Always(k, m) && m.prod.PIdle? && m.cons.CIdle? && x != y
    requires m.stored == Copies(Pow2(k), x) && m.taken == Copies(Pow2(k), x)
    ensures var s := Run(AsWritten, k, m, WritesOf(Copies(Pow2(k), x) + [y]) + ReadActs());
            && Pow2(k) < s.R() <= s.W()
            && s.taken[Pow2(k)] == y && s.stored[Pow2(k)] == x
  {
    var c := Pow2(k);
    WordsExceedCapacity(k);
    BurstThenRead(k, m, Copies(c, x) + [y]);
    assert Newest(c, 2 * c + 1, c) == Newest(2 * c, 2 * c + 1, c) == 2 * c;
    RunKeepsAlways(AsWritten, k, m, WritesOf(Copies(c, x) + [y]) + ReadActs());
  }

  /** For every capacity from 2 up, the code as written has a run that hands out `y` where `x`
      was written. */
  lemma {:induction false} AsWrittenCanLose<T>(k: nat, slots: seq<T>, x: T, y: T) returns (acts: seq<Action<T>>)
    requires 0 < k < 32 && |slots| == Pow2(k) && x != y
    ensures var s := Run(AsWritten, k, Init(slots), acts);
            s.R() <= s.W() && s.taken != s.stored[..s.R()]
  {
    var c := Pow2(k);
    var late := WritesOf(Copies(c, x) + [y]) + ReadActs();
    CyclesStayInStep(k, slots, c, x);
    LateBurstLoses(k, Run(AsWritten, k, Init(slots), Cycles(c, x)), x, y);
    RunConcat(AsWritten, k, Init(slots), Cycles(c, x), late);
    acts := Cycles(c, x) + late;
  }

  /** A buffer of capacity 1 never accepts anything, in either variant. */
  lemma {:induction false} CapacityOneHoldsNothing<T>(v: Variant, slots: seq<T>, acts: seq<Action<T>>)
    requires |slots| == 1
    ensures var s := Run(v, 0, Init(slots), acts);
            s.stored == [] && s.taken == [] && !s.prod.PWriting? && Always(0, s)
    decreases |acts|
  {
    if acts != [] {
      var n := |acts| - 1;
      var s := Run(v, 0, Init(slots), acts[..n]);
      CapacityOneHoldsNothing(v, slots, acts[..n]);
      AlwaysStep(v, 0, s, acts[n]);
    }
  }
}

/** Which transmission errors sht30_crc8 detects, for frames of any length. */
module CrcErrors {
  import opened Bytes
  import opened Crc8
  import opened Words32

  // ---- the same register, fed bit by bit ----

  function Top(t: bool): Byte {
    Byte(t, false, false, false, false, false, false, false)
  }

  function BitFeed(reg: Byte, bits: seq<bool>): Byte {
    if bits == [] then reg
    else BitStep(Xor(BitFeed(reg, bits[..|bits| - 1]), Top(bits[|bits| - 1])))
  }

  function AllBits(data: seq<Byte>): (r: seq<bool>)
    ensures |r| == 8 * |data|
  {
    if data == [] then [] else AllBits(data[..|data| - 1]) + Bits(data[|data| - 1])
  }

  lemma {:induction false} FeedConcat(reg: Byte, a: seq<bool>, b: seq<bool>)
    ensures BitFeed(reg, a + b) == BitFeed(BitFeed(reg, a), b)
    decreases |b|
  {
    if b == [] {
      assert a + b == a;
    } else {
      assert (a + b)[..|a + b| - 1] == a + b[..|b| - 1];
      FeedConcat(reg, a, b[..|b| - 1]);
    }
  }

  predicate At(w: seq<bool>, i: nat) {
    i < |w| && w[i]
  }

  /** Up to eight bits at the top of a byte. */
  function LeftAligned(w: seq<bool>): Byte {
    Byte(At(w, 0), At(w, 1), At(w, 2), At(w, 3), At(w, 4), At(w, 5), At(w, 6), At(w, 7))
  }

  /** Only bit number k from the top. */
  function BitAt(k: nat, t: bool): Byte {
    Byte(k == 0 && t, k == 1 && t, k == 2 && t, k == 3 && t,
         k == 4 && t, k == 5 && t, k == 6 && t, k == 7 && t)
  }

  lemma {:induction false} BitRises(k: nat, t: bool)
    requires k < 8
    ensures BitSteps(BitAt(k, t), k) == Top(t)
  {
    if k > 0 {
      assert BitStep(BitAt(k, t)) == BitAt(k - 1, t);
      BitStepsAdd(BitAt(k, t), 1, k - 1);
      assert BitSteps(BitAt(k, t), 1) == BitStep(BitSteps(BitAt(k, t), 0));
      BitRises(k - 1, t);
    }
  }

  lemma LeftAlignedSnoc(w: seq<bool>, t: bool)
    requires |w| < 8
    ensures LeftAligned(w + [t]) == Xor(LeftAligned(w), BitAt(|w|, t))
  {
  }

  lemma XorAssoc(a: Byte, b: Byte, c: Byte)
    ensures Xor(Xor(a, b), c) == Xor(a, Xor(b, c))
  {
  }

  /** Up to eight bits enter the register as one exclusive or. */
  lemma {:induction false} FeedWord(reg: Byte, w: seq<bool>)
    requires |w| <= 8
    ensures BitFeed(reg, w) == BitSteps(Xor(reg, LeftAligned(w)), |w|)
    decreases |w|
  {
    if w == [] {
      assert LeftAligned(w) == ZERO;
      XorZero(reg, ZERO);
    } else {
      var k := |w| - 1;
      var v, t := w[..k], w[k];
      FeedWord(reg, v);
      BitRises(k, t);
      BitStepsLinear(Xor(reg, LeftAligned(v)), BitAt(k, t), k);
      XorAssoc(reg, LeftAligned(v), BitAt(k, t));
      LeftAlignedSnoc(v, t);
      assert w == v + [t];
    }
  }

  lemma LeftAlignedBits(b: Byte)
    ensures LeftAligned(Bits(b)) == b
  {
  }

  lemma FeedByte(reg: Byte, b: Byte, w: nat)
    requires w == |Bits(b)|
    ensures BitFeed(reg, Bits(b)) == BitSteps(Xor(reg, b), w)
  {
    FeedWord(reg, Bits(b));
    LeftAlignedBits(b);
  }

  lemma {:induction false} CrcIsBitFeed(w: nat, reg: Byte, data: seq<Byte>)
    requires w == |Bits(ZERO)|
    ensures CrcN(w, reg, data) == BitFeed(reg, AllBits(data))
    decreases |data|
  {
    if data != [] {
      var n := |data| - 1;
      CrcIsBitFeed(w, reg, data[..n]);
      FeedConcat(reg, AllBits(data[..n]), Bits(data[n]));
      FeedByte(BitFeed(reg, AllBits(data[..n])), data[n], w);
    }
  }

  // ---- errors, as the bits they flip ----

  function Clean(n: nat): (r: seq<bool>)
    ensures |r| == n
  {
    seq(n, _ => false)
  }

  /** An error is unseen exactly when its bits leave a zero register at zero. */
  lemma {:induction false} ErrorBits(frame: seq<Byte>, e: seq<Byte>)
    requires frame != [] && |frame| == |e| && Accepts(frame)
    ensures Accepts(Flip(frame, e)) <==> BitFeed(ZERO, AllBits(e)) == ZERO
  {
    AcceptsFlipped(frame, e);
    CrcIsBitFeed(8, ZERO, e);
  }

  lemma {:induction false} FeedClean(reg: Byte, n: nat)
    ensures BitFeed(reg, Clean(n)) == BitSteps(reg, n)
  {
    if n > 0 {
      FeedClean(reg, n - 1);
      assert Clean(n)[..n - 1] == Clean(n - 1);
      XorZero(BitSteps(reg, n - 1), ZERO);
      assert Top(false) == ZERO;
    }
  }

  /** Clean bits ahead of and behind an error do not change whether it is seen. */
  lemma CleanAround(before: nat, w: seq<bool>, after: nat)
    ensures BitFeed(ZERO, Clean(before) + w + Clean(after)) == ZERO <==> BitFeed(ZERO, w) == ZERO
  {
    FeedConcat(ZERO, Clean(before) + w, Clean(after));
    FeedConcat(ZERO, Clean(before), w);
    FeedClean(ZERO, before);
    ZeroStays(before);
    var c := BitFeed(ZERO, w);
    FeedClean(c, after);
    ZeroStays(after);
    if BitSteps(c, after) == ZERO {
      BitStepsInjective(c, ZERO, after);
    }
  }

  /** MAIN: every burst of up to eight bits is detected, wherever it falls in a frame of any
      length; in particular any change confined to one byte. */
  lemma {:induction false} BurstsAreDetected(frame: seq<Byte>, e: seq<Byte>, before: nat, w: seq<bool>, after: nat)
    requires frame != [] && |frame| == |e| && Accepts(frame)
    requires AllBits(e) == Clean(before) + w + Clean(after) && |w| <= 8 && true in w
    ensures !Accepts(Flip(frame, e))
  {
    ErrorBits(frame, e);
    CleanAround(before, w, after);
    FeedWord(ZERO, w);
    XorZero(LeftAligned(w), ZERO);
    var i: nat :| i < |w| && w[i];
    SomeBitSet(w, i);
    ZeroStays(|w|);
    if BitSteps(LeftAligned(w), |w|) == ZERO {
      BitStepsInjective(LeftAligned(w), ZERO, |w|);
    }
  }

  lemma SomeBitSet(w: seq<bool>, i: nat)
    requires i < |w| <= 8 && w[i]
    ensures LeftAligned(w) != ZERO
  {
  }

  // ---- parity ----

  predicate Parity(a: Byte) {
    (((a.b7 != a.b6) != (a.b5 != a.b4)) != ((a.b3 != a.b2) != (a.b1 != a.b0)))
  }

  function Ones(bits: seq<bool>): nat {
    if bits == [] then 0 else Ones(bits[..|bits| - 1]) + if bits[|bits| - 1] then 1 else 0
  }

  predicate Odd(n: nat) {
    n % 2 == 1
  }

  lemma ParityOfXor(a: Byte, b: Byte)
    ensures Parity(Xor(a, b)) == (Parity(a) != Parity(b))
  {
  }

  /** The polynomial has an even number of terms, so a step keeps parity. */
  lemma ParityOfStep(a: Byte)
    ensures Parity(BitStep(a)) == Parity(a)
  {
  }

  lemma {:induction false} ParityOfFeed(reg: Byte, bits: seq<bool>)
    ensures Parity(BitFeed(reg, bits)) == (Parity(reg) != Odd(Ones(bits)))
    decreases |bits|
  {
    if bits != [] {
      var n := |bits| - 1;
      ParityOfFeed(reg, bits[..n]);
      ParityOfXor(BitFeed(reg, bits[..n]), Top(bits[n]));
      ParityOfStep(Xor(BitFeed(reg, bits[..n]), Top(bits[n])));
    }
  }

  /** MAIN: an accepted frame of any length has an even number of ones, so any odd number of
      flipped bits is detected. */
  lemma {:induction false} AcceptedFramesAreEven(frame: seq<Byte>)
    requires frame != [] && Accepts(frame)
    ensures !Odd(Ones(AllBits(frame)))
  {
    AcceptsMeansZero(frame);
    CrcIsBitFeed(8, ONES, frame);
    ParityOfFeed(ONES, AllBits(frame));
    assert !Parity(ONES) && !Parity(ZERO);
  }

  lemma OddErrorsAreDetected(frame: seq<Byte>, e: seq<Byte>)
    requires frame != [] && |frame| == |e| && Accepts(frame) && Odd(Ones(AllBits(e)))
    ensures !Accepts(Flip(frame, e))
  {
    ErrorBits(frame, e);
    ParityOfFeed(ZERO, AllBits(e));
    assert !Parity(ZERO);
  }

  // ---- two flipped bits ----

  // Dafny unfolds BitSteps all the way when its count is a literal.  The lemmas from here on take
  // the byte width, the start of the count and the order of x as parameters that are merely known
  // to be 8, 0 and 127, which keeps the unfolding to one step.

  predicate IsByteWidth(w: nat) {
    7 < w < 9
  }

  predicate IsOrder(p: nat) {
    126 < p < 128
  }

  /** A step, each bit spelled out. */
  function Spelled(v: Byte): Byte {
    Byte(v.b6, v.b5, v.b4 != v.b7, v.b3 != v.b7, v.b2, v.b1, v.b0, v.b7)
  }

  function Eight(v: Byte): Byte {
    Spelled(Spelled(Spelled(Spelled(Spelled(Spelled(Spelled(Spelled(v))))))))
  }

  lemma StepIsSpelled(v: Byte)
    ensures BitStep(v) == Spelled(v)
  {
  }

  lemma {:induction false} SpelledSteps(v: Byte, n: nat)
    ensures BitSteps(v, n + 1) == BitSteps(Spelled(v), n)
  {
    StepIsSpelled(BitSteps(v, n));
    if n > 0 {
      SpelledSteps(v, n - 1);
      StepIsSpelled(BitSteps(Spelled(v), n - 1));
    }
  }

  lemma EightSteps(w: nat, v: Byte)
    requires IsByteWidth(w)
    ensures BitSteps(v, w) == Eight(v)
  {
    var v1 := Spelled(v);
    var v2 := Spelled(v1);
    var v3 := Spelled(v2);
    var v4 := Spelled(v3);
    var v5 := Spelled(v4);
    var v6 := Spelled(v5);
    var v7 := Spelled(v6);
    SpelledSteps(v, w - 1);
    SpelledSteps(v1, w - 2);
    SpelledSteps(v2, w - 3);
    SpelledSteps(v3, w - 4);
    SpelledSteps(v4, w - 5);
    SpelledSteps(v5, w - 6);
    SpelledSteps(v6, w - 7);
    SpelledSteps(v7, w - 8);
  }

  lemma Advance(w: nat, n: nat, a: Byte, b: Byte)
    requires IsByteWidth(w) && BitSteps(Top(true), n) == a && Eight(a) == b
    ensures BitSteps(Top(true), n + w) == b
  {
    BitStepsAdd(Top(true), n, w);
    EightSteps(w, a);
  }

  // The powers of x modulo the polynomial, eight at a time, once round to the polynomial itself.
  lemma FirstQuarter(w: nat, n: nat)
    requires IsByteWidth(w) && BitSteps(Top(true), n) == Byte(true, false, false, false, false, false, false, false)
    ensures BitSteps(Top(true), n + 4 * w) == Byte(true, true, true, true, false, false, false, true)
  {
    Advance(w, n, Byte(true, false, false, false, false, false, false, false),
            Byte(false, true, true, true, true, false, true, false));
    Advance(w, n + w, Byte(false, true, true, true, true, false, true, false),
            Byte(false, false, true, false, false, false, true, true));
    Advance(w, n + w + w, Byte(false, false, true, false, false, false, true, true),
            Byte(true, true, false, true, false, true, false, true));
    Advance(w, n + w + w + w, Byte(true, true, false, true, false, true, false, true),
            Byte(true, true, true, true, false, false, false, true));
  }

  lemma SecondQuarter(w: nat, n: nat)
    requires IsByteWidth(w) && BitSteps(Top(true), n) == Byte(true, true, true, true, false, false, false, true)
    ensures BitSteps(Top(true), n + 4 * w) == Byte(true, true, false, false, false, false, true, false)
  {
    Advance(w, n, Byte(true, true, true, true, false, false, false, true),
            Byte(true, false, true, true, false, false, true, true));
    Advance(w, n + w, Byte(true, false, true, true, false, false, true, true),
            Byte(true, true, true, false, true, true, false, false));
    Advance(w, n + w + w, Byte(true, true, true, false, true, true, false, false),
            Byte(true, false, true, true, true, true, false, false));
    Advance(w, n + w + w + w, Byte(true, false, true, true, true, true, false, false),
            Byte(true, true, false, false, false, false, true, false));
  }

  lemma ThirdQuarter(w: nat, n: nat)
    requires IsByteWidth(w) && BitSteps(Top(true), n) == Byte(true, true, false, false, false, false, true, false)
    ensures BitSteps(Top(true), n + 4 * w) == Byte(false, false, false, true, false, true, true, false)
  {
    Advance(w, n, Byte(true, true, false, false, false, false, true, false),
            Byte(false, false, true, false, false, true, false, true));
    Advance(w, n + w, Byte(false, false, true, false, false, true, false, true),
            Byte(false, true, true, true, false, false, true, true));
    Advance(w, n + w + w, Byte(false, true, true, true, false, false, true, true),
            Byte(true, false, true, false, true, false, true, true));
    Advance(w, n + w + w + w, Byte(true, false, true, false, true, false, true, true),
            Byte(false, false, false, true, false, true, true, false));
  }

  lemma LastQuarter(w: nat, n: nat)
    requires IsByteWidth(w) && BitSteps(Top(true), n) == Byte(false, false, false, true, false, true, true, false)
    ensures BitSteps(Top(true), n + 4 * w) == Byte(false, false, true, true, false, false, false, true)
  {
    Advance(w, n, Byte(false, false, false, true, false, true, true, false),
            Byte(true, true, true, false, false, true, false, true));
    Advance(w, n + w, Byte(true, true, true, false, false, true, false, true),
            Byte(false, false, true, true, false, true, false, false));
    Advance(w, n + w + w, Byte(false, false, true, true, false, true, false, false),
            Byte(false, false, false, false, false, false, false, true));
    Advance(w, n + w + w + w, Byte(false, false, false, false, false, false, false, true),
            Byte(false, false, true, true, false, false, false, true));
  }

  /** Multiplying by x^d leaves the one-bit register alone. */
  ghost predicate Period(d: nat) {
    BitSteps(Top(true), d) == Top(true)
  }

  lemma FullCircle(w: nat, start: nat) returns (p: nat)
    requires IsByteWidth(w) && start == 0
    ensures IsOrder(p) && Period(p)
  {
    FirstQuarter(w, start);
    SecondQuarter(w, start + 4 * w);
    ThirdQuarter(w, start + 8 * w);
    LastQuarter(w, start + 12 * w);
    p := start + 16 * w - 1;
    assert BitSteps(Top(true), p + 1) == BitStep(BitSteps(Top(true), p));
    BitStepInjective(BitSteps(Top(true), p), Top(true));
  }

  lemma PeriodRest(p: nat, d: nat)
    requires p > 0 && Period(p)
    ensures Period(d) <==> Period(d % p)
    decreases d
  {
    if d >= p {
      BitStepsAdd(Top(true), p, d - p);
      PeriodRest(p, d - p);
      ModAddMultiple(d - p, 1, p);
    } else {
      ModUnique(d, p, 0, d);
    }
  }

  lemma PrimeOrder(d: nat)
    requires 1 < d < 127
    ensures 127 % d != 0
  {
  }

  lemma NoShorterPeriod(p: nat, d: nat)
    requires IsOrder(p) && Period(p) && 0 < d < 127
    ensures !Period(d)
    decreases d
  {
    if d == 1 {
      assert BitSteps(Top(true), 1) == BitStep(BitSteps(Top(true), 0));
      assert BitStep(Top(true)) == POLYNOMIAL;
    } else {
      PrimeOrder(d);
      if Period(d) {
        PeriodRest(d, p);
        NoShorterPeriod(p, p % d);
      }
    }
  }

  lemma PeriodMeans(d: nat)
    ensures Period(d) <==> d % 127 == 0
  {
    var p := FullCircle(|Bits(ZERO)|, |Clean(0)|);
    PeriodRest(p, d);
    if d % p != 0 {
      NoShorterPeriod(p, d % p);
    }
  }

  /** Two flipped bits, `d` places apart. */
  function Pair(d: nat): seq<bool>
    requires d > 0
  {
    [true] + Clean(d - 1) + [true]
  }

  lemma FeedOne(c: Byte)
    ensures BitFeed(c, [true]) == BitStep(Xor(c, Top(true)))
  {
  }

  lemma OneThenClean(n: nat)
    ensures BitFeed(ZERO, [true] + Clean(n)) == BitSteps(Top(true), n + 1)
  {
    var c := BitStep(Top(true));
    FeedConcat(ZERO, [true], Clean(n));
    FeedOne(ZERO);
    XorZero(Top(true), ZERO);
    FeedClean(c, n);
    StepIsSpelled(Top(true));
    SpelledSteps(Top(true), n);
  }

  lemma SecondBit(c: Byte)
    ensures BitFeed(c, [true]) == ZERO <==> c == Top(true)
  {
  }

  lemma FeedPair(d: nat)
    requires d > 0
    ensures BitFeed(ZERO, Pair(d)) == ZERO <==> Period(d)
  {
    FeedConcat(ZERO, [true] + Clean(d - 1), [true]);
    OneThenClean(d - 1);
    SecondBit(BitSteps(Top(true), d));
  }

  /** MAIN: two flipped bits go unseen exactly when they are a multiple of 127 places apart; in
      the driver's 24-bit frames, therefore, never. */
  lemma {:induction false} TwoFlippedBits(frame: seq<Byte>, e: seq<Byte>, before: nat, d: nat, after: nat)
    requires frame != [] && |frame| == |e| && Accepts(frame) && d > 0
    requires AllBits(e) == Clean(before) + Pair(d) + Clean(after)
    ensures Accepts(Flip(frame, e)) <==> d % 127 == 0
    ensures |frame| <= 15 ==> !Accepts(Flip(frame, e))
  {
    ErrorBits(frame, e);
    CleanAround(before, Pair(d), after);
    FeedPair(d);
    PeriodMeans(d);
    assert |AllBits(e)| == before + (d + 1) + after;
  }
}

/** sht30_crc8 of kernel-drivers/sht30/sht30.c and the errors it detects. */
module Crc8 {
  import opened Bytes

  /** 0x31. */
  const POLYNOMIAL := Byte(false, false, true, true, false, false, false, true)

  /** One turn of the inner loop. */
  function BitStep(crc: Byte): Byte {
    if crc.b7 then Xor(Shl(crc), POLYNOMIAL) else Shl(crc)
  }

  function BitSteps(crc: Byte, n: nat): Byte {
    if n == 0 then crc else BitStep(BitSteps(crc, n - 1))
  }

  /** The register after a message, from any register, with w turns of the inner loop a byte. */
  function CrcN(w: nat, crc: Byte, data: seq<Byte>): Byte {
    if data == [] then crc
    else BitSteps(Xor(CrcN(w, crc, data[..|data| - 1]), data[|data| - 1]), w)
  }

  function CrcFrom(crc: Byte, data: seq<Byte>): Byte {
    CrcN(8, crc, data)
  }

  function Crc(data: seq<Byte>): Byte {
    CrcFrom(ONES, data)
  }

  /** The nested loops, for any number `w` of turns of the inner one. */
  method CrcLoop(w: nat, data: array<Byte>, start: nat, len: nat) returns (crc: Byte)
    requires start + len <= data.Length
    ensures crc == CrcN(w, ONES, data[start..start + len])
  {
    crc := ONES;
    var i := 0;
    while i < len
      invariant 0 <= i <= len
      invariant crc == CrcN(w, ONES, data[start..start + i])
    {
      crc := Xor(crc, data[start + i]);
      ghost var x := crc;
      var j := 0;
      while j < w
        invariant 0 <= j <= w
        invariant crc == BitSteps(x, j)
      {
        if crc.b7 {
          crc := Xor(Shl(crc), POLYNOMIAL);
        } else {
          crc := Shl(crc);
        }
        j := j + 1;
      }
      assert data[start..start + i + 1][..i] == data[start..start + i];
      i := i + 1;
    }
  }

  method Checksum(data: array<Byte>, start: nat, len: nat) returns (crc: Byte)
    requires start + len <= data.Length
    ensures crc == Crc(data[start..start + len])
  {
    crc := CrcLoop(8, data, start, len);
  }

  // ---- the step is injective and linear ----

  lemma BitStepInjective(a: Byte, b: Byte)
    requires BitStep(a) == BitStep(b)
    ensures a == b
  {
    assert BitStep(a).b0 == a.b7 && BitStep(b).b0 == b.b7;
  }

  lemma {:induction false} BitStepsInjective(a: Byte, b: Byte, n: nat)
    requires BitSteps(a, n) == BitSteps(b, n)
    ensures a == b
  {
    if n > 0 {
      BitStepInjective(BitSteps(a, n - 1), BitSteps(b, n - 1));
      BitStepsInjective(a, b, n - 1);
    }
  }

  lemma {:induction false} BitStepLinear(a: Byte, b: Byte)
    ensures BitStep(Xor(a, b)) == Xor(BitStep(a), BitStep(b))
  {
    ShlXor(a, b);
    XorCancel(Shl(a), Shl(b), POLYNOMIAL);
    XorMove(Shl(a), Shl(b), POLYNOMIAL);
  }

  lemma {:induction false} BitStepsLinear(a: Byte, b: Byte, n: nat)
    ensures BitSteps(Xor(a, b), n) == Xor(BitSteps(a, n), BitSteps(b, n))
  {
    if n > 0 {
      BitStepsLinear(a, b, n - 1);
      BitStepLinear(BitSteps(a, n - 1), BitSteps(b, n - 1));
    }
  }

  lemma {:induction false} ZeroStays(n: nat)
    ensures BitSteps(ZERO, n) == ZERO
  {
    if n > 0 {
      ZeroStays(n - 1);
    }
  }

  /** A register and a byte cancel exactly when they are equal. */
  lemma StepsAreZero(n: nat, crc: Byte, b: Byte)
    ensures BitSteps(Xor(crc, b), n) == ZERO <==> crc == b
  {
  }

  lemma {:induction false} CrcConcat(w: nat, crc: Byte, a: seq<Byte>, b: seq<Byte>)
    ensures CrcN(w, crc, a + b) == CrcN(w, CrcN(w, crc, a), b)
    decreases |b|
  {
    if b == [] {
      assert a + b == a;
    } else {
      assert (a + b)[..|a + b| - 1] == a + b[..|b| - 1];
      CrcConcat(w, crc, a, b[..|b| - 1]);
    }
  }

  lemma CrcSnoc(w: nat, crc: Byte, a: seq<Byte>, x: Byte)
    ensures CrcN(w, crc, a + [x]) == BitSteps(Xor(CrcN(w, crc, a), x), w)
  {
  }

  // ---- errors ----

  /** Bytewise exclusive or: `e` marks the bits that flip. */
  function Flip(a: seq<Byte>, e: seq<Byte>): (r: seq<Byte>)
    requires |a| == |e|
    ensures |r| == |a|
  {
    seq(|a|, i requires 0 <= i < |a| => Xor(a[i], e[i]))
  }

  lemma {:induction false} StepsOfPairs(n: nat, a: Byte, b: Byte, c: Byte, d: Byte)
    ensures BitSteps(Xor(Xor(a, c), Xor(b, d)), n) == Xor(BitSteps(Xor(a, b), n), BitSteps(Xor(c, d), n))
  {
    XorSwap(a, c, b, d);
    BitStepsLinear(Xor(a, b), Xor(c, d), n);
  }

  lemma {:induction false} CrcLinear(w: nat, c: Byte, d: Byte, a: seq<Byte>, e: seq<Byte>)
    requires |a| == |e|
    ensures CrcN(w, Xor(c, d), Flip(a, e)) == Xor(CrcN(w, c, a), CrcN(w, d, e))
    decreases |a|
  {
    if a != [] {
      var n := |a| - 1;
      CrcLinear(w, c, d, a[..n], e[..n]);
      assert Flip(a, e) == Flip(a[..n], e[..n]) + [Xor(a[n], e[n])];
      CrcSnoc(w, Xor(c, d), Flip(a[..n], e[..n]), Xor(a[n], e[n]));
      StepsOfPairs(w, CrcN(w, c, a[..n]), a[n], CrcN(w, d, e[..n]), e[n]);
    }
  }

  /** The driver's check on a message followed by its checksum byte. */
  predicate Accepts(frame: seq<Byte>)
    requires frame != []
  {
    Crc(frame[..|frame| - 1]) == frame[|frame| - 1]
  }

  /** A frame is accepted exactly when the checksum of all of it is zero. */
  lemma {:induction false} AcceptsMeansZero(frame: seq<Byte>)
    requires frame != []
    ensures Accepts(frame) <==> Crc(frame) == ZERO
  {
    var n := |frame| - 1;
    assert frame == frame[..n] + [frame[n]];
    CrcSnoc(8, ONES, frame[..n], frame[n]);
    StepsAreZero(8, Crc(frame[..n]), frame[n]);
  }

  /** No error: the checksum the sensor appends is accepted, and no other byte is. */
  lemma {:induction false} CrcOfCheckedIsZero(data: seq<Byte>, x: Byte)
    ensures Crc(data + [x]) == ZERO <==> x == Crc(data)
  {
    AcceptsMeansZero(data + [x]);
    assert (data + [x])[..|data|] == data;
  }

  /** Whether an error goes unseen depends on the error alone. */
  lemma AcceptsFlipped(frame: seq<Byte>, e: seq<Byte>)
    requires frame != [] && |frame| == |e| && Accepts(frame)
    ensures Accepts(Flip(frame, e)) <==> CrcFrom(ZERO, e) == ZERO
  {
    AcceptsMeansZero(frame);
    AcceptsMeansZero(Flip(frame, e));
    CrcLinear(8, ONES, ZERO, frame, e);
    XorZero(ONES, ZERO);
  }

  lemma {:induction false} BitStepsAdd(crc: Byte, a: nat, b: nat)
    ensures BitSteps(crc, a + b) == BitSteps(BitSteps(crc, a), b)
  {
    if b > 0 {
      BitStepsAdd(crc, a, b - 1);
    }
  }

  // ---- a known answer ----

  lemma {:induction false} FirstByteSteps()
    ensures BitSteps(Byte(false, true, false, false, false, false, false, true), 8)
         == Byte(false, false, false, false, true, true, false, false)
  {
    var x := Byte(false, true, false, false, false, false, false, true);
    assert BitSteps(x, 1) == Byte(true, false, false, false, false, false, true, false);
    assert BitSteps(x, 2) == Byte(false, false, true, true, false, true, false, true);
    assert BitSteps(x, 3) == Byte(false, true, true, false, true, false, true, false);
    assert BitSteps(x, 4) == Byte(true, true, false, true, false, true, false, false);
    assert BitSteps(x, 5) == Byte(true, false, false, true, true, false, false, true);
    assert BitSteps(x, 6) == Byte(false, false, false, false, false, false, true, true);
    assert BitSteps(x, 7) == Byte(false, false, false, false, false, true, true, false);
    assert BitSteps(x, 8) == Byte(false, false, false, false, true, true, false, false);
  }

  lemma {:induction false} SecondByteSteps()
    ensures BitSteps(Byte(true, true, true, false, false, false, true, true), 8)
         == Byte(true, false, false, true, false, false, true, false)
  {
    var x := Byte(true, true, true, false, false, false, true, true);
    assert BitSteps(x, 1) == Byte(true, true, true, true, false, true, true, true);
    assert BitSteps(x, 2) == Byte(true, true, false, true, true, true, true, true);
    assert BitSteps(x, 3) == Byte(true, false, false, false, true, true, true, true);
    assert BitSteps(x, 4) == Byte(false, false, true, false, true, true, true, true);
    assert BitSteps(x, 5) == Byte(false, true, false, true, true, true, true, false);
    assert BitSteps(x, 6) == Byte(true, false, true, true, true, true, false, false);
    assert BitSteps(x, 7) == Byte(false, true, false, false, true, false, false, true);
    assert BitSteps(x, 8) == Byte(true, false, false, true, false, false, true, false);
  }

  lemma {:induction false} CrcOfTwo(w: nat, x: Byte, y: Byte, m: Byte, r: Byte)
    requires BitSteps(Xor(ONES, x), w) == m && BitSteps(Xor(m, y), w) == r
    ensures CrcN(w, ONES, [x, y]) == r
  {
    CrcSnoc(w, ONES, [], x);
    CrcSnoc(w, ONES, [x], y);
    assert [] + [x] == [x] && [x] + [y] == [x, y];
  }

  /** The datasheet's example (section 4.12): the bytes 0xBE 0xEF have the checksum 0x92. */
  lemma {:induction false} DatasheetExample()
    ensures Crc([Byte(true, false, true, true, true, true, true, false),
                 Byte(true, true, true, false, true, true, true, true)])
         == Byte(true, false, false, true, false, false, true, false)
  {
    FirstByteSteps();
    SecondByteSteps();
    var x := Byte(true, false, true, true, true, true, true, false);
    var y := Byte(true, true, true, false, true, true, true, true);
    var m := Byte(false, false, false, false, true, true, false, false);
    var r := Byte(true, false, false, true, false, false, true, false);
    assert Xor(ONES, x) == Byte(false, true, false, false, false, false, false, true);
    assert Xor(m, y) == Byte(true, true, true, false, false, false, true, true);
    CrcOfTwo(8, x, y, m, r);
  }
}

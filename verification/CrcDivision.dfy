/** sht30_crc8 is the remainder of polynomial long division over GF(2) by
    x^8 + x^5 + x^4 + 1 (Sensirion SHT3x-DIS datasheet, section 4.12). */
module CrcDivision {
  import opened Bytes
  import opened Crc8
  import opened CrcErrors

  /** Polynomials as coefficient lists, highest power first. */
  type Poly = seq<bool>

  /** The coefficients of G = x^8 + x^5 + x^4 + 1: places 0, 3, 4 and 8 of nine. */
  predicate InG(i: int) {
    i == 0 || i == 3 || i == 4 || i == 8
  }

  function Add(a: Poly, b: Poly): (r: Poly)
    requires |a| == |b|
    ensures |r| == |a|
  {
    seq(|a|, i requires 0 <= i < |a| => a[i] != b[i])
  }

  /** c times G times x^(n-1). */
  function Multiple(c: bool, n: nat): (m: Poly)
    requires n > 0
    ensures |m| == n + 8 && m[0] == c
  {
    seq(n + 8, i => c && InG(i))
  }

  /** One step of long division: cancel the leading coefficient with a multiple of G, drop it. */
  function Reduce(p: Poly): (r: Poly)
    requires |p| >= 9
    ensures |r| == |p| - 1
  {
    Add(Multiple(p[0], |p| - 8), p)[1..]
  }

  function Quotient(p: Poly): (q: Poly)
    requires |p| >= 8
    ensures |q| == |p| - 8
    decreases |p|
  {
    if |p| == 8 then [] else [p[0]] + Quotient(Reduce(p))
  }

  function Remainder(p: Poly): (r: Poly)
    requires |p| >= 8
    ensures |r| == 8
    decreases |p|
  {
    if |p| == 8 then p else Remainder(Reduce(p))
  }

  /** q times G. */
  function TimesG(q: Poly): (p: Poly)
    ensures |p| == |q| + 8
    decreases |q|
  {
    if q == [] then Clean(8)
    else Add(Multiple(q[0], |q|), [false] + TimesG(q[1..]))
  }

  // ---- long division is division: p == q * G + r, uniquely ----

  predicate Divides(p: Poly, q: Poly, r: Poly) {
    |r| == 8 && |p| == |q| + 8 && p == Add(TimesG(q), Clean(|q|) + r)
  }

  lemma AddCancels(m: Poly, x: Poly, y: Poly)
    requires |m| == |x| == |y|
    ensures Add(m, x) == y <==> x == Add(m, y)
  {
  }

  lemma AddTail(a: Poly, b: Poly)
    requires |a| == |b| > 0
    ensures Add(a, b)[1..] == Add(a[1..], b[1..])
  {
  }

  lemma AddAssoc(a: Poly, b: Poly, c: Poly)
    requires |a| == |b| == |c|
    ensures Add(Add(a, b), c) == Add(a, Add(b, c))
  {
  }

  lemma AddConcat(a: Poly, b: Poly, c: Poly, d: Poly)
    requires |a| == |b| && |c| == |d|
    ensures Add(a + c, b + d) == Add(a, b) + Add(c, d)
  {
  }

  lemma SplitSum(m: Poly, tail: Poly, n: nat, r: Poly)
    requires n > 0 && |m| == n + 8 && |tail| == n + 7 && |r| == 8
    ensures var sum := Add(Add(m, [false] + tail), Clean(n) + r);
            sum[0] == m[0] && sum[1..] == Add(m[1..], Add(tail, Clean(n - 1) + r))
  {
  }

  /** Splitting the leading coefficient off q * G + r. */
  lemma {:induction false} SumSplits(q: Poly, r: Poly)
    requires q != [] && |r| == 8
    ensures var sum := Add(TimesG(q), Clean(|q|) + r);
            var rest := Add(TimesG(q[1..]), Clean(|q| - 1) + r);
            sum[0] == q[0] && sum[1..] == Add(Multiple(q[0], |q|)[1..], rest)
  {
    SplitSum(Multiple(q[0], |q|), TimesG(q[1..]), |q|, r);
  }

  lemma DivideStep(p: Poly, q: Poly, r: Poly)
    requires |p| >= 9 && |q| == |p| - 8 && |r| == 8
    ensures Divides(p, q, r) <==> q[0] == p[0] && Divides(Reduce(p), q[1..], r)
  {
    var sum := Add(TimesG(q), Clean(|q|) + r);
    var rest := Add(TimesG(q[1..]), Clean(|q| - 1) + r);
    SumSplits(q, r);
    assert p == [p[0]] + p[1..] && sum == [sum[0]] + sum[1..];
    if q[0] == p[0] {
      var m := Multiple(p[0], |q|);
      assert Reduce(p) == Add(m[1..], p[1..]);
      AddCancels(m[1..], p[1..], rest);
    }
  }

  /** Long division finds the quotient and remainder, and there are no others. */
  lemma {:induction false} DivisionIsUnique(p: Poly, q: Poly, r: Poly)
    requires |p| >= 8 && |q| == |p| - 8 && |r| == 8
    ensures Divides(p, q, r) <==> q == Quotient(p) && r == Remainder(p)
    decreases |p|
  {
    if |p| == 8 {
      assert q == [];
      assert Add(TimesG(q), Clean(0) + r) == r;
    } else {
      DivideStep(p, q, r);
      DivisionIsUnique(Reduce(p), q[1..], r);
      assert q == [q[0]] + q[1..];
    }
  }

  // ---- the checksum ----

  /** The register's bits as the leading coefficients, plus the message, times x^8. */
  function Dividend(reg: Byte, bits: Poly): (p: Poly)
    ensures |p| == |bits| + 8
  {
    Add(Bits(reg) + Clean(|bits|), bits + Clean(8))
  }

  lemma XorTop(reg: Byte, t: bool)
    ensures Xor(reg, Top(t)) == Byte(reg.b7 != t, reg.b6, reg.b5, reg.b4, reg.b3, reg.b2, reg.b1, reg.b0)
  {
  }

  lemma SpelledBits(b: Byte)
    ensures Bits(Spelled(b)) == Add(Multiple(b.b7, 1)[1..], Bits(b)[1..] + [false])
  {
  }

  /** What a step does to the eight leading coefficients: shift in zero, add G's tail if the
      leading one was set. */
  lemma {:induction false} ReducedBits(reg: Byte, t: bool)
    ensures Bits(BitStep(Xor(reg, Top(t))))
         == Add(Multiple(reg.b7 != t, 1)[1..], Bits(reg)[1..] + [false])
  {
    var b := Xor(reg, Top(t));
    StepIsSpelled(b);
    XorTop(reg, t);
    SpelledBits(b);
    assert Bits(b)[1..] == Bits(reg)[1..];
  }

  lemma {:induction false} ReduceDividend(reg: Byte, bits: Poly)
    requires bits != []
    ensures Reduce(Dividend(reg, bits)) == Dividend(BitStep(Xor(reg, Top(bits[0]))), bits[1..])
  {
    var n := |bits|;
    var x := reg.b7 != bits[0];
    var a, b, m := Bits(reg) + Clean(n), bits + Clean(8), Multiple(x, n);
    var shifted, tail := Bits(reg)[1..] + [false], Multiple(x, 1)[1..];
    assert Dividend(reg, bits)[0] == x;
    AddTail(m, Add(a, b));
    AddTail(a, b);
    AddAssoc(m[1..], a[1..], b[1..]);
    assert a[1..] == shifted + Clean(n - 1);
    assert b[1..] == bits[1..] + Clean(8);
    assert m[1..] == tail + Clean(n - 1);
    AddConcat(tail, shifted, Clean(n - 1), Clean(n - 1));
    assert Add(Clean(n - 1), Clean(n - 1)) == Clean(n - 1);
    ReducedBits(reg, bits[0]);
  }

  lemma {:induction false} FeedFront(reg: Byte, bits: Poly)
    requires bits != []
    ensures BitFeed(reg, bits) == BitFeed(BitStep(Xor(reg, Top(bits[0]))), bits[1..])
  {
    assert bits == [bits[0]] + bits[1..];
    FeedConcat(reg, [bits[0]], bits[1..]);
    assert [bits[0]][..0] == [];
  }

  lemma {:induction false} FeedIsRemainder(reg: Byte, bits: Poly)
    ensures Bits(BitFeed(reg, bits)) == Remainder(Dividend(reg, bits))
    decreases |bits|
  {
    if bits == [] {
      assert Dividend(reg, bits) == Bits(reg);
    } else {
      FeedFront(reg, bits);
      ReduceDividend(reg, bits);
      FeedIsRemainder(BitStep(Xor(reg, Top(bits[0]))), bits[1..]);
    }
  }

  /** MAIN: for every message, the checksum is the remainder by G of the message times x^8 with
      its first eight bits inverted, and it is the only such remainder. */
  lemma {:induction false} CrcIsRemainder(data: seq<Byte>, r: Poly)
    requires |r| == 8
    ensures r == Bits(Crc(data)) <==>
            exists q: Poly :: |q| == 8 * |data| && Divides(Dividend(ONES, AllBits(data)), q, r)
  {
    var p := Dividend(ONES, AllBits(data));
    CrcIsBitFeed(8, ONES, data);
    FeedIsRemainder(ONES, AllBits(data));
    DivisionIsUnique(p, Quotient(p), Remainder(p));
    if q: Poly :| |q| == 8 * |data| && Divides(p, q, r) {
      DivisionIsUnique(p, q, r);
    }
  }
}

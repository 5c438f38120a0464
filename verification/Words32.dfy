/** Unsigned 32-bit words as natural numbers, and the bitwise `&` the C code uses
    as a cheap remainder. */
module Words32 {

  const WORD: nat := 0x1_0000_0000

  type u32 = x: nat | x < WORD

  /** C's `x + 1` on `uint32_t`. */
  function Inc(x: u32): u32 {
    (x + 1) % WORD
  }

  /** C's `x - y` on `uint32_t`. */
  function Minus(x: u32, y: u32): u32 {
    (x - y) % WORD
  }

  lemma IncWraps(x: nat)
    ensures Inc(x % WORD) == (x + 1) % WORD
  {
  }

  /** The difference of two wrapped counters is the true one while it fits a word. */
  lemma MinusExact(x: nat, y: nat)
    requires y <= x < y + WORD
    ensures Minus(x % WORD, y % WORD) == x - y
  {
  }

  /** Bitwise conjunction, bit by bit from the lowest. */
  function And(x: nat, y: nat): (r: nat)
    ensures r <= x && r <= y
  {
    if x == 0 || y == 0 then 0
    else (x % 2) * (y % 2) + 2 * And(x / 2, y / 2)
  }

  function Pow2(k: nat): (p: nat)
    ensures p > 0
  {
    if k == 0 then 1 else 2 * Pow2(k - 1)
  }

  ghost predicate IsPow2(c: nat) {
    exists k: nat :: c == Pow2(k)
  }

  // ---- remainder arithmetic with a variable modulus ----

  lemma MulBound(d: int, c: nat)
    requires d != 0
    ensures d * c >= c || d * c + c <= 0
  {
  }

  lemma DivMod(x: int, c: nat)
    requires c > 0
    ensures x == (x / c) * c + x % c && 0 <= x % c < c
  {
  }

  lemma {:induction false} ModUnique(x: int, c: nat, q: int, s: int)
    requires c > 0 && 0 <= s < c && x == q * c + s
    ensures x % c == s && x / c == q
  {
    DivMod(x, c);
    var d := q - x / c;
    assert d * c == q * c - (x / c) * c;
    if d != 0 {
      MulBound(d, c);
    }
  }

  /** Two indices less than `c` apart never share a residue. */
  lemma {:induction false} ResiduesDistinct(c: nat, i: nat, j: nat)
    requires c > 0 && i < j < i + c
    ensures i % c != j % c
  {
    DivMod(i, c);
    DivMod(j, c);
    var d := j / c - i / c;
    assert d * c == (j / c) * c - (i / c) * c;
    if d != 0 {
      MulBound(d, c);
    }
  }

  lemma {:induction false} ModAddMultiple(i: nat, q: nat, c: nat)
    requires c > 0
    ensures (i + q * c) % c == i % c
  {
    assert i + q * c == (i / c + q) * c + i % c by {
      assert (i / c + q) * c == (i / c) * c + q * c;
    }
    ModUnique(i + q * c, c, i / c + q, i % c);
  }

  lemma {:induction false} ModOfMod(x: int, c: nat, m: nat)
    requires c > 0 && m > 0
    ensures (x % (c * m)) % c == x % c
  {
    var y := x % (c * m);
    var q := x / (c * m);
    DivMod(x, c * m);
    DivMod(y, c);
    assert q * (c * m) == (q * m) * c;
    assert (q * m + y / c) * c == (q * m) * c + (y / c) * c;
    ModUnique(x, c, q * m + y / c, y % c);
  }

  // ---- masks ----

  lemma {:induction false} AndSelf(x: nat)
    ensures And(x, x) == x
  {
    if x > 0 {
      AndSelf(x / 2);
    }
  }

  lemma {:induction false} HalveMod(x: nat, p: nat)
    requires p > 0
    ensures x % (2 * p) == x % 2 + 2 * ((x / 2) % p)
  {
    DivMod(x / 2, p);
    var q, t := (x / 2) / p, (x / 2) % p;
    assert q * (2 * p) == 2 * (q * p);
    ModUnique(x, 2 * p, q, 2 * t + x % 2);
  }

  lemma AndOddMask(x: nat, p: nat)
    requires p > 0
    ensures And(x, 2 * p - 1) == x % 2 + 2 * And(x / 2, p - 1)
  {
  }

  /** `x & (2^k - 1)` is the remainder of `x` by `2^k`. */
  lemma {:induction false} AndMaskIsMod(x: nat, k: nat)
    ensures And(x, Pow2(k) - 1) == x % Pow2(k)
  {
    if k == 0 {
    } else {
      var p := Pow2(k - 1);
      assert Pow2(k) == 2 * p;
      assert And(x / 2, p - 1) == (x / 2) % p by { AndMaskIsMod(x / 2, k - 1); }
      assert And(x, 2 * p - 1) == x % 2 + 2 * And(x / 2, p - 1) by { AndOddMask(x, p); }
      assert x % (2 * p) == x % 2 + 2 * ((x / 2) % p) by { HalveMod(x, p); }
    }
  }

  lemma {:induction false} Pow2Even(k: nat)
    ensures Pow2(k) == 1 || Pow2(k) % 2 == 0
  {
  }

  /** The test of ring_buffer_create accepts exactly the powers of two. */
  lemma {:induction false} PowerOfTwoTest(c: nat)
    requires c > 0
    ensures And(c, c - 1) == 0 <==> IsPow2(c)
  {
    var d := c / 2;
    if c == 1 {
      assert c == Pow2(0);
    } else if c % 2 == 0 {
      assert (c - 1) / 2 == d - 1 && (c - 1) % 2 == 1;
      PowerOfTwoTest(d);
      if IsPow2(d) {
        var k: nat :| d == Pow2(k);
        assert c == Pow2(k + 1);
      }
      if IsPow2(c) {
        var k: nat :| c == Pow2(k);
        assert d == Pow2(k - 1);
      }
    } else {
      assert (c - 1) / 2 == d && c / 2 == d;
      AndSelf(d);
      forall k: nat
        ensures c != Pow2(k)
      {
        Pow2Even(k);
      }
    }
  }

  lemma {:induction false} Pow2Splits(a: nat, b: nat)
    ensures Pow2(a + b) == Pow2(a) * Pow2(b)
  {
    if a == 0 {
    } else {
      Pow2Splits(a - 1, b);
      assert Pow2(a + b) == 2 * (Pow2(a - 1) * Pow2(b));
      assert 2 * (Pow2(a - 1) * Pow2(b)) == (2 * Pow2(a - 1)) * Pow2(b);
    }
  }

  lemma Pow2Word()
    ensures Pow2(32) == WORD
  {
    assert Pow2(8) == 256;
    Pow2Splits(8, 8);
    Pow2Splits(16, 16);
  }

  /** Capacities that fit a 32-bit word divide 2^32, so wrapping keeps residues. */
  lemma WrapKeepsSlot(x: nat, k: nat)
    requires k < 32
    ensures And(x % WORD, Pow2(k) - 1) == x % Pow2(k)
  {
    AndMaskIsMod(x % WORD, k);
    Pow2Word();
    Pow2Splits(k, 32 - k);
    ModOfMod(x, Pow2(k), Pow2(32 - k));
  }

  lemma {:induction false} Pow2Monotone(a: nat, b: nat)
    requires a <= b
    ensures Pow2(a) <= Pow2(b)
  {
    if a < b {
      Pow2Monotone(a, b - 1);
    }
  }

  /** A 32-bit power of two is 2^k with k < 32. */
  lemma WordExponent(c: u32) returns (k: nat)
    requires IsPow2(c)
    ensures k < 32 && c == Pow2(k)
  {
    k :| c == Pow2(k);
    Pow2Word();
    if k >= 32 {
      Pow2Monotone(32, k);
      assert false;
    }
  }
}

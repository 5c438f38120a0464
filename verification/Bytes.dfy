/** Eight-bit bytes as their bits, most significant first. */
module Bytes {

  datatype Byte = Byte(b7: bool, b6: bool, b5: bool, b4: bool, b3: bool, b2: bool, b1: bool, b0: bool)

  const ZERO := Byte(false, false, false, false, false, false, false, false)
  const ONES := Byte(true, true, true, true, true, true, true, true)

  /** `a ^ b`. */
  function Xor(a: Byte, b: Byte): Byte {
    Byte(a.b7 != b.b7, a.b6 != b.b6, a.b5 != b.b5, a.b4 != b.b4,
         a.b3 != b.b3, a.b2 != b.b2, a.b1 != b.b1, a.b0 != b.b0)
  }

  /** `a << 1`, the top bit lost. */
  function Shl(a: Byte): Byte {
    Byte(a.b6, a.b5, a.b4, a.b3, a.b2, a.b1, a.b0, false)
  }

  /** Bit number i, counting from the most significant. */
  predicate BitOf(a: Byte, i: int) {
    if i == 0 then a.b7 else if i == 1 then a.b6 else if i == 2 then a.b5 else if i == 3 then a.b4
    else if i == 4 then a.b3 else if i == 5 then a.b2 else if i == 6 then a.b1 else a.b0
  }

  function Bits(a: Byte): (r: seq<bool>)
    ensures |r| == 8
  {
    seq(8, i => BitOf(a, i))
  }

  function Bit(b: bool): int {
    if b then 1 else 0
  }

  /** The unsigned value. */
  function Value(a: Byte): (v: nat)
    ensures v < 256
  {
    128 * Bit(a.b7) + 64 * Bit(a.b6) + 32 * Bit(a.b5) + 16 * Bit(a.b4)
    + 8 * Bit(a.b3) + 4 * Bit(a.b2) + 2 * Bit(a.b1) + Bit(a.b0)
  }

  lemma XorSwap(a: Byte, b: Byte, c: Byte, d: Byte)
    ensures Xor(Xor(a, b), Xor(c, d)) == Xor(Xor(a, c), Xor(b, d))
  {
  }

  lemma XorZero(a: Byte, b: Byte)
    ensures Xor(a, b) == ZERO <==> a == b
    ensures Xor(a, ZERO) == a && Xor(ZERO, a) == a
  {
  }

  lemma ShlXor(a: Byte, b: Byte)
    ensures Shl(Xor(a, b)) == Xor(Shl(a), Shl(b))
  {
  }

  lemma XorCancel(a: Byte, b: Byte, p: Byte)
    ensures Xor(Xor(a, p), Xor(b, p)) == Xor(a, b)
  {
  }

  lemma XorMove(a: Byte, b: Byte, p: Byte)
    ensures Xor(Xor(a, p), b) == Xor(Xor(a, b), p) && Xor(a, Xor(b, p)) == Xor(Xor(a, b), p)
  {
  }
}

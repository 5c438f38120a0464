/** C integer division, narrowing casts and `struct timespec`. */
module CArith {

  /** `a / b` truncated toward zero, for a positive divisor. */
  function Quot(a: int, b: int): int
    requires b > 0
  {
    if a >= 0 then a / b else -((-a) / b)
  }

  /** `a % b`, with the sign of `a`. */
  function Rem(a: int, b: int): int
    requires b > 0
  {
    a - Quot(a, b) * b
  }

  /** `(uint16_t)x`. */
  function U16(x: int): (r: nat)
    ensures r < 0x1_0000
  {
    x % 0x1_0000
  }

  /** A 16-bit pattern read as `int16_t`. */
  function S16(w: nat): int
    requires w < 0x1_0000
  {
    if w < 0x8000 then w else w - 0x1_0000
  }

  function Min(a: int, b: int): int {
    if a < b then a else b
  }

  const NSEC: int := 1_000_000_000

  datatype Timespec = Timespec(sec: int, nsec: int)

  function Nanos(t: Timespec): int {
    t.sec * NSEC + t.nsec
  }

  /** A time as the clock functions deliver it. */
  predicate Normalised(t: Timespec) {
    0 <= t.nsec < NSEC
  }
}

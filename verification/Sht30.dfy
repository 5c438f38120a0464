/** The measurement part of kernel-drivers/sht30/sht30.c: two checked words, and their
    fixed-point conversion to milli-units. */
module Sht30 {
  import opened CArith
  import opened Bytes
  import opened Crc8
  import opened CrcErrors
  import opened Words32

  type Raw = r: nat | r < 0x1_0000

  /** `(hi << 8) | lo`. */
  function Word(hi: Byte, lo: Byte): Raw {
    256 * Value(hi) + Value(lo)
  }

  /** The `s32` expressions; `>> 13` of a non-negative number. */
  function Temperature(raw: Raw): int {
    (21965 * raw) / 8192 - 45000
  }

  function Humidity(raw: Raw): int {
    (12500 * raw) / 8192
  }

  /** What a measurement leaves in the device structure. */
  datatype Reading = Reading(temp: int, humidity: int, valid: bool)

  predicate Good(buf: seq<Byte>)
    requires |buf| == 6
  {
    Accepts(buf[..3]) && Accepts(buf[3..])
  }

  function Measured(r: Reading, sendRet: int, readRet: int, buf: seq<Byte>): Reading
    requires |buf| == 6
  {
    if sendRet == 0 && readRet == 0 && Good(buf)
    then Reading(Temperature(Word(buf[0], buf[1])), Humidity(Word(buf[3], buf[4])), true)
    else r
  }

  // ---- what a transfer means ----

  /** The number written by some bits, most significant first. */
  function Number(bits: seq<bool>): nat {
    if bits == [] then 0 else 2 * Number(bits[..|bits| - 1]) + if bits[|bits| - 1] then 1 else 0
  }

  /** Sensirion SHT3x-DIS datasheet, section 4.13, in milli-units. */
  function ExactTemperature(raw: nat): real {
    -45000.0 + 175000.0 * (raw as real) / 65535.0
  }

  function ExactHumidity(raw: nat): real {
    100000.0 * (raw as real) / 65535.0
  }

  /** How far the factor 21965 / 8192 is from the datasheet's 175000 / 65535. */
  const EXCESS: real := 5876275.0 / 536862720.0

  /** How far the factor 12500 / 8192 is from the datasheet's 100000 / 65535. */
  const SHORTFALL: real := 12500.0 / 536862720.0

  /** The temperature is what the datasheet makes of the bits, too high in proportion to them and
      then rounded down. */
  ghost predicate TemperatureOf(bits: seq<bool>, temp: int) {
    var raw := Number(bits);
    var err := temp as real - ExactTemperature(raw);
    EXCESS * (raw as real) - 1.0 < err <= EXCESS * (raw as real) && -1.0 < err < 718.0
  }

  /** The humidity is what the datasheet makes of the bits, too low in proportion to them and then
      rounded down. */
  ghost predicate HumidityOf(bits: seq<bool>, humidity: int) {
    var raw := Number(bits);
    var err := ExactHumidity(raw) - humidity as real;
    SHORTFALL * (raw as real) <= err < SHORTFALL * (raw as real) + 1.0 && 0.0 <= err < 3.0
  }

  /** What a run of the work handler leaves, from the bytes alone: the temperature of the first two
      and the humidity of the fourth and fifth if both bus calls succeeded and both checksums
      fit, the old reading otherwise. */
  ghost predicate IsReading(now: Reading, before: Reading, sendRet: int, readRet: int, buf: seq<Byte>)
    requires |buf| == 6
  {
    if sendRet == 0 && readRet == 0 && Accepts(buf[..3]) && Accepts(buf[3..])
    then now.valid && TemperatureOf(AllBits(buf[0..2]), now.temp) && HumidityOf(AllBits(buf[3..5]), now.humidity)
    else now == before
  }

  class Device {
    var temp: int
    var humidity: int
    var valid: bool

    function State(): Reading
      reads this
    {
      Reading(temp, humidity, valid)
    }

    constructor ()
      ensures State() == Reading(0, 0, false)
    {
      temp, humidity, valid := 0, 0, false;
    }

    /** Both bus calls succeeded and both checksums fit. */
    method Transferred(sendRet: int, readRet: int, buf: array<Byte>) returns (ok: bool)
      requires buf.Length == 6
      ensures ok <==> sendRet == 0 && readRet == 0 && Good(buf[..])
    {
      if sendRet != 0 || readRet != 0 {
        return false;
      }
      assert buf[..][..3][..2] == buf[0..2] && buf[..][3..][..2] == buf[3..5];
      var c := Checksum(buf, 0, 2);
      if c != buf[2] {
        return false;
      }
      c := Checksum(buf, 3, 2);
      return c == buf[5];
    }

    /** One run of the work handler; `sendRet` and `readRet` are what the bus returned. */
    method Work(sendRet: int, readRet: int, buf: array<Byte>)
      requires buf.Length == 6
      modifies this
      ensures State() == Measured(old(State()), sendRet, readRet, buf[..])
      ensures IsReading(State(), old(State()), sendRet, readRet, buf[..])
    {
      AcceptedIsStored(State(), sendRet, readRet, buf[..]);
      var ok := Transferred(sendRet, readRet, buf);
      if ok {
        temp := Temperature(Word(buf[0], buf[1]));
        humidity := Humidity(Word(buf[3], buf[4]));
        valid := true;
      }
    }
  }

  /** Which bits of one three-byte frame a disturbance flips. */
  ghost predicate Disturbance(e: seq<Byte>) {
    |e| == 3 &&
    (|| Odd(Ones(AllBits(e)))
     || (exists before: nat, w: seq<bool>, after: nat ::
           AllBits(e) == Clean(before) + w + Clean(after) && |w| <= 8 && true in w)
     || (exists before: nat, d: nat, after: nat ::
           d > 0 && AllBits(e) == Clean(before) + Pair(d) + Clean(after)))
  }

  lemma DisturbanceIsSeen(frame: seq<Byte>, e: seq<Byte>)
    requires |frame| == 3 && Accepts(frame) && Disturbance(e)
    ensures !Accepts(Flip(frame, e))
  {
    if Odd(Ones(AllBits(e))) {
      OddErrorsAreDetected(frame, e);
    } else if before: nat, w: seq<bool>, after: nat :|
      AllBits(e) == Clean(before) + w + Clean(after) && |w| <= 8 && true in w {
      BurstsAreDetected(frame, e, before, w, after);
    } else {
      var before: nat, d: nat, after: nat :|
        d > 0 && AllBits(e) == Clean(before) + Pair(d) + Clean(after);
      TwoFlippedBits(frame, e, before, d, after);
    }
  }

  /** MAIN: a transfer that flips an odd number of bits, any two bits, or any burst of up to
      eight bits of the temperature frame leaves the previous reading in place, whatever
      happens to the humidity frame. */
  lemma DisturbedTransferIsIgnored(r: Reading, sent: seq<Byte>, e: seq<Byte>, humidity: seq<Byte>)
    requires |sent| == |humidity| == 3 && Accepts(sent) && Disturbance(e)
    ensures Measured(r, 0, 0, Flip(sent, e) + humidity) == r
    ensures Measured(r, 0, 0, humidity + Flip(sent, e)) == r
  {
    DisturbanceIsSeen(sent, e);
    assert (Flip(sent, e) + humidity)[..3] == Flip(sent, e);
    assert (humidity + Flip(sent, e))[3..] == Flip(sent, e);
  }

  // ---- accuracy ----

  /** Nothing overflows 32 bits on the way. */
  lemma NoOverflow(raw: Raw)
    ensures 0 <= 21965 * raw < 0x8000_0000 && 0 <= 12500 * raw < 0x8000_0000
    ensures -45000 <= Temperature(raw) <= 130717 && 0 <= Humidity(raw) <= 99998
  {
  }

  lemma ConversionsAreMonotone(a: Raw, b: Raw)
    requires a <= b
    ensures Temperature(a) <= Temperature(b) && Humidity(a) <= Humidity(b)
  {
  }

  /** The code overstates the temperature by raw * EXCESS, rounded down by less than one
      milli-degree; the error therefore grows with the temperature and reaches 717. */
  lemma TemperatureError(raw: Raw)
    ensures var err := Temperature(raw) as real - ExactTemperature(raw);
            && EXCESS * (raw as real) - 1.0 < err <= EXCESS * (raw as real)
            && -1.0 < err < 718.0
    ensures raw == 65535 ==> Temperature(raw) as real - ExactTemperature(raw) == 717.0
  {
  }

  /** The humidity is never overstated, and understated by raw * SHORTFALL, rounded down: less than
      three milli-percent. */
  lemma HumidityError(raw: Raw)
    ensures var err := ExactHumidity(raw) - Humidity(raw) as real;
            SHORTFALL * (raw as real) <= err < SHORTFALL * (raw as real) + 1.0 && 0.0 <= err < 3.0
  {
  }

  // ---- the bits of a word ----

  lemma NumberSnoc(bits: seq<bool>, b: bool)
    ensures Number(bits + [b]) == 2 * Number(bits) + if b then 1 else 0
  {
  }

  lemma {:induction false} NumberConcat(a: seq<bool>, b: seq<bool>)
    ensures Number(a + b) == Number(a) * Pow2(|b|) + Number(b)
    decreases |b|
  {
    if b == [] {
      assert a + b == a;
    } else {
      var m := |b| - 1;
      NumberConcat(a, b[..m]);
      assert (a + b)[..|a + b| - 1] == a + b[..m];
      assert Number(a) * Pow2(|b|) == 2 * (Number(a) * Pow2(m));
    }
  }

  lemma {:induction false} NumberOfFour(a: bool, b: bool, c: bool, d: bool)
    ensures Number([a, b, c, d]) == 8 * Bit(a) + 4 * Bit(b) + 2 * Bit(c) + Bit(d)
  {
    NumberSnoc([], a);
    NumberSnoc([a], b);
    NumberSnoc([a, b], c);
    NumberSnoc([a, b, c], d);
    assert [] + [a] == [a] && [a] + [b] == [a, b];
    assert [a, b] + [c] == [a, b, c] && [a, b, c] + [d] == [a, b, c, d];
  }

  lemma BitsInOrder(x: Byte)
    ensures Bits(x) == [x.b7, x.b6, x.b5, x.b4] + [x.b3, x.b2, x.b1, x.b0]
  {
  }

  lemma {:induction false} NumberOfHalves(a: seq<bool>, b: seq<bool>)
    ensures |b| == 4 ==> Number(a + b) == 16 * Number(a) + Number(b)
    ensures |b| == 8 ==> Number(a + b) == 256 * Number(a) + Number(b)
  {
    NumberConcat(a, b);
    assert Pow2(4) == 16 && Pow2(8) == 256;
  }

  lemma {:induction false} NumberOfByte(x: Byte)
    ensures Number(Bits(x)) == Value(x)
  {
    var hi, lo := [x.b7, x.b6, x.b5, x.b4], [x.b3, x.b2, x.b1, x.b0];
    NumberOfFour(x.b7, x.b6, x.b5, x.b4);
    NumberOfFour(x.b3, x.b2, x.b1, x.b0);
    NumberOfHalves(hi, lo);
    BitsInOrder(x);
  }

  /** The word is the sixteen bits of its bytes, as they came over the bus. */
  lemma {:induction false} WordIsNumber(hi: Byte, lo: Byte)
    ensures Word(hi, lo) == Number(AllBits([hi, lo]))
  {
    assert [hi, lo][..1] == [hi] && [hi][..0] == [];
    assert AllBits([hi, lo]) == Bits(hi) + Bits(lo);
    NumberOfHalves(Bits(hi), Bits(lo));
    NumberOfByte(hi);
    NumberOfByte(lo);
  }

  lemma WordIsRead(hi: Byte, lo: Byte)
    ensures TemperatureOf(AllBits([hi, lo]), Temperature(Word(hi, lo)))
    ensures HumidityOf(AllBits([hi, lo]), Humidity(Word(hi, lo)))
  {
    WordIsNumber(hi, lo);
    TemperatureError(Word(hi, lo));
    HumidityError(Word(hi, lo));
  }

  /** MAIN, what a transfer stores: of a good one the temperature of its first two bytes and the
      humidity of its fourth and fifth, each within its error of the datasheet. */
  lemma {:induction false} AcceptedIsStored(r: Reading, sendRet: int, readRet: int, buf: seq<Byte>)
    requires |buf| == 6
    ensures IsReading(Measured(r, sendRet, readRet, buf), r, sendRet, readRet, buf)
  {
    assert buf[0..2] == [buf[0], buf[1]] && buf[3..5] == [buf[3], buf[4]];
    WordIsRead(buf[0], buf[1]);
    WordIsRead(buf[3], buf[4]);
  }

  /** Every temperature the driver can report survives the trip through the 16-bit Modbus
      register, as hundredths truncated toward zero. */
  lemma TemperatureFitsRegister(raw: Raw)
    ensures S16(U16(Quot(Temperature(raw), 10))) == Quot(Temperature(raw), 10)
  {
  }
}

/** The lock-free single-producer single-consumer queue of app/core/ring_buffer.c. */
module RingBuffer {
  import opened Words32

  /** `AsWritten` compares the masked `w + 1` with the unmasked read index, as the code does.
      `Masked` masks both sides: the queue the code intends. */
  datatype Variant = AsWritten | Masked

  function FullTest(v: Variant, mask: nat, w: u32, r: u32): bool {
    And(Inc(w), mask) == match v case AsWritten => r case Masked => And(r, mask)
  }

  /** What the two threads share. */
  datatype Mem<T> = Mem(w: u32, r: u32, slots: seq<T>)

  /** A whole write call with nobody in between. */
  function WriteMem<T>(v: Variant, mask: nat, m: Mem<T>, x: T): Mem<T>
    requires |m.slots| == mask + 1
  {
    if FullTest(v, mask, m.w, m.r) then m
    else m.(w := Inc(m.w), slots := m.slots[m.w % |m.slots| := x])
  }

  /** The C object: two free-running indices and the slots. */
  class RingBuffer<T(0)> {
    var writeIdx: u32
    var readIdx: u32
    const mask: u32
    const buffer: array<T>

    ghost predicate Valid()
      reads this
    {
      exists k: nat :: k < 32 && mask == Pow2(k) - 1 && buffer.Length == Pow2(k)
    }

    ghost function View(): (m: Mem<T>)
      requires Valid()
      reads this, buffer
      ensures |m.slots| == mask + 1
    {
      Mem(writeIdx, readIdx, buffer[..])
    }

    constructor Init(capacity: u32)
      requires IsPow2(capacity)
      ensures Valid() && writeIdx == 0 && readIdx == 0
      ensures mask == capacity - 1 && fresh(buffer)
    {
      writeIdx, readIdx := 0, 0;
      mask := capacity - 1;
      buffer := new T[capacity];
      new;
      var k := WordExponent(capacity);
    }

    /** `structOk` and `slotsOk` say whether the two allocations succeed. */
    static method Create(capacity: u32, structOk: bool, slotsOk: bool) returns (rb: RingBuffer?<T>)
      ensures rb != null <==> IsPow2(capacity) && structOk && slotsOk
      ensures rb != null ==> fresh(rb) && fresh(rb.buffer) && rb.Valid()
      ensures rb != null ==> rb.writeIdx == 0 && rb.readIdx == 0 && rb.buffer.Length == capacity
    {
      if capacity == 0 || And(capacity, capacity - 1) != 0 {
        if capacity > 0 { PowerOfTwoTest(capacity); }
        return null;
      }
      PowerOfTwoTest(capacity);
      if !structOk || !slotsOk {
        return null;
      }
      rb := new RingBuffer.Init(capacity);
      var k := WordExponent(capacity);
    }

    method Write(data: T) returns (ok: bool)
      requires Valid()
      modifies this`writeIdx, buffer
      ensures Valid()
      ensures ok == !FullTest(AsWritten, mask, old(writeIdx), readIdx)
      ensures View() == WriteMem(AsWritten, mask, old(View()), data)
    {
      var w := writeIdx;
      var r := readIdx;
      if And(Inc(w), mask) == r {
        return false;
      }
      ghost var k: nat :| k < 32 && mask == Pow2(k) - 1 && buffer.Length == Pow2(k);
      AndMaskIsMod(w, k);
      buffer[And(w, mask)] := data;
      writeIdx := Inc(w);
      return true;
    }

    method Read(dflt: T) returns (ok: bool, data: T)
      requires Valid()
      modifies this`readIdx
      ensures Valid()
      ensures ok == (old(readIdx) != writeIdx)
      ensures if ok then readIdx == Inc(old(readIdx)) && data == buffer[old(readIdx) % (mask + 1)]
              else readIdx == old(readIdx) && data == dflt
    {
      var r := readIdx;
      var w := writeIdx;
      if r == w {
        return false, dflt;
      }
      ghost var k: nat :| k < 32 && mask == Pow2(k) - 1 && buffer.Length == Pow2(k);
      AndMaskIsMod(r, k);
      data := buffer[And(r, mask)];
      readIdx := Inc(r);
      return true, data;
    }

    method Count() returns (n: u32)
      requires Valid()
      ensures n == Minus(writeIdx, readIdx) % (mask + 1)
    {
      var w := writeIdx;
      var r := readIdx;
      n := And(Minus(w, r), mask);
      ghost var k: nat :| k < 32 && mask == Pow2(k) - 1 && buffer.Length == Pow2(k);
      AndMaskIsMod(Minus(w, r), k);
    }

    method Capacity() returns (n: nat)
      requires Valid()
      ensures n == buffer.Length
    {
      n := mask + 1;
    }
  }
}

/** The board-support layer the driver talks to: fixed-width integer types, the
    outcome codes of the HAL, the I2C handle with the EEPROM chip behind it,
    the CRC peripheral handle, and the blocking delay. None of this is the
    driver's own logic; it is modelled just far enough for the driver's
    contracts to say what the driver does to the bus and the chip. */
module Hal {

  type byte = x: int | 0 <= x < 0x100
  type u16 = x: int | 0 <= x < 0x1_0000
  type u32 = x: int | 0 <= x < 0x1_0000_0000

  /** Size of the chip's 16-bit memory address space; all address arithmetic wraps modulo this. */
  const ADDRESS_SPACE: nat := 0x1_0000

  /** HAL_StatusTypeDef. */
  datatype HalStatus = HalOk | HalError | HalBusy | HalTimeout

  /** Which HAL memory operation a bus call is: HAL_I2C_Mem_Write or HAL_I2C_Mem_Read. */
  datatype Direction = ToDevice | FromDevice

  /** What the outside world can observe of the driver: one entry per memory
      transfer on the bus (with the timeout it was given), and one per
      blocking delay, in the order they happen. */
  datatype Event =
    | BusOp(dir: Direction, devAddress: u16, memAddress: u16, len: nat, timeout: nat, status: HalStatus)
    | Delay(ms: nat)

  /** The observable state of the bus and the chip behind it (see I2cHandle). */
  datatype BusState = BusState(memory: seq<byte>, faults: map<nat, HalStatus>, calls: nat, trace: seq<Event>)
  {
    predicate Valid() { |memory| == ADDRESS_SPACE }
  }

  /** A transfer's outcome and the bus state after it. */
  datatype Transfer = Transfer(status: HalStatus, bus: BusState)

  /** A read's outcome, the bytes it delivered, and the bus state after it. */
  datatype Fetch = Fetch(status: HalStatus, data: seq<byte>, bus: BusState)

  /** Outcome the bus gives to transport call number `call`: the planned fault, if any, else success. */
  function Outcome(faults: map<nat, HalStatus>, call: nat): HalStatus
  {
    if call in faults then faults[call] else HalOk
  }

  /** The address `k` bytes after `base`, wrapping around the address space. */
  function Addr(base: int, k: int): u16
  {
    (base + k) % ADDRESS_SPACE
  }

  /** Forward distance from address `base` to address `a` in the wrapping address space. */
  function Offset(base: int, a: int): nat
  {
    (a - base) % ADDRESS_SPACE
  }

  lemma OffsetOfSum(base: u16, k: int)
    requires 0 <= k < ADDRESS_SPACE
    ensures Offset(base, Addr(base, k)) == k
  {
    if base + k < ADDRESS_SPACE {
      assert (base + k) % ADDRESS_SPACE == base + k;
    } else {
      assert (base + k) % ADDRESS_SPACE == base + k - ADDRESS_SPACE;
      assert (k - ADDRESS_SPACE) % ADDRESS_SPACE == k;
    }
  }

  lemma OffsetsOfSums(base: u16)
    ensures forall k :: 0 <= k < ADDRESS_SPACE ==> Offset(base, Addr(base, k)) == k
  {
    forall k | 0 <= k < ADDRESS_SPACE
      ensures Offset(base, Addr(base, k)) == k
    {
      OffsetOfSum(base, k);
    }
  }

  /** The chip's memory after `data` is written starting at `addr`: the written
      bytes land at consecutive (wrapping) addresses, every other cell keeps its value. */
  function Store(mem: seq<byte>, addr: u16, data: seq<byte>): (r: seq<byte>)
    requires |mem| == ADDRESS_SPACE && |data| <= ADDRESS_SPACE
    ensures |r| == ADDRESS_SPACE
    ensures forall k :: 0 <= k < |data| ==> r[Addr(addr, k)] == data[k]
    ensures forall a :: 0 <= a < ADDRESS_SPACE && Offset(addr, a) >= |data| ==> r[a] == mem[a]
  {
    OffsetsOfSums(addr);
    seq(ADDRESS_SPACE, a requires 0 <= a < ADDRESS_SPACE =>
      if Offset(addr, a) < |data| then data[Offset(addr, a)] else mem[a])
  }

  /** The `len` bytes of the chip's memory from `addr` on (wrapping). */
  function Load(mem: seq<byte>, addr: u16, len: nat): seq<byte>
    requires |mem| == ADDRESS_SPACE
  {
    seq(len, k requires 0 <= k < len => mem[Addr(addr, k)])
  }

  /** HAL_I2C_Mem_Write on the bus state: the call takes the next call
      number; if its planned outcome is success the chip stores `data` at
      `addr`, otherwise nothing changes in the chip. */
  function BusWrite(b: BusState, dev: u16, addr: u16, data: seq<byte>, timeout: nat): (r: Transfer)
    requires b.Valid() && |data| <= ADDRESS_SPACE
    ensures r.bus.Valid() && r.bus.faults == b.faults && r.bus.calls == b.calls + 1
    ensures r.status == HalOk ==> Load(r.bus.memory, addr, |data|) == data
    ensures r.status != HalOk ==> r.bus.memory == b.memory
  {
    var st := Outcome(b.faults, b.calls);
    LoadStore(b.memory, addr, data);
    Transfer(st, BusState(if st == HalOk then Store(b.memory, addr, data) else b.memory,
                          b.faults, b.calls + 1, b.trace + [BusOp(ToDevice, dev, addr, |data|, timeout, st)]))
  }

  /** HAL_I2C_Mem_Read on the bus state: on success it delivers the `len`
      bytes at `addr`, on failure nothing; the chip is never changed. */
  function BusRead(b: BusState, dev: u16, addr: u16, len: nat, timeout: nat): (r: Fetch)
    requires b.Valid()
    ensures r.bus.Valid() && r.bus.memory == b.memory && r.bus.faults == b.faults && r.bus.calls == b.calls + 1
    ensures |r.data| == if r.status == HalOk then len else 0
  {
    var st := Outcome(b.faults, b.calls);
    Fetch(st, if st == HalOk then Load(b.memory, addr, len) else [],
          BusState(b.memory, b.faults, b.calls + 1, b.trace + [BusOp(FromDevice, dev, addr, len, timeout, st)]))
  }

  /** HAL_Delay on the bus state: only the trace records it. */
  function BusDelay(b: BusState, ms: nat): BusState
  {
    BusState(b.memory, b.faults, b.calls, b.trace + [Event.Delay(ms)])
  }

  /** The HAL I2C handle together with the EEPROM chip on its bus. Every
      memory transfer consumes one call number; the planned outcome of that
      number decides whether it succeeds. A failed transfer moves no data. */
  class I2cHandle {
    /** The chip's cells, by 16-bit memory address. */
    var memory: seq<byte>
    /** Planned failures, by call number; a call not listed succeeds. */
    const faults: map<nat, HalStatus>
    /** Number of memory transfers issued so far. */
    var calls: nat
    /** Every memory transfer and every delay so far, in order. */
    var trace: seq<Event>

    ghost predicate Valid()
      reads this
    {
      |memory| == ADDRESS_SPACE
    }

    function State(): (b: BusState)
      reads this
      ensures Valid() ==> b.Valid()
    {
      BusState(memory, faults, calls, trace)
    }

    constructor (memory: seq<byte>, faults: map<nat, HalStatus>)
      requires |memory| == ADDRESS_SPACE
      ensures Valid() && State() == BusState(memory, faults, 0, [])
    {
      this.memory := memory;
      this.faults := faults;
      calls := 0;
      trace := [];
    }

    /** HAL_I2C_Mem_Write with a 16-bit memory address. */
    method MemWrite(dev: u16, addr: u16, data: seq<byte>, timeout: nat) returns (st: HalStatus)
      requires Valid() && |data| <= ADDRESS_SPACE
      modifies this
      ensures Valid()
      ensures Transfer(st, State()) == BusWrite(old(State()), dev, addr, data, timeout)
    {
      st := Outcome(faults, calls);
      if st == HalOk {
        memory := Store(memory, addr, data);
      }
      calls := calls + 1;
      trace := trace + [BusOp(ToDevice, dev, addr, |data|, timeout, st)];
    }

    /** HAL_I2C_Mem_Read with a 16-bit memory address, into buf[offset..offset + len]. */
    method MemRead(dev: u16, addr: u16, buf: array<byte>, offset: nat, len: nat, timeout: nat) returns (st: HalStatus)
      requires Valid() && offset + len <= buf.Length
      modifies this, buf
      ensures Valid()
      ensures var f := BusRead(old(State()), dev, addr, len, timeout);
        && st == f.status && State() == f.bus
        && buf[..] == old(buf[..offset]) + f.data + old(buf[offset + |f.data|..])
    {
      st := Outcome(faults, calls);
      if st == HalOk {
        forall k | 0 <= k < len {
          buf[offset + k] := memory[Addr(addr, k)];
        }
        assert buf[..] == old(buf[..offset]) + Load(memory, addr, len) + old(buf[offset + len..]);
      }
      calls := calls + 1;
      trace := trace + [BusOp(FromDevice, dev, addr, len, timeout, st)];
    }

    /** HAL_Delay: recorded on the same timeline as the transfers, so that its
        place between two transfers can be stated. */
    method Delay(ms: nat)
      requires Valid()
      modifies this
      ensures Valid() && State() == BusDelay(old(State()), ms)
    {
      trace := trace + [Event.Delay(ms)];
    }
  }
  /** The HAL CRC handle: HAL_CRC_Calculate is a function of the 32-bit words it is given. */
  class CrcHandle {
    const calculate: seq<u32> -> u32

    constructor (calculate: seq<u32> -> u32)
      ensures this.calculate == calculate
    {
      this.calculate := calculate;
    }
  }

  /** Reading back what was just stored gives the stored bytes. */
  lemma LoadStore(mem: seq<byte>, addr: u16, data: seq<byte>)
    requires |mem| == ADDRESS_SPACE && |data| <= ADDRESS_SPACE
    ensures Load(Store(mem, addr, data), addr, |data|) == data
  {
  }

  /** A store leaves a range alone that lies `gap` or more bytes before it
      (and that it does not reach around the address space to). */
  lemma LoadStoreElsewhere(mem: seq<byte>, a: u16, n: nat, gap: nat, data: seq<byte>)
    requires |mem| == ADDRESS_SPACE && n <= gap && gap + |data| <= ADDRESS_SPACE
    ensures Load(Store(mem, Addr(a, gap), data), a, n) == Load(mem, a, n)
  {
    forall k | 0 <= k < n
      ensures Offset(Addr(a, gap), Addr(a, k)) >= |data|
    {
      OffsetBehind(a, k, gap);
    }
  }

  /** An address `k` bytes after `a` lies `M + k - gap` bytes after the one `gap` bytes after `a`. */
  lemma OffsetBehind(a: u16, k: nat, gap: nat)
    requires k < gap <= ADDRESS_SPACE
    ensures Offset(Addr(a, gap), Addr(a, k)) == ADDRESS_SPACE + k - gap
  {
    ModSubMod(a + k, a + gap);
    assert (k - gap) % ADDRESS_SPACE == k - gap + ADDRESS_SPACE;
  }

  /** ((x mod M) - (y mod M)) mod M == (x - y) mod M for M the address space. */
  lemma ModSubMod(x: int, y: int)
    ensures ((x % ADDRESS_SPACE) - (y % ADDRESS_SPACE)) % ADDRESS_SPACE == (x - y) % ADDRESS_SPACE
  {
    var qx, qy := x / ADDRESS_SPACE, y / ADDRESS_SPACE;
    assert x % ADDRESS_SPACE - y % ADDRESS_SPACE == (x - y) - ADDRESS_SPACE * (qx - qy);
    ModMultiple(x - y, qy - qx);
  }

  /** Adding a multiple of M does not change a residue mod M. */
  lemma ModMultiple(x: int, q: int)
    ensures (x + ADDRESS_SPACE * q) % ADDRESS_SPACE == x % ADDRESS_SPACE
  {
  }

  /** Where address `a` sits relative to a store at `addr` and to one `o` bytes further on. */
  lemma OffsetShift(addr: u16, a: u16, o: nat)
    requires o <= ADDRESS_SPACE
    ensures a == Addr(addr, Offset(addr, a))
    ensures Offset(Addr(addr, o), a) == if Offset(addr, a) < o then Offset(addr, a) - o + ADDRESS_SPACE
                                        else Offset(addr, a) - o
  {
    AddrOfOffset(addr, a);
    OffsetFromShifted(addr, a, o);
  }

  lemma AddrOfOffset(addr: u16, a: u16)
    ensures a == Addr(addr, Offset(addr, a))
  {
    ModSubMod(a, addr);
    ModSubMod(addr + (a - addr), addr);
    ModMultiple(a, 0);
  }

  lemma OffsetFromShifted(addr: u16, a: u16, o: nat)
    requires o <= ADDRESS_SPACE
    ensures Offset(Addr(addr, o), a) == if Offset(addr, a) < o then Offset(addr, a) - o + ADDRESS_SPACE
                                        else Offset(addr, a) - o
  {
    var t := Offset(addr, a);
    var q1 := (addr + o) / ADDRESS_SPACE;
    var q2 := (a - addr) / ADDRESS_SPACE;
    assert a - Addr(addr, o) == (t - o) + ADDRESS_SPACE * (q1 + q2);
    ModMultiple(t - o, q1 + q2);
    ModInRange(t - o);
  }

  lemma ModInRange(x: int)
    requires -(ADDRESS_SPACE as int) <= x < ADDRESS_SPACE
    ensures x % ADDRESS_SPACE == if x < 0 then x + ADDRESS_SPACE else x
  {
  }

  /** Stepping `a` bytes and then `b` bytes is stepping `c` = `a + b` bytes. */
  lemma AddrShift(base: u16, a: int, b: int, c: int)
    requires c == a + b
    ensures Addr(Addr(base, a), b) == Addr(base, c)
  {
    ModMultiple(base + a + b, -((base + a) / ADDRESS_SPACE));
  }

  /** Storing a buffer's first `o` bytes and then its next `c` bytes right
      after them is storing its first `e` = `o + c` bytes. */
  lemma StoreAppend(mem: seq<byte>, addr: u16, data: seq<byte>, o: nat, c: nat, e: nat)
    requires |mem| == ADDRESS_SPACE && e == o + c && e <= |data| <= ADDRESS_SPACE
    ensures Store(Store(mem, addr, data[..o]), Addr(addr, o), data[o..o + c])
         == Store(mem, addr, data[..e])
  {
    var lhs := Store(Store(mem, addr, data[..o]), Addr(addr, o), data[o..o + c]);
    var rhs := Store(mem, addr, data[..o + c]);
    forall a | 0 <= a < ADDRESS_SPACE
      ensures lhs[a] == rhs[a]
    {
      StoreAppendAt(mem, addr, data, o, c, a);
    }
  }

  lemma StoreAppendAt(mem: seq<byte>, addr: u16, data: seq<byte>, o: nat, c: nat, a: u16)
    requires |mem| == ADDRESS_SPACE && o + c <= |data| <= ADDRESS_SPACE
    ensures Store(Store(mem, addr, data[..o]), Addr(addr, o), data[o..o + c])[a]
         == Store(mem, addr, data[..o + c])[a]
  {
    var next := Addr(addr, o);
    var inner := Store(mem, addr, data[..o]);
    var lhs := Store(inner, next, data[o..o + c]);
    var rhs := Store(mem, addr, data[..o + c]);
    var t := Offset(addr, a);
    var u := Offset(next, a);
    OffsetShift(addr, a, o);
    OffsetShift(next, a, 0);
    assert a == Addr(addr, t) && a == Addr(next, u);
    if t < o {
      assert u >= c;
      calc {
        lhs[a];
        inner[a];
        inner[Addr(addr, t)];
        data[..o][t];
        data[t];
        data[..o + c][t];
        rhs[Addr(addr, t)];
      }
    } else if t < o + c {
      assert u == t - o;
      calc {
        lhs[a];
        lhs[Addr(next, u)];
        data[o..o + c][u];
        { assert o + u == t; }
        data[t];
        data[..o + c][t];
        rhs[Addr(addr, t)];
      }
    } else {
      assert u >= c;
      assert lhs[a] == inner[a] == mem[a] == rhs[a];
    }
  }

  /** Loading `o` bytes and then the `c` bytes right after them is loading `o + c` bytes. */
  lemma LoadAppend(mem: seq<byte>, addr: u16, o: nat, c: nat)
    requires |mem| == ADDRESS_SPACE
    ensures Load(mem, addr, o) + Load(mem, Addr(addr, o), c) == Load(mem, addr, o + c)
  {
    var next := Addr(addr, o);
    forall k | 0 <= k < c
      ensures Addr(next, k) == Addr(addr, o + k)
    {
      ModMultiple(addr + o + k, -((addr + o) / ADDRESS_SPACE));
    }
  }

  /** Filling the next `c` places of a buffer whose first `o` places already
      hold the bytes loaded from `addr` extends the loaded prefix to `e` = `o + c`. */
  lemma FillAppend(mem: seq<byte>, addr: u16, o: nat, c: nat, e: nat, buf0: seq<byte>, cur: seq<byte>, next: seq<byte>)
    requires |mem| == ADDRESS_SPACE && e == o + c && e <= |buf0|
    requires cur == Load(mem, addr, o) + buf0[o..]
    requires next == cur[..o] + Load(mem, Addr(addr, o), c) + cur[o + c..]
    ensures next == Load(mem, addr, e) + buf0[e..]
  {
    assert cur[..o] == Load(mem, addr, o);
    assert cur[o + c..] == buf0[o + c..];
    LoadAppend(mem, addr, o, c);
  }
}

/** The EEPROM driver: its status codes, what each of its operations does to
    the bus and the chip (as functions of the bus state before the call),
    the driver object with its configuration fields and the methods that
    carry out those operations step by step, and the C entry points that
    forward to the one driver instance. */
module EepromDriver {
  import opened Hal
  import opened Paging
  import opened PageTransfer
  import opened Checksum

  /** EEPROM_Status. */
  datatype Status = Success | NotInitialized | Busy | Timeout | InvalidCrc | Error

  /** decodeStatus: every HAL outcome has a driver status; success stays
      success, busy and timeout keep their meaning, anything else is Error.
      The two driver-only statuses never come out of it. */
  function DecodeStatus(h: HalStatus): (r: Status)
    ensures r == Success <==> h == HalOk
    ensures r == Busy <==> h == HalBusy
    ensures r == Timeout <==> h == HalTimeout
    ensures r == Error <==> h == HalError
    ensures r != NotInitialized && r != InvalidCrc
  {
    match h
    case HalOk => Success
    case HalBusy => Busy
    case HalTimeout => Timeout
    case _ => Error
  }

  /** The driver's settings once both handles are present: page size,
      device address, and the checksum engine behind the CRC handle. */
  datatype Config = Config(pageSize: u16, deviceAddress: u16, engine: seq<u32> -> u32)

  /** A checksum read's outcome, the record it decoded (0 when it failed),
      and the bus state after it. */
  datatype CrcFetch = CrcFetch(status: HalStatus, word: u32, bus: BusState)

  /** The result of write: its status and the bus state after it. */
  datatype WriteOutcome = WriteOutcome(status: Status, bus: BusState)

  /** The result of read: its status, the caller's buffer afterwards, and
      the bus state after it. */
  datatype ReadOutcome = ReadOutcome(status: Status, buffer: seq<byte>, bus: BusState)

  /** writeBuffer: the paged loop with HAL_I2C_Mem_Write and the settle delay.
      The chip receives the bytes the successful calls carried, a prefix of
      `data`, stored from the first page's address on. */
  function WriteBufferSpec(pageSize: u16, dev: u16, b: BusState, page: u16, data: seq<byte>): (r: Transfer)
    requires pageSize > 0 && b.Valid() && |data| < ADDRESS_SPACE
    ensures r.bus.Valid() && r.bus.faults == b.faults && r.bus.calls >= b.calls
  {
    var s := Setup(ToDevice, WRITE_DELAY, dev, pageSize, b.faults);
    var addr := PageAddress(pageSize, page);
    var run := LoopRun(s, |data|, addr, b.calls);
    Transfer(run.status, BusState(Store(b.memory, addr, data[..run.moved]), b.faults,
                                  b.calls + run.calls, b.trace + LoopEvents(s, |data|, addr, b.calls)))
  }

  /** readBuffer: the paged loop with HAL_I2C_Mem_Read and no delay. It
      delivers the bytes the successful calls fetched, read from the first
      page's address on; the chip is unchanged. */
  function ReadBufferSpec(pageSize: u16, dev: u16, b: BusState, page: u16, size: u16): (r: Fetch)
    requires pageSize > 0 && b.Valid()
    ensures r.bus.Valid() && r.bus.memory == b.memory && r.bus.faults == b.faults && r.bus.calls >= b.calls
    ensures |r.data| <= size
  {
    var s := Setup(FromDevice, 0, dev, pageSize, b.faults);
    var addr := PageAddress(pageSize, page);
    var run := LoopRun(s, size, addr, b.calls);
    Fetch(run.status, Load(b.memory, addr, run.moved),
          BusState(b.memory, b.faults, b.calls + run.calls, b.trace + LoopEvents(s, size, addr, b.calls)))
  }

  /** The page the checksum record of a `size`-byte buffer at `page` goes to:
      never the data's first page, unless the count of pages truncated to 0. */
  function CrcPage(pageSize: u16, page: u16, size: u16): (r: u16)
    requires pageSize > 0
    ensures CountOfPagesFor(pageSize, size) != 0 ==> r != page
  {
    (page + CountOfPagesFor(pageSize, size)) % ADDRESS_SPACE
  }

  /** writeCRC: one 4-byte write of the buffer's checksum at the page's address. */
  function WriteCrcSpec(cfg: Config, b: BusState, page: u16, data: seq<byte>, size: u16): (r: Transfer)
    requires b.Valid() && size as int <= |data|
    ensures r.bus.Valid() && r.bus.faults == b.faults && r.bus.calls == b.calls + 1
    ensures r.status == HalOk ==>
      Load(r.bus.memory, PageAddress(cfg.pageSize, page), 4) == LeBytes(CalcCrc(cfg.engine, data, size))
    ensures r.status != HalOk ==> r.bus.memory == b.memory
  {
    BusWrite(b, cfg.deviceAddress, PageAddress(cfg.pageSize, page), LeBytes(CalcCrc(cfg.engine, data, size)), TIMEOUT)
  }

  /** readCRC: one 4-byte read at the page's address, decoded as a checksum
      record; the record stays 0 when the read fails. */
  function ReadCrcSpec(pageSize: u16, dev: u16, b: BusState, page: u16): (r: CrcFetch)
    requires b.Valid()
    ensures r.bus.Valid() && r.bus.memory == b.memory && r.bus.faults == b.faults && r.bus.calls == b.calls + 1
  {
    var f := BusRead(b, dev, PageAddress(pageSize, page), 4, TIMEOUT);
    CrcFetch(f.status, if f.status == HalOk then LeWord(f.data) else 0, f.bus)
  }

  /** write on an initialised driver: the buffer's first `size` bytes as
      data pages, then (with useCrc, and only if they all went through) the
      checksum record on the page after them. */
  function WriteSpec(cfg: Config, b: BusState, page: u16, buf: seq<byte>, size: u16, useCrc: bool): (r: WriteOutcome)
    requires cfg.pageSize > 0 && b.Valid() && size as int <= |buf|
    ensures r.bus.Valid() && r.bus.faults == b.faults
  {
    var w := WriteBufferSpec(cfg.pageSize, cfg.deviceAddress, b, page, buf[..size]);
    if DecodeStatus(w.status) != Success then WriteOutcome(DecodeStatus(w.status), w.bus)
    else if !useCrc then WriteOutcome(Success, w.bus)
    else
      var c := WriteCrcSpec(cfg, w.bus, CrcPage(cfg.pageSize, page, size), buf, size);
      if DecodeStatus(c.status) != Success then WriteOutcome(DecodeStatus(c.status), c.bus)
      else WriteOutcome(Success, c.bus)
  }

  /** read on an initialised driver: the data pages into the buffer, then
      (with useCrc, and only if they all went through) the checksum record,
      compared with the checksum of the buffer as filled. */
  function ReadSpec(cfg: Config, b: BusState, page: u16, buf: seq<byte>, size: u16, useCrc: bool): (r: ReadOutcome)
    requires cfg.pageSize > 0 && b.Valid() && size as int <= |buf|
    ensures r.bus.Valid() && r.bus.memory == b.memory && r.bus.faults == b.faults && |r.buffer| == |buf|
  {
    var f := ReadBufferSpec(cfg.pageSize, cfg.deviceAddress, b, page, size);
    var filled := f.data + buf[|f.data|..];
    if DecodeStatus(f.status) != Success then ReadOutcome(DecodeStatus(f.status), filled, f.bus)
    else if !useCrc then ReadOutcome(Success, filled, f.bus)
    else
      var c := ReadCrcSpec(cfg.pageSize, cfg.deviceAddress, f.bus, CrcPage(cfg.pageSize, page, size));
      if DecodeStatus(c.status) != Success then ReadOutcome(DecodeStatus(c.status), filled, c.bus)
      else if c.word != CalcCrc(cfg.engine, filled, size) then ReadOutcome(InvalidCrc, filled, c.bus)
      else ReadOutcome(Success, filled, c.bus)
  }

  /** The EEPROM class: the two HAL handles (null until init), the page size
      and the chip's bus address. */
  class Eeprom {
    var i2c: I2cHandle?
    var crc: CrcHandle?
    var pageSize: u16
    var deviceAddress: u16

    /** The field defaults: no handles, 64-byte pages, address 0b10100000. */
    constructor ()
      ensures i2c == null && crc == null && pageSize == 64 && deviceAddress == 0xA0
    {
      i2c := null;
      crc := null;
      pageSize := 64;
      deviceAddress := 0xA0;
    }

    /** init: takes the four settings as given, checking none of them. */
    method Init(i2c: I2cHandle?, crc: CrcHandle?, deviceAddress: u16, pageSize: u16)
      modifies this
      ensures this.i2c == i2c && this.crc == crc && this.deviceAddress == deviceAddress && this.pageSize == pageSize
    {
      this.i2c := i2c;
      this.crc := crc;
      this.pageSize := pageSize;
      this.deviceAddress := deviceAddress;
    }

    /** isInitialized: both handles are present. */
    predicate IsInitialized()
      reads this
    {
      i2c != null && crc != null
    }

    function Cfg(): Config
      reads this
      requires crc != null
    {
      Config(pageSize, deviceAddress, crc.calculate)
    }

    /** One round of iterateOverPages: the transport call for the chunk of
        `count` bytes at buf[offset..] and memory address `memoryAddress`,
        then, if it succeeded and the delay argument is not 0, the settle
        delay. */
    method TransferChunk(delay: nat, dir: Direction, memoryAddress: u16, buf: array<byte>, offset: nat, count: nat)
      returns (st: HalStatus)
      requires i2c != null && i2c.Valid() && offset + count <= buf.Length && count <= ADDRESS_SPACE
      modifies i2c, buf
      ensures i2c.Valid()
      ensures var r := Round(Setup(dir, delay, deviceAddress, pageSize, i2c.faults), old(i2c.State()),
                             memoryAddress, old(buf[..]), offset, count);
        st == r.status && i2c.State() == r.bus && buf[..] == r.buf
    {
      if dir == ToDevice {
        st := i2c.MemWrite(deviceAddress, memoryAddress, buf[offset..offset + count], TIMEOUT);
      } else {
        st := i2c.MemRead(deviceAddress, memoryAddress, buf, offset, count, TIMEOUT);
      }
      if st == HalOk && delay != 0 {
        i2c.Delay(WRITE_DELAY);
      }
    }

    /** iterateOverPages: `delay` is the template's delay argument and `dir`
        picks the transport function. The chunk cursor `offset` advances by a
        whole page each round, like the C code's buffer cursor; it is only read
        while bytes remain. */
    method IterateOverPages(delay: nat, dir: Direction, page: u16, buf: array<byte>, size: u16) returns (st: HalStatus)
      requires i2c != null && i2c.Valid() && pageSize > 0 && size as int <= buf.Length
      modifies i2c, buf
      ensures i2c.Valid()
      ensures var s := Setup(dir, delay, deviceAddress, pageSize, i2c.faults);
        var addr := PageAddress(pageSize, page);
        var run := LoopRun(s, size, addr, old(i2c.calls));
        && st == run.status && i2c.calls == old(i2c.calls) + run.calls
        && i2c.trace == old(i2c.trace) + LoopEvents(s, size, addr, old(i2c.calls))
        && (dir == ToDevice ==> i2c.memory == Store(old(i2c.memory), addr, old(buf[..run.moved]))
                                && buf[..] == old(buf[..]))
        && (dir == FromDevice ==> i2c.memory == old(i2c.memory)
                                  && buf[..] == Load(old(i2c.memory), addr, run.moved) + old(buf[run.moved..]))
    {
      var memoryAddress: u16 := PageAddress(pageSize, page);
      ghost var start := Start(Setup(dir, delay, deviceAddress, pageSize, i2c.faults), size as nat,
                               memoryAddress, i2c.State(), buf[..]);
      var offset: nat := 0;
      var bytesRemain: nat := size as nat;
      OnTrackStart(start);
      while bytesRemain > 0
        invariant i2c.Valid() && bytesRemain <= size as nat
        invariant bytesRemain > 0 ==> offset == size as nat - bytesRemain
        invariant memoryAddress == Addr(start.addr, offset)
        invariant OnTrack(start, bytesRemain, memoryAddress, i2c.State(), buf[..])
        decreases bytesRemain
      {
        var count := if bytesRemain > pageSize as nat then pageSize as nat else bytesRemain;
        assert count == Min(pageSize as nat, bytesRemain);
        ghost var bus, cur := i2c.State(), buf[..];
        st := TransferChunk(delay, dir, memoryAddress, buf, offset, count);
        if st != HalOk {
          OnTrackAbort(start, bytesRemain, memoryAddress, bus, cur, offset, count, Step(st, i2c.State(), buf[..]));
          return;
        }
        ghost var remainBefore, addrBefore, offsetBefore := bytesRemain, memoryAddress, offset;
        bytesRemain := bytesRemain - count;
        memoryAddress := Addr(memoryAddress, pageSize as nat);
        offset := offset + pageSize as nat;
        AddrShift(start.addr, offsetBefore, pageSize as nat, offset);
        OnTrackAdvance(start, remainBefore, addrBefore, bus, cur, offsetBefore, count,
                       Step(st, i2c.State(), buf[..]), bytesRemain, memoryAddress);
      }
      OnTrackFinish(start, memoryAddress, i2c.State(), buf[..]);
      st := HalOk;
    }

    /** writeBuffer: the paged loop with the write transport and the settle delay. */
    method WriteBuffer(page: u16, buf: array<byte>, size: u16) returns (st: HalStatus)
      requires i2c != null && i2c.Valid() && pageSize > 0 && size as int <= buf.Length
      modifies i2c, buf
      ensures i2c.Valid() && buf[..] == old(buf[..])
      ensures Transfer(st, i2c.State()) == WriteBufferSpec(pageSize, deviceAddress, old(i2c.State()), page, old(buf[..size]))
    {
      ghost var buf0, call0 := buf[..], i2c.calls;
      st := IterateOverPages(WRITE_DELAY, ToDevice, page, buf, size);
      ghost var moved := LoopRun(Setup(ToDevice, WRITE_DELAY, deviceAddress, pageSize, i2c.faults),
                                 size, PageAddress(pageSize, page), call0).moved;
      assert buf0[..size][..moved] == buf0[..moved];
    }

    /** readBuffer: the paged loop with the read transport and no delay. */
    method ReadBuffer(page: u16, buf: array<byte>, size: u16) returns (st: HalStatus)
      requires i2c != null && i2c.Valid() && pageSize > 0 && size as int <= buf.Length
      modifies i2c, buf
      ensures i2c.Valid()
      ensures var f := ReadBufferSpec(pageSize, deviceAddress, old(i2c.State()), page, size);
        st == f.status && i2c.State() == f.bus && buf[..] == f.data + old(buf[|f.data|..])
    {
      st := IterateOverPages(0, FromDevice, page, buf, size);
    }

    /** writeCRC: the checksum of the buffer's whole words, written as one
        4-byte record at the page's address. */
    method WriteCrc(page: u16, buf: array<byte>, size: u16) returns (st: HalStatus)
      requires i2c != null && crc != null && i2c.Valid() && size as int <= buf.Length
      modifies i2c
      ensures i2c.Valid()
      ensures Transfer(st, i2c.State()) == WriteCrcSpec(Cfg(), old(i2c.State()), page, buf[..], size)
    {
      var checksum := CalcCrc(crc.calculate, buf[..], size as nat);
      st := i2c.MemWrite(deviceAddress, PageAddress(pageSize, page), LeBytes(checksum), TIMEOUT);
    }

    /** readCRC: one 4-byte read at the page's address into a zeroed record. */
    method ReadCrc(page: u16) returns (st: HalStatus, word: u32)
      requires i2c != null && i2c.Valid()
      modifies i2c
      ensures i2c.Valid()
      ensures CrcFetch(st, word, i2c.State()) == ReadCrcSpec(pageSize, deviceAddress, old(i2c.State()), page)
    {
      var raw := new byte[4](_ => 0);
      st := i2c.MemRead(deviceAddress, PageAddress(pageSize, page), raw, 0, 4, TIMEOUT);
      word := LeWord(raw[..]);
    }

    /** write: NotInitialized without both handles; otherwise the data pages,
        then with useCrc the checksum record, stopping at the first failure. */
    method Write(page: u16, buf: array<byte>, size: u16, useCrc: bool) returns (status: Status)
      requires i2c != null ==> i2c.Valid()
      requires IsInitialized() ==> pageSize > 0
      requires size as int <= buf.Length
      modifies i2c, buf
      ensures buf[..] == old(buf[..])
      ensures !IsInitialized() ==> status == NotInitialized && (i2c != null ==> i2c.State() == old(i2c.State()))
      ensures IsInitialized() ==>
        var r := WriteSpec(Cfg(), old(i2c.State()), page, old(buf[..]), size, useCrc);
        i2c.Valid() && status == r.status && i2c.State() == r.bus
    {
      if !IsInitialized() {
        return NotInitialized;
      }
      var st := WriteBuffer(page, buf, size);
      status := DecodeStatus(st);
      if status != Success {
        return;
      }
      if !useCrc {
        return Success;
      }
      st := WriteCrc(((page as int + CountOfPagesFor(pageSize, size) as int) % ADDRESS_SPACE) as u16, buf, size);
      status := DecodeStatus(st);
      if status != Success {
        return;
      }
      return Success;
    }

    /** read: NotInitialized without both handles; otherwise the data pages
        into the buffer, then with useCrc the checksum record, compared with
        the checksum of the buffer as filled. */
    method Read(page: u16, buf: array<byte>, size: u16, useCrc: bool) returns (status: Status)
      requires i2c != null ==> i2c.Valid()
      requires IsInitialized() ==> pageSize > 0
      requires size as int <= buf.Length
      modifies i2c, buf
      ensures !IsInitialized() ==> status == NotInitialized && buf[..] == old(buf[..])
                                   && (i2c != null ==> i2c.State() == old(i2c.State()))
      ensures IsInitialized() ==>
        var r := ReadSpec(Cfg(), old(i2c.State()), page, old(buf[..]), size, useCrc);
        i2c.Valid() && status == r.status && i2c.State() == r.bus && buf[..] == r.buffer
    {
      if !IsInitialized() {
        return NotInitialized;
      }
      var st := ReadBuffer(page, buf, size);
      status := DecodeStatus(st);
      if status != Success {
        return;
      }
      if !useCrc {
        return Success;
      }
      var expected: u32;
      st, expected := ReadCrc(((page as int + CountOfPagesFor(pageSize, size) as int) % ADDRESS_SPACE) as u16);
      status := DecodeStatus(st);
      if status != Success {
        return;
      }
      var actual := CalcCrc(crc.calculate, buf[..], size as nat);
      if expected != actual {
        return InvalidCrc;
      }
      return Success;
    }
  }

  /** EEPROM_Init: configures the instance and always reports success. */
  method EepromInit(inst: Eeprom, i2c: I2cHandle?, crc: CrcHandle?, deviceAddress: u16, pageSize: u16) returns (status: Status)
    modifies inst
    ensures status == Success
    ensures inst.i2c == i2c && inst.crc == crc && inst.deviceAddress == deviceAddress && inst.pageSize == pageSize
  {
    inst.Init(i2c, crc, deviceAddress, pageSize);
    return Success;
  }

  /** EEPROM_Read: read with the checksum check. */
  method EepromRead(inst: Eeprom, page: u16, bytes: array<byte>, size: u16) returns (status: Status)
    requires inst.i2c != null ==> inst.i2c.Valid()
    requires inst.IsInitialized() ==> inst.pageSize > 0
    requires size as int <= bytes.Length
    modifies inst.i2c, bytes
    ensures !inst.IsInitialized() ==> status == NotInitialized && bytes[..] == old(bytes[..])
                                      && (inst.i2c != null ==> inst.i2c.State() == old(inst.i2c.State()))
    ensures inst.IsInitialized() ==>
      var r := ReadSpec(inst.Cfg(), old(inst.i2c.State()), page, old(bytes[..]), size, true);
      status == r.status && inst.i2c.State() == r.bus && bytes[..] == r.buffer
  {
    status := inst.Read(page, bytes, size, true);
  }

  /** EEPROM_Write: write with the checksum record. */
  method EepromWrite(inst: Eeprom, page: u16, bytes: array<byte>, size: u16) returns (status: Status)
    requires inst.i2c != null ==> inst.i2c.Valid()
    requires inst.IsInitialized() ==> inst.pageSize > 0
    requires size as int <= bytes.Length
    modifies inst.i2c, bytes
    ensures bytes[..] == old(bytes[..])
    ensures !inst.IsInitialized() ==> status == NotInitialized
                                      && (inst.i2c != null ==> inst.i2c.State() == old(inst.i2c.State()))
    ensures inst.IsInitialized() ==>
      var r := WriteSpec(inst.Cfg(), old(inst.i2c.State()), page, old(bytes[..]), size, true);
      status == r.status && inst.i2c.State() == r.bus
  {
    status := inst.Write(page, bytes, size, true);
  }

  /** EEPROM_getBuffersPageCount: the instance's page count for a buffer,
      the least number of pages strictly longer than it, truncated to 16
      bits (which only a 1-byte page and a 65535-byte buffer reach). */
  function EepromGetBuffersPageCount(inst: Eeprom, bufferSize: u16): (r: u16)
    reads inst
    requires inst.pageSize > 0
    ensures r != 0 ==> (r as int - 1) * inst.pageSize as int <= bufferSize as int < r as int * inst.pageSize as int
    ensures r == 0 <==> inst.pageSize == 1 && bufferSize == 0xFFFF
  {
    CountOfPagesFor(inst.pageSize, bufferSize)
  }
}

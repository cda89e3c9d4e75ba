/** What the driver's operations promise, stated over the functions that
    specify them: writing a buffer with its checksum and reading it back
    gives the buffer back; a read reports a bad checksum exactly when the
    stored record differs from the recomputed one; a write stops at the
    first failing transfer; only the write path settles, once per data
    page; and the checksum record's page lies past the data pages. */
module EepromProperties {
  import opened Hal
  import opened Paging
  import opened PageTransfer
  import opened Checksum
  import opened EepromDriver

  /** From the bus's next call on, no transfer is planned to fail. */
  ghost predicate Healthy(b: BusState)
  {
    forall c :: c in b.faults ==> c < b.calls
  }

  lemma HealthyAllOk(b: BusState, call: nat, n: nat)
    requires Healthy(b) && b.calls <= call
    ensures AllOk(b.faults, call, n)
  {
    forall c | call <= c < call + n
      ensures Outcome(b.faults, c) == HalOk
    {
      assert c !in b.faults;
    }
  }

  /** On a healthy bus writeBuffer succeeds, makes one call per chunk and
      stores the whole buffer from the first page's address on. */
  lemma WriteBufferHealthy(pageSize: u16, dev: u16, b: BusState, page: u16, data: seq<byte>)
    requires pageSize > 0 && b.Valid() && |data| < ADDRESS_SPACE && Healthy(b)
    ensures var w := WriteBufferSpec(pageSize, dev, b, page, data);
      && w.status == HalOk && w.bus.calls == b.calls + |Chunks(pageSize, |data|)| && Healthy(w.bus)
      && w.bus.memory == Store(b.memory, PageAddress(pageSize, page), data)
  {
    var s := Setup(ToDevice, WRITE_DELAY, dev, pageSize, b.faults);
    var addr := PageAddress(pageSize, page);
    HealthyAllOk(b, b.calls, |Chunks(pageSize, |data|)|);
    LoopAllOk(s, |data|, addr, b.calls);
    LoopCalls(s, |data|, addr, b.calls);
    assert data[..|data|] == data;
  }

  /** On a healthy bus readBuffer succeeds, makes one call per chunk and
      delivers the `size` bytes from the first page's address on. */
  lemma ReadBufferHealthy(pageSize: u16, dev: u16, b: BusState, page: u16, size: u16)
    requires pageSize > 0 && b.Valid() && Healthy(b)
    ensures var f := ReadBufferSpec(pageSize, dev, b, page, size);
      && f.status == HalOk && f.bus.calls == b.calls + |Chunks(pageSize, size)| && Healthy(f.bus)
      && f.data == Load(b.memory, PageAddress(pageSize, page), size)
  {
    var s := Setup(FromDevice, 0, dev, pageSize, b.faults);
    var addr := PageAddress(pageSize, page);
    HealthyAllOk(b, b.calls, |Chunks(pageSize, size)|);
    LoopAllOk(s, size, addr, b.calls);
    LoopCalls(s, size, addr, b.calls);
  }

  /** The checksum record's address is `pages` whole pages past the data's
      first byte, where `pages` is getCountOfPagesFor of the size. */
  lemma CrcAddress(pageSize: u16, page: u16, size: u16)
    requires pageSize > 0
    ensures PageAddress(pageSize, CrcPage(pageSize, page, size))
         == Addr(PageAddress(pageSize, page), CountOfPagesFor(pageSize, size) * pageSize)
  {
    PageAddressShift(pageSize, page, CountOfPagesFor(pageSize, size));
  }

  /** The round trip: on a healthy bus, writing `size` bytes of `data` with
      the checksum and then reading them back with the checksum succeeds and
      fills the buffer's first `size` places with exactly those bytes,
      leaving the rest of it alone. It needs the span from the data's first
      byte to the record's last to be at most 65536 bytes, so that the record
      cannot come round onto the data, and the count of pages not to
      truncate to 0. */
  lemma RoundTrip(cfg: Config, b: BusState, page: u16, data: seq<byte>, size: u16, buf: seq<byte>)
    requires cfg.pageSize > 0 && b.Valid() && Healthy(b)
    requires size as int <= |data| && size as int <= |buf|
    requires CountOfPagesFor(cfg.pageSize, size) != 0
    requires CountOfPagesFor(cfg.pageSize, size) * cfg.pageSize + 4 <= ADDRESS_SPACE
    ensures var w := WriteSpec(cfg, b, page, data, size, true);
      var r := ReadSpec(cfg, w.bus, page, buf, size, true);
      && w.status == Success && r.status == Success
      && r.buffer[..size] == data[..size] && r.buffer[size..] == buf[size..]
  {
    var ps, dev := cfg.pageSize, cfg.deviceAddress;
    var addr := PageAddress(ps, page);
    var pages := CountOfPagesFor(ps, size);
    var gap := pages * ps;
    var crcPage := CrcPage(ps, page, size);
    var written := data[..size];
    CrcPageAfterData(ps, size);
    CrcAddress(ps, page, size);
    // the data pages
    var w1 := WriteBufferSpec(ps, dev, b, page, written);
    WriteBufferHealthy(ps, dev, b, page, written);
    // the checksum record, on the page past them
    var checksum := CalcCrc(cfg.engine, data, size);
    var w2 := WriteCrcSpec(cfg, w1.bus, crcPage, data, size);
    assert w2.status == HalOk;
    var mem2 := w2.bus.memory;
    assert mem2 == Store(w1.bus.memory, Addr(addr, gap), LeBytes(checksum));
    assert Healthy(w2.bus);
    var w := WriteSpec(cfg, b, page, data, size, true);
    assert w.status == Success && w.bus == w2.bus;
    // reading the data pages back gives what was written
    var f := ReadBufferSpec(ps, dev, w.bus, page, size);
    ReadBufferHealthy(ps, dev, w.bus, page, size);
    LoadStoreElsewhere(w1.bus.memory, addr, size as nat, gap, LeBytes(checksum));
    LoadStore(b.memory, addr, written);
    assert f.data == written;
    var filled := f.data + buf[|f.data|..];
    assert filled[..size] == data[..size];
    // reading the record back gives the checksum, which the filled buffer reproduces
    var c := ReadCrcSpec(ps, dev, f.bus, crcPage);
    assert c.status == HalOk;
    LoadStore(w1.bus.memory, Addr(addr, gap), LeBytes(checksum));
    WordBytesRoundTrip(checksum);
    assert c.word == checksum;
    CrcIgnoresTail(cfg.engine, filled, data, size);
  }

  /** On a healthy bus a checked read fills the buffer with the data pages
      and reports InvalidCrc exactly when the 4-byte record on the checksum
      page differs from the checksum of the buffer as filled; otherwise it
      reports Success. */
  lemma ReadChecksCrc(cfg: Config, b: BusState, page: u16, buf: seq<byte>, size: u16)
    requires cfg.pageSize > 0 && b.Valid() && Healthy(b) && size as int <= |buf|
    ensures var r := ReadSpec(cfg, b, page, buf, size, true);
      var filled := Load(b.memory, PageAddress(cfg.pageSize, page), size) + buf[size..];
      var stored := LeWord(Load(b.memory, PageAddress(cfg.pageSize, CrcPage(cfg.pageSize, page, size)), 4));
      && r.buffer == filled
      && (r.status == InvalidCrc <==> stored != CalcCrc(cfg.engine, filled, size))
      && (r.status != InvalidCrc ==> r.status == Success)
  {
    var ps, dev := cfg.pageSize, cfg.deviceAddress;
    var f := ReadBufferSpec(ps, dev, b, page, size);
    ReadBufferHealthy(ps, dev, b, page, size);
    var c := ReadCrcSpec(ps, dev, f.bus, CrcPage(ps, page, size));
    assert c.status == HalOk;
  }

  /** When the call for data chunk `f` is the first to fail, write stops
      there: it reports that call's status decoded, makes no further call
      (no checksum record either) and the chip holds the `f` full pages
      before it. */
  lemma WriteStopsAtFirstFailure(cfg: Config, b: BusState, page: u16, buf: seq<byte>, size: u16, useCrc: bool, f: nat)
    requires cfg.pageSize > 0 && b.Valid() && size as int <= |buf|
    requires f < |Chunks(cfg.pageSize, size)|
    requires AllOk(b.faults, b.calls, f) && Outcome(b.faults, b.calls + f) != HalOk
    ensures var r := WriteSpec(cfg, b, page, buf, size, useCrc);
      && r.status == DecodeStatus(Outcome(b.faults, b.calls + f)) && r.status != Success
      && r.bus.calls == b.calls + f + 1
      && f * cfg.pageSize < size as int
      && r.bus.memory == Store(b.memory, PageAddress(cfg.pageSize, page), buf[..f * cfg.pageSize])
  {
    var ps := cfg.pageSize;
    var s := Setup(ToDevice, WRITE_DELAY, cfg.deviceAddress, ps, b.faults);
    LoopFirstFailure(s, size, PageAddress(ps, page), b.calls, f);
    ChunkAt(ps, size, f);
    assert buf[..size][..f * ps] == buf[..f * ps];
  }

  /** The read path never settles: whatever happens, read adds no delay to
      the trace. */
  lemma ReadNeverDelays(cfg: Config, b: BusState, page: u16, buf: seq<byte>, size: u16, useCrc: bool)
    requires cfg.pageSize > 0 && b.Valid() && size as int <= |buf|
    ensures Delays(ReadSpec(cfg, b, page, buf, size, useCrc).bus.trace) == Delays(b.trace)
  {
    var ps, dev := cfg.pageSize, cfg.deviceAddress;
    var s := Setup(FromDevice, 0, dev, ps, b.faults);
    var addr := PageAddress(ps, page);
    var events := LoopEvents(s, size, addr, b.calls);
    LoopSettleCount(s, size, addr, b.calls);
    BusOpsAppend(b.trace, events);
    var f := ReadBufferSpec(ps, dev, b, page, size);
    if DecodeStatus(f.status) == Success && useCrc {
      var c := ReadCrcSpec(ps, dev, f.bus, CrcPage(ps, page, size));
      var op := BusOp(FromDevice, dev, PageAddress(ps, CrcPage(ps, page, size)), 4, TIMEOUT, c.status);
      assert c.bus.trace == f.bus.trace + [op];
      BusOpsAppend(f.bus.trace, [op]);
      assert Delays([op]) == 0 by { assert [op][1..] == []; }
    }
  }

  /** On a healthy bus a checked write settles exactly once per data page,
      right after it, and not after the checksum record, which is the
      write's last transfer: 4 bytes on the checksum page. */
  lemma WriteSettlesPerPage(cfg: Config, b: BusState, page: u16, buf: seq<byte>, size: u16)
    requires cfg.pageSize > 0 && b.Valid() && Healthy(b) && size as int <= |buf|
    ensures var r := WriteSpec(cfg, b, page, buf, size, true);
      var s := Setup(ToDevice, WRITE_DELAY, cfg.deviceAddress, cfg.pageSize, b.faults);
      var events := LoopEvents(s, size, PageAddress(cfg.pageSize, page), b.calls);
      && r.bus.trace == b.trace + events
                        + [BusOp(ToDevice, cfg.deviceAddress, PageAddress(cfg.pageSize, CrcPage(cfg.pageSize, page, size)),
                                 4, TIMEOUT, HalOk)]
      && Delays(events) == |Chunks(cfg.pageSize, size)|
      && forall i :: 0 <= i < |events| && events[i].BusOp? ==> i + 1 < |events| && events[i + 1] == Delay(WRITE_DELAY)
  {
    var ps, dev := cfg.pageSize, cfg.deviceAddress;
    var s := Setup(ToDevice, WRITE_DELAY, dev, ps, b.faults);
    var addr := PageAddress(ps, page);
    var events := LoopEvents(s, size, addr, b.calls);
    WriteBufferHealthy(ps, dev, b, page, buf[..size]);
    LoopSettles(s, size, addr, b.calls);
    LoopCalls(s, size, addr, b.calls);
    LoopOps(s, size, addr, b.calls);
    var w1 := WriteBufferSpec(ps, dev, b, page, buf[..size]);
    var c := WriteCrcSpec(cfg, w1.bus, CrcPage(ps, page, size), buf, size);
    assert c.status == HalOk;
    forall i | 0 <= i < |events| && events[i].BusOp?
      ensures events[i].status == HalOk
    {
      LoopEventOk(s, size, addr, b.calls, i);
    }
  }

  /** On a healthy bus every transfer of the loop succeeds. */
  lemma {:induction false} LoopEventOk(s: Setup, remain: nat, addr: u16, call: nat, i: nat)
    requires s.pageSize > 0 && (forall c :: c in s.faults ==> c < call)
    requires i < |LoopEvents(s, remain, addr, call)| && LoopEvents(s, remain, addr, call)[i].BusOp?
    ensures LoopEvents(s, remain, addr, call)[i].status == HalOk
    decreases remain
  {
    var n := Min(s.pageSize, remain);
    assert call !in s.faults;
    EventsStep(s, remain, addr, call);
    if i > 0 {
      var settle := if s.delay != 0 then [Delay(WRITE_DELAY)] else [];
      if i > |settle| {
        LoopEventOk(s, remain - n, Addr(addr, s.pageSize), call + 1, i - 1 - |settle|);
      }
    }
  }

  /** Without the checksum, write and read report the data transfer's
      status decoded and stop there. */
  lemma UncheckedStopsAfterData(cfg: Config, b: BusState, page: u16, buf: seq<byte>, size: u16)
    requires cfg.pageSize > 0 && b.Valid() && size as int <= |buf|
    ensures var w := WriteBufferSpec(cfg.pageSize, cfg.deviceAddress, b, page, buf[..size]);
      var r := WriteSpec(cfg, b, page, buf, size, false);
      r.status == DecodeStatus(w.status) && r.bus == w.bus
    ensures var f := ReadBufferSpec(cfg.pageSize, cfg.deviceAddress, b, page, size);
      var r := ReadSpec(cfg, b, page, buf, size, false);
      r.status == DecodeStatus(f.status) && r.bus == f.bus && r.buffer == f.data + buf[|f.data|..]
  {
  }

  /** A 128-byte buffer with 64-byte pages spans 2 data pages, yet its
      checksum record goes 3 pages on, leaving the page between empty. */
  lemma ExactMultipleSkipsAPage()
    ensures CountOfPagesFor(64, 128) == 3 && |Chunks(64, 128)| == 2
  {
    ChunkCount(64, 128);
  }
}

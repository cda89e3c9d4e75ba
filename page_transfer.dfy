/** What the paged transfer loop (iterateOverPages) does, as a function of
    the bytes still to move, the memory address of the next chunk and the
    number of the next bus call: which transport calls it makes, in what
    order, with which settle delays, how it ends, and how many bytes get
    through. The driver's loop is proved to behave as LoopRun says; the
    lemmas here give LoopRun's closed forms. */
module PageTransfer {
  import opened Hal
  import opened Paging

  /** sTimeout: the timeout every transport call is given. */
  const TIMEOUT: nat := 50

  /** sWriteDelay: the settle time after each page written. */
  const WRITE_DELAY: nat := 5

  /** The fixed parts of one run of the loop: the transport operation, the
      delay template argument (0 on the read path), the chip's bus address,
      the page size and the bus's planned failures. */
  datatype Setup = Setup(dir: Direction, delay: nat, devAddress: u16, pageSize: nat, faults: map<nat, HalStatus>)

  /** How one run of the loop ends: its status, the number of transport calls
      it made, and the bytes moved by its successful calls. */
  datatype Run = Run(status: HalStatus, calls: nat, moved: nat)

  /** The loop from a state with `remain` bytes left, the next chunk at
      memory address `addr`, and `call` the number of the next bus call. */
  function LoopRun(s: Setup, remain: nat, addr: u16, call: nat): (r: Run)
    requires s.pageSize > 0
    ensures r.moved <= remain
    ensures r.status == HalOk ==> r.moved == remain
    decreases remain
  {
    if remain == 0 then Run(HalOk, 0, 0)
    else
      var n := Min(s.pageSize, remain);
      var st := Outcome(s.faults, call);
      if st != HalOk then Run(st, 1, 0)
      else
        var rest := LoopRun(s, remain - n, Addr(addr, s.pageSize), call + 1);
        Run(rest.status, 1 + rest.calls, n + rest.moved)
  }

  /** What the same run does, in order: each chunk's transport call, and
      after each successful one the settle delay when the delay argument is
      not 0. */
  function LoopEvents(s: Setup, remain: nat, addr: u16, call: nat): seq<Event>
    requires s.pageSize > 0
    decreases remain
  {
    if remain == 0 then []
    else
      var n := Min(s.pageSize, remain);
      var st := Outcome(s.faults, call);
      var op := BusOp(s.dir, s.devAddress, addr, n, TIMEOUT, st);
      if st != HalOk then [op]
      else
        var settle := if s.delay != 0 then [Delay(WRITE_DELAY)] else [];
        [op] + settle + LoopEvents(s, remain - n, Addr(addr, s.pageSize), call + 1)
  }

  /** The `n` bus calls numbered from `call` on are all planned to succeed. */
  ghost predicate AllOk(faults: map<nat, HalStatus>, call: nat, n: nat)
  {
    forall c :: call <= c < call + n ==> Outcome(faults, c) == HalOk
  }

  /** One step of the loop when the call for the next chunk succeeds. */
  lemma LoopStep(s: Setup, remain: nat, addr: u16, call: nat)
    requires s.pageSize > 0 && remain > 0 && Outcome(s.faults, call) == HalOk
    ensures var n := Min(s.pageSize, remain);
      var rest := LoopRun(s, remain - n, Addr(addr, s.pageSize), call + 1);
      var r := LoopRun(s, remain, addr, call);
      && r.status == rest.status && r.calls == 1 + rest.calls && r.moved == n + rest.moved
      && Chunks(s.pageSize, remain) == [n] + Chunks(s.pageSize, remain - n)
  {
  }

  /** When the call for the next chunk fails, the loop stops right there. */
  lemma LoopFails(s: Setup, remain: nat, addr: u16, call: nat)
    requires s.pageSize > 0 && remain > 0 && Outcome(s.faults, call) != HalOk
    ensures LoopRun(s, remain, addr, call) == Run(Outcome(s.faults, call), 1, 0)
  {
  }

  /** When the call for the next chunk fails, that call is the loop's only event. */
  lemma EventsFail(s: Setup, remain: nat, addr: u16, call: nat)
    requires s.pageSize > 0 && remain > 0 && Outcome(s.faults, call) != HalOk
    ensures LoopEvents(s, remain, addr, call)
         == [BusOp(s.dir, s.devAddress, addr, Min(s.pageSize, remain), TIMEOUT, Outcome(s.faults, call))]
  {
  }

  /** The loop makes at most one call per chunk, and exactly one per chunk
      when it succeeds. */
  lemma {:induction false} LoopCalls(s: Setup, remain: nat, addr: u16, call: nat)
    requires s.pageSize > 0
    ensures var r := LoopRun(s, remain, addr, call);
      && r.calls <= |Chunks(s.pageSize, remain)|
      && (r.status == HalOk ==> r.calls == |Chunks(s.pageSize, remain)|)
    decreases remain
  {
    if remain > 0 && Outcome(s.faults, call) == HalOk {
      LoopStep(s, remain, addr, call);
      LoopCalls(s, remain - Min(s.pageSize, remain), Addr(addr, s.pageSize), call + 1);
    }
  }

  /** The loop succeeds exactly when every chunk's call succeeds. */
  lemma {:induction false} LoopAllOk(s: Setup, remain: nat, addr: u16, call: nat)
    requires s.pageSize > 0
    ensures var r := LoopRun(s, remain, addr, call);
      r.status == HalOk <==> AllOk(s.faults, call, |Chunks(s.pageSize, remain)|)
    decreases remain
  {
    if remain > 0 && Outcome(s.faults, call) == HalOk {
      LoopStep(s, remain, addr, call);
      LoopAllOk(s, remain - Min(s.pageSize, remain), Addr(addr, s.pageSize), call + 1);
    }
  }

  /** At the first chunk whose call fails, the loop stops: it returns that
      call's status unchanged, has made exactly one call more than the chunks
      before it, and has moved exactly those chunks, each a full page. */
  lemma {:induction false} LoopFirstFailure(s: Setup, remain: nat, addr: u16, call: nat, f: nat)
    requires s.pageSize > 0 && f < |Chunks(s.pageSize, remain)|
    requires AllOk(s.faults, call, f) && Outcome(s.faults, call + f) != HalOk
    ensures var r := LoopRun(s, remain, addr, call);
      r.status == Outcome(s.faults, call + f) && r.calls == f + 1 && r.moved == f * s.pageSize
    decreases remain
  {
    assert remain > 0;
    if f == 0 {
      LoopFails(s, remain, addr, call);
    } else {
      assert Outcome(s.faults, call) == HalOk;
      LoopStep(s, remain, addr, call);
      var n := Min(s.pageSize, remain);
      assert n == s.pageSize;
      assert AllOk(s.faults, call + 1, f - 1);
      assert call + 1 + (f - 1) == call + f;
      LoopFirstFailure(s, remain - n, Addr(addr, s.pageSize), call + 1, f - 1);
      assert s.pageSize + (f - 1) * s.pageSize == f * s.pageSize;
    }
  }

  /** The transport calls of a trace, with the delays left out. */
  function BusOps(t: seq<Event>): seq<Event>
  {
    if t == [] then []
    else if t[0].BusOp? then [t[0]] + BusOps(t[1..])
    else BusOps(t[1..])
  }

  /** The number of delays in a trace. */
  function Delays(t: seq<Event>): nat
  {
    if t == [] then 0
    else if t[0].Delay? then 1 + Delays(t[1..])
    else Delays(t[1..])
  }

  /** Filtering and counting distribute over concatenation. */
  lemma {:induction false} BusOpsAppend(a: seq<Event>, b: seq<Event>)
    ensures BusOps(a + b) == BusOps(a) + BusOps(b)
    ensures Delays(a + b) == Delays(a) + Delays(b)
    decreases |a|
  {
    if a == [] {
      assert a + b == b;
    } else {
      BusOpsAppend(a[1..], b);
      assert (a + b)[0] == a[0];
      assert (a + b)[1..] == a[1..] + b;
      if a[0].BusOp? {
        assert BusOps(a + b) == [a[0]] + (BusOps(a[1..]) + BusOps(b));
      }
    }
  }

  /** The events of one step of the loop when the call for the next chunk succeeds. */
  lemma EventsStep(s: Setup, remain: nat, addr: u16, call: nat)
    requires s.pageSize > 0 && remain > 0 && Outcome(s.faults, call) == HalOk
    ensures var n := Min(s.pageSize, remain);
      var op := BusOp(s.dir, s.devAddress, addr, n, TIMEOUT, HalOk);
      var settle := if s.delay != 0 then [Delay(WRITE_DELAY)] else [];
      var rest := LoopEvents(s, remain - n, Addr(addr, s.pageSize), call + 1);
      var e := LoopEvents(s, remain, addr, call);
      && e == [op] + settle + rest
      && BusOps(e) == [op] + BusOps(rest)
      && Delays(e) == |settle| + Delays(rest)
  {
    var n := Min(s.pageSize, remain);
    var op := BusOp(s.dir, s.devAddress, addr, n, TIMEOUT, HalOk);
    var settle := if s.delay != 0 then [Delay(WRITE_DELAY)] else [];
    var rest := LoopEvents(s, remain - n, Addr(addr, s.pageSize), call + 1);
    BusOpsAppend([op] + settle, rest);
    BusOpsAppend([op], settle);
  }

  /** The loop's first event is the call for the first chunk, at `addr`;
      if that call fails it is the only one. */
  lemma LoopFirst(s: Setup, remain: nat, addr: u16, call: nat)
    requires s.pageSize > 0 && remain > 0
    ensures var e := LoopEvents(s, remain, addr, call);
      var n := Min(s.pageSize, remain);
      && Chunks(s.pageSize, remain) == [n] + Chunks(s.pageSize, remain - n)
      && |BusOps(e)| > 0
      && BusOps(e)[0] == BusOp(s.dir, s.devAddress, addr, n, TIMEOUT, Outcome(s.faults, call))
      && (Outcome(s.faults, call) != HalOk ==> |BusOps(e)| == 1)
  {
    if Outcome(s.faults, call) == HalOk {
      EventsStep(s, remain, addr, call);
    } else {
      var op := BusOp(s.dir, s.devAddress, addr, Min(s.pageSize, remain), TIMEOUT, Outcome(s.faults, call));
      assert BusOps([op]) == [op] by { assert [op][1..] == []; }
    }
  }

  /** The loop makes one transport call per entry of BusOps. */
  lemma {:induction false} LoopOpsCount(s: Setup, remain: nat, addr: u16, call: nat)
    requires s.pageSize > 0
    ensures |BusOps(LoopEvents(s, remain, addr, call))| == LoopRun(s, remain, addr, call).calls
    decreases remain
  {
    if remain > 0 && Outcome(s.faults, call) == HalOk {
      LoopStep(s, remain, addr, call);
      EventsStep(s, remain, addr, call);
      LoopOpsCount(s, remain - Min(s.pageSize, remain), Addr(addr, s.pageSize), call + 1);
    } else if remain > 0 {
      LoopFirst(s, remain, addr, call);
    }
  }

  /** Call j of the loop transfers chunk j at the address j pages past the
      first one (wrapping at 16 bits), and gets the outcome of bus call
      `call + j`. */
  lemma {:induction false} LoopOpAt(s: Setup, remain: nat, addr: u16, call: nat, j: nat)
    requires s.pageSize > 0 && j < |BusOps(LoopEvents(s, remain, addr, call))|
    ensures j < |Chunks(s.pageSize, remain)|
    ensures BusOps(LoopEvents(s, remain, addr, call))[j]
         == BusOp(s.dir, s.devAddress, Addr(addr, j * s.pageSize), Chunks(s.pageSize, remain)[j], TIMEOUT, Outcome(s.faults, call + j))
    decreases remain
  {
    LoopFirst(s, remain, addr, call);
    if j == 0 {
      AddrPages(addr, s.pageSize, 0);
    } else {
      EventsStep(s, remain, addr, call);
      LoopOpAt(s, remain - Min(s.pageSize, remain), Addr(addr, s.pageSize), call + 1, j - 1);
      AddrPages(addr, s.pageSize, j);
      assert call + 1 + (j - 1) == call + j;
    }
  }

  /** All of the loop's transport calls, in order: one per chunk up to and
      including the first that fails, each at its page's address. */
  lemma LoopOps(s: Setup, remain: nat, addr: u16, call: nat)
    requires s.pageSize > 0
    ensures |BusOps(LoopEvents(s, remain, addr, call))| == LoopRun(s, remain, addr, call).calls
    ensures |BusOps(LoopEvents(s, remain, addr, call))| <= |Chunks(s.pageSize, remain)|
    ensures forall j :: 0 <= j < |BusOps(LoopEvents(s, remain, addr, call))| ==>
           BusOps(LoopEvents(s, remain, addr, call))[j]
           == BusOp(s.dir, s.devAddress, Addr(addr, j * s.pageSize), Chunks(s.pageSize, remain)[j], TIMEOUT, Outcome(s.faults, call + j))
  {
    LoopOpsCount(s, remain, addr, call);
    LoopCalls(s, remain, addr, call);
    forall j | 0 <= j < |BusOps(LoopEvents(s, remain, addr, call))|
      ensures BusOps(LoopEvents(s, remain, addr, call))[j]
           == BusOp(s.dir, s.devAddress, Addr(addr, j * s.pageSize), Chunks(s.pageSize, remain)[j], TIMEOUT, Outcome(s.faults, call + j))
    {
      LoopOpAt(s, remain, addr, call, j);
    }
  }

  /** With a delay argument the loop settles once after every successful
      call; with 0 it never does. */
  lemma {:induction false} LoopSettleCount(s: Setup, remain: nat, addr: u16, call: nat)
    requires s.pageSize > 0
    ensures var r := LoopRun(s, remain, addr, call);
      Delays(LoopEvents(s, remain, addr, call)) == (if s.delay == 0 then 0 else if r.status == HalOk then r.calls else r.calls - 1)
    decreases remain
  {
    if remain > 0 && Outcome(s.faults, call) == HalOk {
      LoopStep(s, remain, addr, call);
      EventsStep(s, remain, addr, call);
      LoopSettleCount(s, remain - Min(s.pageSize, remain), Addr(addr, s.pageSize), call + 1);
    } else if remain > 0 {
      var op := BusOp(s.dir, s.devAddress, addr, Min(s.pageSize, remain), TIMEOUT, Outcome(s.faults, call));
      assert Delays([op]) == 0 by { assert [op][1..] == []; }
    }
  }

  /** With a delay argument, event i of the loop, if it is a successful
      call, is immediately followed by the settle delay. */
  lemma {:induction false} LoopSettleAt(s: Setup, remain: nat, addr: u16, call: nat, i: nat)
    requires s.pageSize > 0 && s.delay != 0
    requires var e := LoopEvents(s, remain, addr, call);
      i < |e| && e[i].BusOp? && e[i].status == HalOk
    ensures var e := LoopEvents(s, remain, addr, call);
      i + 1 < |e| && e[i + 1] == Delay(WRITE_DELAY)
    decreases remain
  {
    EventsStep(s, remain, addr, call);
    if i >= 2 {
      LoopSettleAt(s, remain - Min(s.pageSize, remain), Addr(addr, s.pageSize), call + 1, i - 2);
    }
  }

  /** The settle delays, counted and placed. */
  lemma LoopSettles(s: Setup, remain: nat, addr: u16, call: nat)
    requires s.pageSize > 0
    ensures var r := LoopRun(s, remain, addr, call);
      var e := LoopEvents(s, remain, addr, call);
      && Delays(e) == (if s.delay == 0 then 0 else if r.status == HalOk then r.calls else r.calls - 1)
      && forall i :: 0 <= i < |e| && e[i].BusOp? && e[i].status == HalOk && s.delay != 0 ==>
           i + 1 < |e| && e[i + 1] == Delay(WRITE_DELAY)
  {
    LoopSettleCount(s, remain, addr, call);
    var e := LoopEvents(s, remain, addr, call);
    forall i | 0 <= i < |e| && e[i].BusOp? && e[i].status == HalOk && s.delay != 0
      ensures i + 1 < |e| && e[i + 1] == Delay(WRITE_DELAY)
    {
      LoopSettleAt(s, remain, addr, call, i);
    }
  }

  // The loop as its driver carries it out: after some rounds, with `remain`
  // bytes left, the next chunk at `addr` and the next call numbered `call`,
  // what has happened so far plus what LoopRun predicts from here on is what
  // LoopRun predicted from the start.

  /** The calls made so far all succeeded and the rest of the run decides
      the outcome. */
  ghost predicate RunSoFar(s: Setup, size: nat, addr0: u16, call0: nat, remain: nat, addr: u16, call: nat)
    requires s.pageSize > 0
  {
    && call0 <= call && remain <= size
    && var rest := LoopRun(s, remain, addr, call);
       LoopRun(s, size, addr0, call0) == Run(rest.status, call - call0 + rest.calls, size - remain + rest.moved)
  }

  /** The trace so far followed by the rest of the run's events is the whole
      run's events after the trace the run started from. */
  ghost predicate EventsSoFar(s: Setup, size: nat, addr0: u16, call0: nat, trace0: seq<Event>,
                              remain: nat, addr: u16, call: nat, trace: seq<Event>)
    requires s.pageSize > 0
  {
    trace0 + LoopEvents(s, size, addr0, call0) == trace + LoopEvents(s, remain, addr, call)
  }

  lemma RunStart(s: Setup, size: nat, addr0: u16, call0: nat)
    requires s.pageSize > 0
    ensures RunSoFar(s, size, addr0, call0, size, addr0, call0)
  {
  }

  /** A successful round keeps the run on track: `remain'` bytes are left
      and the next call is `call'`. */
  lemma RunAdvance(s: Setup, size: nat, addr0: u16, call0: nat, remain: nat, addr: u16, call: nat,
                   remain': nat, call': nat)
    requires s.pageSize > 0 && remain > 0 && Outcome(s.faults, call) == HalOk
    requires RunSoFar(s, size, addr0, call0, remain, addr, call)
    requires remain' == remain - Min(s.pageSize, remain) && call' == call + 1
    ensures RunSoFar(s, size, addr0, call0, remain', Addr(addr, s.pageSize), call')
  {
    LoopStep(s, remain, addr, call);
  }

  /** A failed round ends the run with that round's status, having moved
      what the earlier rounds moved. */
  lemma RunAbort(s: Setup, size: nat, addr0: u16, call0: nat, remain: nat, addr: u16, call: nat)
    requires s.pageSize > 0 && remain > 0 && Outcome(s.faults, call) != HalOk
    requires RunSoFar(s, size, addr0, call0, remain, addr, call)
    ensures LoopRun(s, size, addr0, call0) == Run(Outcome(s.faults, call), call + 1 - call0, size - remain)
  {
    LoopFails(s, remain, addr, call);
  }

  /** With nothing left the run has succeeded and moved everything. */
  lemma RunFinish(s: Setup, size: nat, addr0: u16, call0: nat, addr: u16, call: nat)
    requires s.pageSize > 0 && RunSoFar(s, size, addr0, call0, 0, addr, call)
    ensures LoopRun(s, size, addr0, call0) == Run(HalOk, call - call0, size)
  {
  }

  lemma EventsStart(s: Setup, size: nat, addr0: u16, call0: nat, trace0: seq<Event>)
    requires s.pageSize > 0
    ensures EventsSoFar(s, size, addr0, call0, trace0, size, addr0, call0, trace0)
  {
  }

  /** A successful round adds its call and, with a delay argument, its settle delay. */
  lemma EventsAdvance(s: Setup, size: nat, addr0: u16, call0: nat, trace0: seq<Event>,
                      remain: nat, addr: u16, call: nat, trace: seq<Event>,
                      remain': nat, call': nat, trace': seq<Event>)
    requires s.pageSize > 0 && remain > 0 && Outcome(s.faults, call) == HalOk
    requires EventsSoFar(s, size, addr0, call0, trace0, remain, addr, call, trace)
    requires remain' == remain - Min(s.pageSize, remain) && call' == call + 1
    requires var op := BusOp(s.dir, s.devAddress, addr, Min(s.pageSize, remain), TIMEOUT, HalOk);
      trace' == trace + [op] + if s.delay != 0 then [Delay(WRITE_DELAY)] else []
    ensures EventsSoFar(s, size, addr0, call0, trace0, remain', Addr(addr, s.pageSize), call', trace')
  {
    var op := BusOp(s.dir, s.devAddress, addr, Min(s.pageSize, remain), TIMEOUT, HalOk);
    var settle := if s.delay != 0 then [Delay(WRITE_DELAY)] else [];
    var rest := LoopEvents(s, remain', Addr(addr, s.pageSize), call');
    EventsStep(s, remain, addr, call);
    Regroup(trace, [op], settle, rest);
  }

  lemma Regroup(a: seq<Event>, b: seq<Event>, c: seq<Event>, d: seq<Event>)
    ensures a + (b + c + d) == a + b + c + d
  {
  }

  /** A failed round adds its call and ends the events. */
  lemma EventsAbort(s: Setup, size: nat, addr0: u16, call0: nat, trace0: seq<Event>,
                    remain: nat, addr: u16, call: nat, trace: seq<Event>)
    requires s.pageSize > 0 && remain > 0 && Outcome(s.faults, call) != HalOk
    requires EventsSoFar(s, size, addr0, call0, trace0, remain, addr, call, trace)
    ensures trace0 + LoopEvents(s, size, addr0, call0)
         == trace + [BusOp(s.dir, s.devAddress, addr, Min(s.pageSize, remain), TIMEOUT, Outcome(s.faults, call))]
  {
    EventsFail(s, remain, addr, call);
  }

  lemma EventsFinish(s: Setup, size: nat, addr0: u16, call0: nat, trace0: seq<Event>, addr: u16, call: nat, trace: seq<Event>)
    requires s.pageSize > 0 && EventsSoFar(s, size, addr0, call0, trace0, 0, addr, call, trace)
    ensures trace0 + LoopEvents(s, size, addr0, call0) == trace
  {
  }

  /** The chip and the caller's buffer after the loop's first `moved` bytes
      went through: on the write path those bytes of `buf0` are stored from
      `addr0` on and the buffer is untouched; on the read path the chip is
      untouched and the buffer's first `moved` places hold the bytes loaded
      from `addr0` on. */
  ghost predicate Transferred(dir: Direction, mem0: seq<byte>, addr0: u16, buf0: seq<byte>, moved: nat,
                              mem: seq<byte>, cur: seq<byte>)
    requires |mem0| == ADDRESS_SPACE && moved <= |buf0| && moved <= ADDRESS_SPACE
  {
    && (dir == ToDevice ==> mem == Store(mem0, addr0, buf0[..moved]) && cur == buf0)
    && (dir == FromDevice ==> mem == mem0 && cur == Load(mem0, addr0, moved) + buf0[moved..])
  }

  lemma TransferredStart(dir: Direction, mem0: seq<byte>, addr0: u16, buf0: seq<byte>)
    requires |mem0| == ADDRESS_SPACE
    ensures Transferred(dir, mem0, addr0, buf0, 0, mem0, buf0)
  {
    assert Store(mem0, addr0, buf0[..0]) == mem0;
    assert Load(mem0, addr0, 0) + buf0[0..] == buf0;
  }

  /** A successful round moves the next `count` bytes: on the write path the
      chip stores them at the next chunk's address, on the read path the
      bytes loaded from there fill the buffer's next places. */
  lemma TransferredAdvance(dir: Direction, mem0: seq<byte>, addr0: u16, buf0: seq<byte>, moved: nat,
                           mem: seq<byte>, cur: seq<byte>, count: nat, moved': nat, mem': seq<byte>, cur': seq<byte>)
    requires |mem0| == ADDRESS_SPACE && moved' == moved + count && moved' <= |buf0| && moved' <= ADDRESS_SPACE
    requires Transferred(dir, mem0, addr0, buf0, moved, mem, cur)
    requires dir == ToDevice ==> mem' == Store(mem, Addr(addr0, moved), cur[moved..moved + count]) && cur' == cur
    requires dir == FromDevice ==> mem' == mem && cur' == cur[..moved] + Load(mem, Addr(addr0, moved), count) + cur[moved + count..]
    ensures Transferred(dir, mem0, addr0, buf0, moved', mem', cur')
  {
    if dir == ToDevice {
      var data := buf0[..moved'];
      assert data[..moved] == buf0[..moved] && data[moved..moved + count] == cur[moved..moved + count];
      StoreAppend(mem0, addr0, data, moved, count, moved');
      assert data[..moved'] == buf0[..moved'];
    } else {
      FillAppend(mem0, addr0, moved, count, moved', buf0, cur, cur');
    }
  }

  /** What one round of the loop leaves behind: the transport call's status,
      the bus afterwards and the caller's buffer afterwards. */
  datatype Step = Step(status: HalStatus, bus: BusState, buf: seq<byte>)

  /** One round of the loop on the chunk of `count` bytes at cur[offset..]
      and memory address `addr`: the transport call and, when it succeeded
      and the delay argument is not 0, the settle delay. */
  function Round(s: Setup, b: BusState, addr: u16, cur: seq<byte>, offset: nat, count: nat): (r: Step)
    requires b.Valid() && offset + count <= |cur| && count <= ADDRESS_SPACE
    ensures r.bus.Valid() && r.bus.faults == b.faults && |r.buf| == |cur|
    ensures r.status == Outcome(b.faults, b.calls) && r.bus.calls == b.calls + 1
    ensures r.bus.trace == b.trace + [BusOp(s.dir, s.devAddress, addr, count, TIMEOUT, r.status)]
                           + (if r.status == HalOk && s.delay != 0 then [Delay(WRITE_DELAY)] else [])
  {
    if s.dir == ToDevice then
      var t := BusWrite(b, s.devAddress, addr, cur[offset..offset + count], TIMEOUT);
      Step(t.status, if t.status == HalOk && s.delay != 0 then BusDelay(t.bus, WRITE_DELAY) else t.bus, cur)
    else
      var f := BusRead(b, s.devAddress, addr, count, TIMEOUT);
      assert s.dir == FromDevice && f.status == Outcome(b.faults, b.calls);
      assert f.bus.trace == b.trace + [BusOp(s.dir, s.devAddress, addr, count, TIMEOUT, f.status)];
      Step(f.status, if f.status == HalOk && s.delay != 0 then BusDelay(f.bus, WRITE_DELAY) else f.bus,
           cur[..offset] + f.data + cur[offset + |f.data|..])
  }

  /** Where a run of the loop started: its fixed parts, the buffer size, the
      first chunk's address, the bus and the caller's buffer. */
  datatype Start = Start(s: Setup, size: nat, addr: u16, bus: BusState, buf: seq<byte>)

  /** The loop, with `remain` bytes left, the next chunk at `addr`, the bus
      in state `bus` and the buffer holding `cur`, has done exactly what the
      run from `st` does up to that point. */
  ghost predicate OnTrack(st: Start, remain: nat, addr: u16, bus: BusState, cur: seq<byte>)
    requires st.s.pageSize > 0
  {
    && st.bus.Valid() && bus.Valid() && bus.faults == st.s.faults && |cur| == |st.buf|
    && remain <= st.size <= |st.buf| && st.size <= ADDRESS_SPACE
    && RunSoFar(st.s, st.size, st.addr, st.bus.calls, remain, addr, bus.calls)
    && EventsSoFar(st.s, st.size, st.addr, st.bus.calls, st.bus.trace, remain, addr, bus.calls, bus.trace)
    && Transferred(st.s.dir, st.bus.memory, st.addr, st.buf, st.size - remain, bus.memory, cur)
  }

  /** The run from `st` has ended with `status`, leaving the bus in state
      `bus` and the buffer holding `cur`, as LoopRun and LoopEvents say. */
  ghost predicate Finished(st: Start, status: HalStatus, bus: BusState, cur: seq<byte>)
    requires st.s.pageSize > 0 && st.bus.Valid() && st.size <= |st.buf| && st.size <= ADDRESS_SPACE
  {
    var run := LoopRun(st.s, st.size, st.addr, st.bus.calls);
    && status == run.status && bus.calls == st.bus.calls + run.calls
    && bus.trace == st.bus.trace + LoopEvents(st.s, st.size, st.addr, st.bus.calls)
    && (st.s.dir == ToDevice ==> bus.memory == Store(st.bus.memory, st.addr, st.buf[..run.moved]) && cur == st.buf)
    && (st.s.dir == FromDevice ==> bus.memory == st.bus.memory
                                   && cur == Load(st.bus.memory, st.addr, run.moved) + st.buf[run.moved..])
  }

  lemma OnTrackStart(st: Start)
    requires st.s.pageSize > 0 && st.bus.Valid() && st.bus.faults == st.s.faults
    requires st.size <= |st.buf| && st.size <= ADDRESS_SPACE
    ensures OnTrack(st, st.size, st.addr, st.bus, st.buf)
  {
    RunStart(st.s, st.size, st.addr, st.bus.calls);
    EventsStart(st.s, st.size, st.addr, st.bus.calls, st.bus.trace);
    TransferredStart(st.s.dir, st.bus.memory, st.addr, st.buf);
  }

  /** A successful round keeps the loop on track, with `remain'` bytes left
      and the next chunk at `addr'`. */
  lemma OnTrackAdvance(st: Start, remain: nat, addr: u16, bus: BusState, cur: seq<byte>, offset: nat, count: nat,
                       next: Step, remain': nat, addr': u16)
    requires st.s.pageSize > 0 && remain > 0 && OnTrack(st, remain, addr, bus, cur)
    requires offset == st.size - remain && addr == Addr(st.addr, offset) && count == Min(st.s.pageSize, remain)
    requires next == Round(st.s, bus, addr, cur, offset, count) && next.status == HalOk
    requires remain' == remain - count && addr' == Addr(addr, st.s.pageSize)
    ensures OnTrack(st, remain', addr', next.bus, next.buf)
  {
    var s := st.s;
    RunAdvance(s, st.size, st.addr, st.bus.calls, remain, addr, bus.calls, remain', next.bus.calls);
    EventsAdvance(s, st.size, st.addr, st.bus.calls, st.bus.trace, remain, addr, bus.calls, bus.trace,
                  remain', next.bus.calls, next.bus.trace);
    TransferredAdvance(s.dir, st.bus.memory, st.addr, st.buf, offset, bus.memory, cur, count,
                       st.size - remain', next.bus.memory, next.buf);
  }

  /** A failed round ends the run. */
  lemma OnTrackAbort(st: Start, remain: nat, addr: u16, bus: BusState, cur: seq<byte>, offset: nat, count: nat, next: Step)
    requires st.s.pageSize > 0 && remain > 0 && OnTrack(st, remain, addr, bus, cur)
    requires offset == st.size - remain && count == Min(st.s.pageSize, remain)
    requires next == Round(st.s, bus, addr, cur, offset, count) && next.status != HalOk
    ensures Finished(st, next.status, next.bus, next.buf)
  {
    var s := st.s;
    RunAbort(s, st.size, st.addr, st.bus.calls, remain, addr, bus.calls);
    EventsAbort(s, st.size, st.addr, st.bus.calls, st.bus.trace, remain, addr, bus.calls, bus.trace);
    if s.dir == FromDevice {
      assert next.buf == cur;
    }
  }

  /** With nothing left the run has succeeded. */
  lemma OnTrackFinish(st: Start, addr: u16, bus: BusState, cur: seq<byte>)
    requires st.s.pageSize > 0 && OnTrack(st, 0, addr, bus, cur)
    ensures Finished(st, HalOk, bus, cur)
  {
    RunFinish(st.s, st.size, st.addr, st.bus.calls, addr, bus.calls);
    EventsFinish(st.s, st.size, st.addr, st.bus.calls, st.bus.trace, addr, bus.calls, bus.trace);
  }
}

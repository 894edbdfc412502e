/** The fate of every byte that reaches the UART's receiver, over whole runs. */
module SerialReceive {
  import opened Bytes
  import opened Serial
  import opened SerialRun
  import opened SerialRegisters
  import SerialBytes

  // ----- what arrives, what is read, what remains -----

  /** The bytes that leave the shift register during an event; in loopback they are received. */
  function Looped(u: Uart, e: Event): seq<bv8>
    requires Ok(u) && Enabled(u, e)
  {
    var done := Step(u, e).tx.resolved;
    if u.Loop() && |u.tx.resolved| <= |done| then done[|u.tx.resolved|..] else []
  }

  /** The bytes an event hands to the receive FIFO: a burst or looped bytes with FIFOs on, a zero byte for any break. */
  function Arrived(u: Uart, e: Event): seq<bv8>
    requires Ok(u) && Enabled(u, e)
  {
    if e.Break? then [0]
    else if !u.fifo then []
    else if e.Received? then e.buf
    else Looped(u, e)
  }

  /** With FIFOs on and not empty, the value of a read of the receive buffer is a received byte. */
  function Returned(u: Uart, e: Event): seq<bv8> {
    if ReadsBuffer(u, e) && u.fifo && u.rx.recv != [] then [ReadValue(u, e.addr, e.lines)] else []
  }

  predicate ReadsBuffer(u: Uart, e: Event) { e.RegRead? && e.addr % 8 == 0 && !u.Dlab() }

  /** Events that empty the receive FIFO unread. */
  predicate Discards(u: Uart, e: Event) {
    || e.DeviceReset?
    || (e.RegWrite? && e.addr % 8 == 2 && (Has(LowByte(e.val), FCR_FE) != u.fifo || Has(LowByte(e.val), FCR_RFR)))
  }

  /** What a FIFO of 16 places keeps of the bytes put into it. */
  function Capped(s: seq<bv8>): seq<bv8> { if |s| <= 16 then s else s[..16] }

  /** Without FIFOs: the byte in the single buffer, given the one before the event. */
  function Latest(u: Uart, e: Event, before: bv8): bv8
    requires Ok(u) && Enabled(u, e)
  {
    if e.Break? || e.DeviceReset? then 0
    else if u.fifo then before
    else if e.Received? then e.buf[0]
    else if Looped(u, e) != [] then Looped(u, e)[|Looped(u, e)| - 1]
    else before
  }

  // ----- the transmitter in loopback -----

  /** What a receiver became by taking the bytes. */
  ghost predicate Took(fifo: bool, rx: Rx, bytes: seq<bv8>, after: Rx) {
    && after.recv == (if fifo then Capped(rx.recv + bytes) else rx.recv)
    && after.rbr == (if fifo || bytes == [] then rx.rbr else bytes[|bytes| - 1])
  }

  lemma CappedTwice(s: seq<bv8>, t: seq<bv8>)
    ensures Capped(Capped(s) + t) == Capped(s + t)
  {
  }

  lemma TookNothing(fifo: bool, rx: Rx)
    requires |rx.recv| <= 16
    ensures Took(fifo, rx, [], rx)
  {
    assert rx.recv + [] == rx.recv;
  }

  lemma TookTwice(fifo: bool, rx: Rx, a: seq<bv8>, mid: Rx, b: seq<bv8>, after: Rx)
    requires Took(fifo, rx, a, mid) && Took(fifo, mid, b, after)
    ensures Took(fifo, rx, a + b, after)
  {
    CappedTwice(rx.recv + a, b);
    ConcatAssociative(rx.recv, a, b);
  }

  lemma ReceiveTakes(u: Uart, buf: seq<bv8>)
    requires buf != [] && |u.rx.recv| <= 16
    ensures u.fifo ==> Receive1(u, buf).rx.recv == Capped(u.rx.recv + buf) && Receive1(u, buf).rx.rbr == u.rx.rbr
    ensures !u.fifo ==> Receive1(u, buf).rx.recv == u.rx.recv && Receive1(u, buf).rx.rbr == buf[0]
    ensures Receive1(u, buf).tx == u.tx
  {
  }

  lemma LoadTakesNothing(u: Uart)
    requires CanXmit(u.fifo, u.tx)
    ensures var v := LoadStep(u);
      v.rx == u.rx && v.fifo == u.fifo && v.mcr == u.mcr && v.tx.resolved == u.tx.resolved
  {
    hide Priority;
  }

  lemma EmitTakes(u: Uart, a: Answer)
    requires |u.rx.recv| <= 16
    ensures var v := EmitStep(u, a);
      && u.tx.resolved <= v.tx.resolved
      && Took(u.fifo, u.rx, if u.Loop() then v.tx.resolved[|u.tx.resolved|..] else [], v.rx)
  {
    hide Receive1;
    if u.Loop() {
      ReceiveTakes(u, [u.tx.tsr]);
      assert EmitStep(u, a).tx.resolved == u.tx.resolved + [u.tx.tsr];
    } else {
      TookNothing(u.fifo, u.rx);
    }
  }

  /** One round receives what it resolves, in loopback, and nothing otherwise. */
  lemma RoundTakes(u: Uart, a: Answer)
    requires CanXmit(u.fifo, u.tx) && Sound(u)
    ensures var v := RoundStep(u, a);
      && u.tx.resolved <= v.tx.resolved
      && Took(u.fifo, u.rx, if u.Loop() then v.tx.resolved[|u.tx.resolved|..] else [], v.rx)
  {
    hide LoadStep, EmitStep, Took;
    LoadTakesNothing(u);
    EmitTakes(LoadStep(u), a);
  }

  lemma {:induction false} XmitTakes(u: Uart, ans: nat -> Answer, n: nat)
    requires CanXmit(u.fifo, u.tx) && Sound(u)
    ensures var v := Xmit(u, ans, n);
      && u.tx.resolved <= v.tx.resolved
      && Took(u.fifo, u.rx, if u.Loop() then v.tx.resolved[|u.tx.resolved|..] else [], v.rx)
    decreases Left(u.fifo, u.tx)
  {
    hide Took, Round, RoundStep, Priority;
    var (t, more) := Round(u.fifo, u.Loop(), u.tx, ans(n));
    var v := RoundStep(u, ans(n));
    RoundOk(u.fifo, u.Loop(), u.tx, ans(n));
    RoundKeepsSound(u, ans(n));
    RoundTakes(u, ans(n));
    if more && !t.thre {
      var w := Xmit(v, ans, n + 1);
      XmitTakes(v, ans, n + 1);
      TookJoined(u, v, w);
    }
  }

  lemma TookJoined(u: Uart, v: Uart, w: Uart)
    requires v.fifo == u.fifo && v.Loop() == u.Loop() && u.tx.resolved <= v.tx.resolved <= w.tx.resolved
    requires Took(u.fifo, u.rx, if u.Loop() then v.tx.resolved[|u.tx.resolved|..] else [], v.rx)
    requires Took(u.fifo, v.rx, if u.Loop() then w.tx.resolved[|v.tx.resolved|..] else [], w.rx)
    ensures Took(u.fifo, u.rx, if u.Loop() then w.tx.resolved[|u.tx.resolved|..] else [], w.rx)
  {
    hide Took;
    var a := if u.Loop() then v.tx.resolved[|u.tx.resolved|..] else [];
    var b := if u.Loop() then w.tx.resolved[|v.tx.resolved|..] else [];
    TookTwice(u.fifo, u.rx, a, v.rx, b, w.rx);
    assert a + b == if u.Loop() then w.tx.resolved[|u.tx.resolved|..] else [];
  }

  // ----- every event -----

  /** The receiver after an event that neither reads nor discards. */
  ghost predicate Receives(u: Uart, e: Event)
    requires Ok(u) && Enabled(u, e)
  {
    Step(u, e).rx.recv == Capped(u.rx.recv + Arrived(u, e)) && Step(u, e).rx.rbr == Latest(u, e, u.rx.rbr)
  }

  /** A read of the buffer takes the oldest byte of the FIFO, or the single byte, and returns zero from an empty FIFO. */
  lemma ReadsOldest(u: Uart, addr: nat, lines: Lines)
    requires addr % 8 == 0 && !u.Dlab()
    ensures var v, ret := Read(u, addr, lines), ReadValue(u, addr, lines);
      && v.rx.rbr == u.rx.rbr && (!u.fifo ==> ret == u.rx.rbr && v.rx.recv == u.rx.recv)
      && (u.fifo ==> if u.rx.recv == [] then ret == 0 && v.rx.recv == [] else [ret] + v.rx.recv == u.rx.recv)
  {
    OldestIsRead(u);
  }

  lemma SameReceives(u: Uart, e: Event)
    requires Ok(u) && Enabled(u, e) && !e.Break? && !e.Received? && !e.DeviceReset?
    requires Step(u, e).rx.recv == u.rx.recv && Step(u, e).rx.rbr == u.rx.rbr
    requires Step(u, e).tx.resolved == u.tx.resolved
    ensures Receives(u, e)
  {
    assert Looped(u, e) == [];
    assert u.rx.recv + [] == u.rx.recv;
  }

  /** Transmission, started by a written byte or by the backend. */
  lemma XmitReceives(u: Uart, e: Event)
    requires Ok(u) && Enabled(u, e) && !e.Break? && !e.Received? && !e.DeviceReset?
    requires u.tx.resolved <= Step(u, e).tx.resolved
    requires Took(u.fifo, u.rx, if u.Loop() then Step(u, e).tx.resolved[|u.tx.resolved|..] else [], Step(u, e).rx)
    ensures Receives(u, e)
  {
    hide Step;
    assert u.rx.recv + [] == u.rx.recv;
  }

  /** Neither the receive FIFO nor the single buffer nor the record of resolved bytes changes. */
  ghost predicate Untouched(u: Uart, v: Uart) {
    v.rx.recv == u.rx.recv && v.rx.rbr == u.rx.rbr && v.tx.resolved == u.tx.resolved
  }

  lemma ThrWriteReceives(u: Uart, e: Event)
    requires Ok(u) && SerialBytes.Written(u, e).Some?
    ensures Receives(u, e)
  {
    hide Took, Xmit, Ok, Sound, CanXmit, UpdateIrq, Enqueue;
    var b := LowByte(e.val);
    var v := UpdateIrq(u.(tx := Enqueue(u.fifo, u.tx, b)));
    EnqueueReady(u, b);
    assert Step(u, e) == WriteThr(u, b, e.ans) by { OkMeans(u); }
    if v.tx.tsrRetry == 0 {
      XmitTakes(v, e.ans, 0);
    } else {
      assert |u.rx.recv| <= 16 by { WithinCapacity(u); }
      TookNothing(u.fifo, u.rx);
      assert u.tx.resolved[|u.tx.resolved|..] == [];
    }
    XmitReceives(u, e);
  }

  lemma EnqueueReady(u: Uart, b: bv8)
    requires Ok(u)
    ensures var v := UpdateIrq(u.(tx := Enqueue(u.fifo, u.tx, b)));
      && v.rx == u.rx && v.tx.resolved == u.tx.resolved && v.fifo == u.fifo && v.mcr == u.mcr && Sound(v)
      && (v.tx.tsrRetry == 0 ==> CanXmit(v.fifo, v.tx))
  {
  }

  lemma WatchReceives(u: Uart, e: Event)
    requires Ok(u) && Enabled(u, e) && e.Writable?
    ensures Receives(u, e)
  {
    hide Took;
    var v := u.(tx := u.tx.(watch := false));
    TxFrame(u, v.tx);
    XmitTakes(v, e.ans, 0);
    XmitReceives(u, e);
  }

  lemma FcrWriteReceives(u: Uart, e: Event)
    requires Ok(u) && e.RegWrite? && e.addr % 8 == 2
    ensures if Discards(u, e) then Step(u, e).rx.recv == [] && Step(u, e).rx.rbr == Latest(u, e, u.rx.rbr)
            else Receives(u, e)
  {
    var v := WriteFcr(u, LowByte(e.val));
    assert v.tx.resolved == u.tx.resolved && v.rx.rbr == u.rx.rbr;
    if !Discards(u, e) {
      assert v.rx.recv == u.rx.recv;
      SameReceives(u, e);
    }
  }

  lemma OtherWriteUntouched(u: Uart, e: Event)
    requires Ok(u) && e.RegWrite? && SerialBytes.Written(u, e).None? && e.addr % 8 != 2
    ensures Untouched(u, Step(u, e))
  {
    match e.addr % 8
    case 0 =>
    case 1 =>
      if !u.Dlab() {
        var x := Enable(u, IerOf(LowByte(e.val)), e.lines);
        EnableKeeps(u, IerOf(LowByte(e.val)), e.lines);
        UpdateIrqFrame(x);
      }
    case _ =>
      WritePlainIsPlain(u, e.addr % 8, LowByte(e.val));
  }

  lemma MsrReadUntouched(u: Uart, lines: Lines)
    ensures Untouched(u, ReadMsr(u, lines))
  {
    var v := if u.pollMsl >= 0 then UpdateMsl(u, lines) else u;
    UpdateMslFrame(u, lines);
    UpdateIrqFrame(v.(msr := NoDelta(v.msr)));
  }

  lemma OtherReadUntouched(u: Uart, e: Event)
    requires Ok(u) && e.RegRead? && !ReadsBuffer(u, e)
    ensures Untouched(u, Step(u, e))
  {
    hide Priority, ReadMsr, UpdateMsl;
    match e.addr % 8
    case 6 => MsrReadUntouched(u, e.lines);
    case _ =>
  }

  lemma BufferReadReceives(u: Uart, e: Event)
    requires Ok(u) && ReadsBuffer(u, e)
    ensures Returned(u, e) + Step(u, e).rx.recv == u.rx.recv && Arrived(u, e) == []
    ensures Step(u, e).rx.rbr == Latest(u, e, u.rx.rbr)
  {
    hide Priority;
    ReadsOldest(u, e.addr, e.lines);
    assert Step(u, e).tx.resolved == u.tx.resolved;
  }

  lemma QuietUntouched(u: Uart, e: Event)
    requires Ok(u) && (e.Timeout? || e.Poll?)
    ensures Untouched(u, Step(u, e))
  {
    hide Priority, UpdateMsl;
    if e.Poll? {
      UpdateMslFrame(u, e.lines);
    }
  }

  lemma BurstReceives(u: Uart, e: Event)
    requires Ok(u) && Enabled(u, e) && e.Received?
    ensures Receives(u, e)
  {
    ReceiveTakes(u, e.buf);
    assert u.rx.recv + [] == u.rx.recv;
  }

  lemma BreakReceives(u: Uart)
    requires Ok(u)
    ensures Receives(u, Break)
  {
  }

  lemma ResetEmpties(u: Uart, e: Event)
    requires Ok(u) && e.DeviceReset?
    ensures Step(u, e).rx.recv == [] && Step(u, e).rx.rbr == 0 == Latest(u, e, u.rx.rbr)
  {
    UpdateMslFrame(Fresh(u), e.lines);
  }

  /**
   * One event: the bytes it returns to the guest, followed by the FIFO it leaves, are the first sixteen of those that
   * were in the FIFO followed by those that arrived; a flush or reset leaves the FIFO empty. The single buffer holds the
   * byte that arrived last.
   */
  lemma StepReceives(u: Uart, e: Event)
    requires Ok(u) && Enabled(u, e)
    ensures if Discards(u, e) then Step(u, e).rx.recv == [] && Returned(u, e) == []
            else Returned(u, e) + Step(u, e).rx.recv == Capped(u.rx.recv + Arrived(u, e))
    ensures Step(u, e).rx.rbr == Latest(u, e, u.rx.rbr)
  {
    hide Ok, Step, Capped, Arrived, Latest, ReadValue, Enabled;
    if ReadsBuffer(u, e) {
      BufferReadReceives(u, e);
      WithinCapacity(u);
      assert u.rx.recv + [] == u.rx.recv;
    } else if e.DeviceReset? {
      ResetEmpties(u, e);
    } else if e.RegWrite? && e.addr % 8 == 2 {
      FcrWriteReceives(u, e);
    } else {
      OtherReceives(u, e);
      assert [] + Step(u, e).rx.recv == Step(u, e).rx.recv;
    }
  }

  lemma WithinCapacity(u: Uart)
    requires Ok(u)
    ensures |u.rx.recv| <= 16 && Capped(u.rx.recv) == u.rx.recv
  {
  }

  lemma OtherReceives(u: Uart, e: Event)
    requires Ok(u) && Enabled(u, e) && !ReadsBuffer(u, e) && !e.DeviceReset? && !(e.RegWrite? && e.addr % 8 == 2)
    ensures Receives(u, e)
  {
    hide Ok, Step, Capped, Arrived, Latest;
    if SerialBytes.Written(u, e).Some? {
      ThrWriteReceives(u, e);
    } else if e.Writable? {
      WatchReceives(u, e);
    } else if e.Received? {
      BurstReceives(u, e);
    } else if e.Break? {
      BreakReceives(u);
    } else {
      if e.RegWrite? {
        OtherWriteUntouched(u, e);
      } else if e.RegRead? {
        OtherReadUntouched(u, e);
      } else {
        QuietUntouched(u, e);
      }
      SameReceives(u, e);
    }
  }

  /** A byte that finds the FIFO full, or the single buffer unread, is an overrun, and nothing else is. */
  lemma OverrunFlagged(u: Uart, buf: seq<bv8>)
    requires Ok(u) && buf != []
    ensures Receive1(u, buf).rx.oe <==> u.rx.oe || if u.fifo then |u.rx.recv| + |buf| > 16 else u.rx.dr
    ensures Receive1(u, buf).rx.dr
  {
  }

  /** Below the trigger level, a burst of the size the device offers to take reaches the level, and no smaller one does. */
  lemma OfferReachesTrigger(u: Uart, buf: seq<bv8>)
    requires Ok(u) && u.fifo && |u.rx.recv| < u.rx.itl && buf != [] && |buf| <= CanReceive(u)
    ensures |Receive1(u, buf).rx.recv| >= u.rx.itl <==> |buf| == CanReceive(u)
  {
  }

  // ----- whole runs -----

  /**
   * A run so far: the device, the bytes that reached the receive FIFO, those that reads of the buffer returned from it,
   * how many were lost, and the byte that last came to the single buffer.
   */
  datatype Trace = Trace(u: Uart, arrived: seq<bv8>, read: seq<bv8>, lost: int, latest: bv8)

  /** Bytes leave the FIFO in the order in which they arrived, and those that are neither read nor in it are counted. */
  ghost predicate Accounted(t: Trace) {
    && Ok(t.u) && t.lost >= 0 && t.latest == t.u.rx.rbr
    && Subsequence(t.read + t.u.rx.recv, t.arrived)
    && |t.arrived| == |t.read| + |t.u.rx.recv| + t.lost
  }

  /** How many bytes an event throws away: those beyond the capacity, or the contents of the FIFO. */
  function LostBytes(u: Uart, e: Event): nat
    requires Ok(u) && Enabled(u, e)
  {
    var n := |u.rx.recv| + |Arrived(u, e)|;
    if Discards(u, e) then n else if n > 16 then n - 16 else 0
  }

  function Next(t: Trace, e: Event): Trace
    requires Ok(t.u) && Enabled(t.u, e)
  {
    Trace(Step(t.u, e), t.arrived + Arrived(t.u, e), t.read + Returned(t.u, e), t.lost + LostBytes(t.u, e),
          Latest(t.u, e, t.latest))
  }

  /** Dropping the end of what was kept keeps the order. */
  lemma {:induction false} SubsequencePrefix(d: seq<bv8>, x: seq<bv8>, p: seq<bv8>)
    requires Subsequence(d + x, p)
    ensures Subsequence(d, p)
    decreases |p|
  {
    if x == [] {
      assert d + x == d;
    } else if p != [] {
      var front := p[..|p| - 1];
      if Subsequence(d + x, front) {
        SubsequencePrefix(d, x, front);
      } else {
        assert (d + x)[..|d + x| - 1] == d + x[..|x| - 1];
        SubsequencePrefix(d, x[..|x| - 1], front);
      }
    }
  }

  lemma SubsequenceCapped(read: seq<bv8>, recv: seq<bv8>, arrived: seq<bv8>, buf: seq<bv8>)
    requires Subsequence(read + recv, arrived) && |recv| <= 16
    ensures Subsequence(read + Capped(recv + buf), arrived + buf)
  {
    hide Subsequence;
    var fits := if |recv| + |buf| <= 16 then |buf| else 16 - |recv|;
    SubsequenceGrows(read + recv, arrived, buf, fits, |buf|);
    assert buf[..|buf|] == buf;
    assert read + recv + buf[..fits] == read + Capped(recv + buf);
  }

  lemma NextAccounted(t: Trace, e: Event)
    requires Accounted(t) && Enabled(t.u, e)
    ensures Accounted(Next(t, e))
  {
    hide Ok, Step, Arrived, Returned, Latest, Subsequence, Discards, Enabled;
    var n := Next(t, e);
    var buf := Arrived(t.u, e);
    StepKeepsOk(t.u, e);
    StepReceives(t.u, e);
    WithinCapacity(t.u);
    if Discards(t.u, e) {
      SubsequenceGrows(t.read + t.u.rx.recv, t.arrived, buf, 0, |buf|);
      assert t.read + t.u.rx.recv + buf[..0] == t.read + t.u.rx.recv && buf[..|buf|] == buf;
      SubsequencePrefix(t.read, t.u.rx.recv, n.arrived);
      assert n.read + n.u.rx.recv == t.read;
    } else {
      SubsequenceCapped(t.read, t.u.rx.recv, t.arrived, buf);
      ConcatAssociative(t.read, Returned(t.u, e), n.u.rx.recv);
    }
  }

  /** A run is possible when each event is, where it happens. */
  ghost predicate Possible(t: Trace, events: seq<Event>)
    requires Accounted(t)
    decreases |events|
  {
    events == [] ||
    (Enabled(t.u, events[0]) && (NextAccounted(t, events[0]); Possible(Next(t, events[0]), events[1..])))
  }

  ghost function Run(t: Trace, events: seq<Event>): Trace
    requires Accounted(t) && Possible(t, events)
    decreases |events|
  {
    if events == [] then t else
      NextAccounted(t, events[0]);
      Run(Next(t, events[0]), events[1..])
  }

  /** A device just reset, before anything has arrived. */
  ghost function Start(u: Uart, lines: Lines): (t: Trace)
    requires u.rx.itl <= 14
    ensures Accounted(t)
  {
    ResetIsOk(u, lines);
    UpdateMslFrame(Fresh(u), lines);
    Trace(Reset(u, lines), [], [], 0, 0)
  }

  /**
   * Over every run: what reads of the buffer returned from the FIFO, followed by what it still holds, is what arrived,
   * in order, without the bytes counted as lost; with none lost it is all of it.
   */
  lemma {:induction false} EveryByteReadInOrder(t: Trace, events: seq<Event>)
    requires Accounted(t) && Possible(t, events)
    ensures var n := Run(t, events);
      && Accounted(n) && t.arrived <= n.arrived && t.read <= n.read && t.lost <= n.lost
      && (n.lost == 0 <==> n.read + n.u.rx.recv == n.arrived)
    decreases |events|
  {
    hide Step, Arrived, Returned, Latest, Ok, Subsequence;
    if events == [] {
      NothingLost(t.read + t.u.rx.recv, t.arrived);
    } else {
      NextAccounted(t, events[0]);
      EveryByteReadInOrder(Next(t, events[0]), events[1..]);
    }
  }

  /** Without FIFOs a read of the buffer returns the byte that came last, in every state of every run. */
  lemma SingleBufferReadsLatest(t: Trace, addr: nat, lines: Lines)
    requires Accounted(t) && addr % 8 == 0 && !t.u.Dlab() && !t.u.fifo
    ensures ReadValue(t.u, addr, lines) == t.latest
  {
    ReadsOldest(t.u, addr, lines);
  }
}

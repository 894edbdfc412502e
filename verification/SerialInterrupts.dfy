/** What raises and what withdraws an interrupt of the UART, and which registers read back what was written. */
module SerialInterrupts {
  import opened Serial
  import opened SerialRun
  import opened SerialRegisters

  // ----- requests and their order -----

  /** The five sources of an interrupt, each with its enable bit. */
  ghost predicate Requested(u: Uart, c: Cause) {
    match c
    case Rlsi => u.ier.rlsi && (u.rx.bi || u.rx.oe)
    case Cti => u.ier.rdi && u.rx.timeoutIpending
    case Rdi => u.ier.rdi && u.rx.dr && (u.fifo ==> |u.rx.recv| >= u.rx.itl)
    case Thri => u.ier.thri && u.tx.thrIpending
    case Msi => u.ier.msi && (u.msr.ddcd || u.msr.teri || u.msr.ddsr || u.msr.dcts)
    case NoInt => false
  }

  /** Line status first, then received data (overdue before new), then the transmitter, then the modem lines. */
  function Rank(c: Cause): nat {
    match c
    case Rlsi => 1
    case Cti => 2
    case Rdi => 3
    case Thri => 4
    case Msi => 5
    case NoInt => 6
  }

  /** In every reachable state the line is raised exactly for a request, and the most urgent one is identified. */
  lemma MostUrgentIdentified(u: Uart)
    requires Ok(u)
    ensures u.irq <==> exists c :: Requested(u, c)
    ensures u.irq <==> Requested(u, u.cause)
    ensures u.cause == NoInt <==> !u.irq
    ensures forall c | Requested(u, c) :: Rank(u.cause) <= Rank(c)
    ensures IirByte(u.cause, u.iirFifo) & 0x01 == 0 <==> u.irq
  {
    hide TxOk, RxOk;
    if u.irq {
      assert Requested(u, u.cause);
    }
  }

  // ----- withdrawal -----

  /** Reading the identification withdraws a transmit interrupt, and only the read that shows it does. */
  lemma ReadIirWithdraws(u: Uart, addr: nat, lines: Lines)
    requires Ok(u) && addr % 8 == 2
    ensures var v := Read(u, addr, lines);
      && (if u.cause == Thri then v.cause != Thri && !Requested(v, Thri) else v == u)
      && forall c | c != Thri :: Requested(v, c) == Requested(u, c)
  {
  }

  /** Reading the line status withdraws a line status interrupt and no other. */
  lemma ReadLsrWithdraws(u: Uart, addr: nat, lines: Lines)
    requires addr % 8 == 5
    ensures var v := Read(u, addr, lines);
      !Requested(v, Rlsi) && forall c | c != Rlsi :: Requested(v, c) == Requested(u, c)
  {
  }

  /**
   * With FIFOs on, reading a byte ends the timeout, and below the trigger level the data interrupt. Data ready and break
   * go with the last byte.
   */
  lemma ReadRbrWithdraws(u: Uart, addr: nat, lines: Lines)
    requires Ok(u) && addr % 8 == 0 && !u.Dlab()
    ensures var v := Read(u, addr, lines);
      && (u.fifo ==> !Requested(v, Cti))
      && (u.fifo ==> (Requested(v, Rdi) <==> u.ier.rdi && |u.rx.recv| > 1 && |u.rx.recv| > u.rx.itl))
      && (v.rx.dr <==> u.fifo && |u.rx.recv| > 1) && (v.rx.bi <==> u.rx.bi && u.fifo && |u.rx.recv| > 1)
      && v.rx.oe == u.rx.oe
  {
    hide Priority;
  }

  /** Enabling the transmit interrupt requests it at once exactly when the holding register is empty. */
  lemma EnableRequests(u: Uart, addr: nat, val: bv16, size: nat, lines: Lines, ans: nat -> Answer)
    requires Ok(u) && addr % 8 == 1 && !u.Dlab() && Has(LowByte(val), 0x02) && !u.ier.thri
    ensures Requested(Write(u, addr, val, size, lines, ans), Thri) <==> u.tx.thre
  {
    hide Polling, Priority;
    EnableKeepsThre(u, IerOf(LowByte(val)), lines);
  }

  /** Enabling the modem interrupt samples the lines and has them polled from then on; disabling it ends the polling. */
  lemma EnablePolls(u: Uart, addr: nat, val: bv16, size: nat, lines: Lines, ans: nat -> Answer)
    requires Ok(u) && addr % 8 == 1 && !u.Dlab() && Has(LowByte(val), 0x08) != u.ier.msi && u.pollMsl >= 0
    ensures var v := Write(u, addr, val, size, lines, ans);
      if u.ier.msi then v.pollMsl == 0 && v.msr == u.msr
      else if lines.Unsupported? then v.pollMsl < 0
      else v.pollMsl == 1 && v.msr == MsrAfter(u.msr, lines.cts, lines.dsr, lines.car, lines.ri)
  {
    hide Priority, MsrAfter;
    PollingSamples(u.(ier := IerOf(LowByte(val))), lines);
  }

  lemma PollingSamples(u: Uart, lines: Lines)
    requires u.pollMsl >= 0
    ensures var v := Polling(u, lines);
      if !u.ier.msi then v.pollMsl == 0 && v.msr == u.msr
      else if lines.Unsupported? then v.pollMsl < 0
      else v.pollMsl == 1 && v.msr == MsrAfter(u.msr, lines.cts, lines.dsr, lines.car, lines.ri)
  {
    hide Priority;
  }

  /** A FIFO control write asks for a flush of the receiver or transmitter, or changes the enable bit and so for both. */
  predicate AsksFor(u: Uart, val: bv16, bit: bv8) { Has(LowByte(val), FCR_FE) != u.fifo || Has(LowByte(val), bit) }

  /** A flushed receiver has nothing to report but an overrun; a flushed transmitter asks for bytes. */
  lemma FlushRequests(u: Uart, addr: nat, val: bv16, size: nat, lines: Lines, ans: nat -> Answer)
    requires Ok(u) && addr % 8 == 2
    ensures var v := Write(u, addr, val, size, lines, ans);
      && (AsksFor(u, val, FCR_RFR) ==>
            v.rx.recv == [] && !v.rx.dr && !v.rx.bi && v.rx.oe == u.rx.oe && !Requested(v, Cti) && !Requested(v, Rdi))
      && (AsksFor(u, val, FCR_XFR) ==> v.tx.xmit == [] && v.tx.thre && (Requested(v, Thri) <==> u.ier.thri))
      && (!AsksFor(u, val, FCR_RFR) ==> v.rx == u.rx.(itl := v.rx.itl)) && (!AsksFor(u, val, FCR_XFR) ==> v.tx == u.tx)
      && v.fifo == v.iirFifo == Has(LowByte(val), FCR_FE)
      && (v.fifo ==> v.rx.itl == TriggerLevel(LowByte(val))) && (!v.fifo ==> v.rx.itl == u.rx.itl)
  {
    hide Priority, TriggerLevel;
  }

  /** The four trigger levels, chosen by the two highest bits. */
  lemma TriggerLevels(val: bv8)
    ensures TriggerLevel(0x00) == 1 && TriggerLevel(0x40) == 4 && TriggerLevel(0x80) == 8 && TriggerLevel(0xC0) == 14
    ensures TriggerLevel(val) == TriggerLevel(val & 0xC0)
    ensures val & 0xC0 in {0x00, 0x40, 0x80, 0xC0}
  {
  }

  lemma EnableKeepsThre(u: Uart, e: Ier, lines: Lines)
    ensures var v := Enable(u, e, lines);
      v.ier == e && v.tx.thre == u.tx.thre && (e.thri != u.ier.thri ==> v.tx.thrIpending == (e.thri && u.tx.thre))
  {
    hide Priority;
    PollingKeeps(u.(ier := e), lines);
  }

  /** Outside loopback a read of the modem status leaves no change noted, and the lines as they were sampled. */
  lemma ReadMsrWithdraws(u: Uart, addr: nat, lines: Lines)
    requires !u.Loop() && addr % 8 == 6
    ensures var v := Read(u, addr, lines);
      && !AnyDelta(v.msr) && !Requested(v, Msi)
      && (u.pollMsl >= 0 && lines.Lines? ==>
            v.msr == Msr(lines.car, lines.ri, lines.dsr, lines.cts, false, false, false, false))
    ensures MsrOf(ReadValue(u, addr, lines)) ==
            if u.pollMsl >= 0 && lines.Lines? then MsrAfter(u.msr, lines.cts, lines.dsr, lines.car, lines.ri) else u.msr
  {
    hide Priority, MsrAfter, MsrByte, MsrOf;
    var w := if u.pollMsl >= 0 then UpdateMsl(u, lines) else u;
    MsrBytes(w.msr);
    if lines.Lines? {
      SampledLines(u, lines);
    }
    assert ReadMsr(u, lines).msr == NoDelta(w.msr);
  }

  lemma MsrBytes(m: Msr)
    ensures MsrOf(MsrByte(m)) == m
  {
  }

  lemma LevelsAfter(m: Msr, cts: bool, dsr: bool, car: bool, ri: bool)
    ensures var n := MsrAfter(m, cts, dsr, car, ri); n.dcd == car && n.ri == ri && n.dsr == dsr && n.cts == cts
    ensures m.(cts := cts, dsr := dsr, dcd := car, ri := ri) == m ==> MsrAfter(m, cts, dsr, car, ri) == m
  {
  }

  lemma SampledLines(u: Uart, lines: Lines)
    requires lines.Lines?
    ensures var m := UpdateMsl(u, lines).msr; m.dcd == lines.car && m.ri == lines.ri && m.dsr == lines.dsr && m.cts == lines.cts
    ensures UpdateMsl(u, lines).msr == MsrAfter(u.msr, lines.cts, lines.dsr, lines.car, lines.ri)
  {
    hide Priority, MsrAfter;
    LevelsAfter(u.msr, lines.cts, lines.dsr, lines.car, lines.ri);
  }

  /** A break is a line status condition, with data to read. */
  lemma BreakRequests(u: Uart)
    ensures var v := ReceiveBreak(u); v.rx.bi && v.rx.dr && (Requested(v, Rlsi) <==> u.ier.rlsi)
  {
  }

  /** The timer requests the timeout interrupt exactly when bytes wait in the receive FIFO. */
  lemma TimeoutRequests(u: Uart)
    ensures Requested(FifoTimeout(u), Cti) <==> u.ier.rdi && (u.rx.recv != [] || u.rx.timeoutIpending)
    ensures forall c | c != Cti :: Requested(FifoTimeout(u), c) == Requested(u, c)
  {
  }

  /** A backend without modem lines is not asked again: no later enabling of the interrupt starts polling. */
  lemma UnsupportedStopsPolling(u: Uart, lines: Lines)
    ensures UpdateMsl(u, Unsupported).pollMsl < 0
    ensures u.pollMsl < 0 ==> Polling(u, lines) == u && ReadMsr(u, lines).pollMsl == u.pollMsl
  {
  }

  /** A changed modem line is noted until it is read; the ring is noted only when it ends. */
  lemma ChangesAreNoted(m: Msr, cts: bool, dsr: bool, car: bool, ri: bool)
    ensures var n := MsrAfter(m, cts, dsr, car, ri);
      && (n.dcts <==> m.dcts || cts != m.cts) && (n.ddsr <==> m.ddsr || dsr != m.dsr) && (n.ddcd <==> m.ddcd || car != m.dcd)
      && (m.ri && !ri ==> n.teri) && (n.teri ==> m.teri || (m.ri && !ri))
      && (m.teri && !n.teri ==> !m.ri && (cts != m.cts || dsr != m.dsr || car != m.dcd || ri))
  {
  }

  lemma LoadRequests(u: Uart, a: Answer)
    requires CanXmit(u.fifo, u.tx) && u.tx.thrIpending == u.tx.thre
    ensures var t := Round(u.fifo, u.Loop(), u.tx, a).0; t.thrIpending == t.thre
  {
  }

  lemma {:induction false} XmitRequests(u: Uart, ans: nat -> Answer, n: nat)
    requires CanXmit(u.fifo, u.tx) && u.tx.thrIpending == u.tx.thre
    ensures Xmit(u, ans, n).tx.thrIpending == Xmit(u, ans, n).tx.thre
    decreases Left(u.fifo, u.tx)
  {
    hide Round, RoundStep, Xmit;
    var (t, more) := Round(u.fifo, u.Loop(), u.tx, ans(n));
    LoadRequests(u, ans(n));
    RoundStepTx(u, ans(n));
    XmitRound(u, ans, n);
    if more && !t.thre {
      XmitRequests(RoundStep(u, ans(n)), ans, n + 1);
    }
  }

  /** After a written byte the transmit interrupt is pending exactly when the holding register is empty again. */
  lemma WriteThrRequests(u: Uart, b: bv8, ans: nat -> Answer)
    requires Ok(u)
    ensures WriteThr(u, b, ans).tx.thrIpending <==> WriteThr(u, b, ans).tx.thre
  {
    var v := UpdateIrq(u.(tx := Enqueue(u.fifo, u.tx, b)));
    if v.tx.tsrRetry == 0 {
      XmitRequests(v, ans, 0);
    }
  }

  // ----- registers that hold what was written -----

  /** Line control, the five modem control bits and the scratch register read back; the status registers ignore writes. */
  lemma PlainReadsBack(u: Uart, val: bv16, size: nat, lines: Lines, ans: nat -> Answer)
    requires TxOk(u.fifo, u.tx)
    ensures ReadValue(Write(u, 3, val, size, lines, ans), 3, lines) == LowByte(val)
    ensures ReadValue(Write(u, 4, val, size, lines, ans), 4, lines) == LowByte(val) & 0x1F
    ensures ReadValue(Write(u, 7, val, size, lines, ans), 7, lines) == LowByte(val)
    ensures Write(u, 5, val, size, lines, ans) == Write(u, 6, val, size, lines, ans) == u
  {
    hide TxOk, LowByte, Has, WriteData, WriteEnable, WriteFcr;
    hide DivisorByte, IerByte, IirByte, LsrByte, MsrRead;
  }

  /** The bits of the two that switch the loopback, the divisor latch and the break. */
  lemma SwitchBits(u: Uart, val: bv8)
    ensures WritePlain(u, 4, val).Loop() <==> val & 0x10 != 0
    ensures WritePlain(u, 3, val).Dlab() <==> val & 0x80 != 0
    ensures WritePlain(u, 3, val).lastBreak <==> val & 0x40 != 0
  {
    LoopBit(val);
  }

  lemma LoopBit(b: bv8)
    ensures (b & 0x1F) & 0x10 == b & 0x10
  {
  }

  /** Outside the divisor latch the enable bits read back. */
  lemma EnableReadsBack(u: Uart, val: bv16, size: nat, lines: Lines, ans: nat -> Answer)
    requires TxOk(u.fifo, u.tx) && !u.Dlab()
    ensures ReadValue(Write(u, 1, val, size, lines, ans), 1, lines) == LowByte(val) & 0x0F
  {
    hide TxOk, WriteIer, IerByte, IerOf, LowByte, WriteData, WriteFcr, WritePlain;
    hide DivisorByte, IirByte, LsrByte, MsrRead;
    IerChanged(u.ier, LowByte(val));
    WriteIerKeepsLatch(u, IerOf(LowByte(val)), lines);
  }

  lemma UpdateMslKeepsLatch(u: Uart, lines: Lines)
    ensures UpdateMsl(u, lines).lcr == u.lcr && UpdateMsl(u, lines).ier == u.ier
  {
    hide Priority, MsrAfter;
  }

  lemma PollingKeepsLatch(u: Uart, lines: Lines)
    ensures Polling(u, lines).lcr == u.lcr && Polling(u, lines).ier == u.ier
  {
    hide UpdateMsl;
    UpdateMslKeepsLatch(u.(pollMsl := 1), lines);
  }

  lemma EnableKeepsLatch(u: Uart, e: Ier, lines: Lines)
    ensures Enable(u, e, lines).lcr == u.lcr && Enable(u, e, lines).ier == e
  {
    hide Polling;
    PollingKeepsLatch(u.(ier := e), lines);
  }

  lemma WriteIerKeepsLatch(u: Uart, e: Ier, lines: Lines)
    ensures WriteIer(u, e, lines).lcr == u.lcr && WriteIer(u, e, lines).ier == e
  {
    hide Priority, Enable;
    EnableKeepsLatch(u, e, lines);
  }

  /** A divisor written in an access of four bytes, or its low byte in one of two and then its high byte. */
  lemma DivisorWritten(u: Uart, low: bv16, high: bv16, lines: Lines, ans: nat -> Answer)
    requires TxOk(u.fifo, u.tx) && u.Dlab() && low <= 0xFF && high <= 0xFF
    ensures Write(u, 0, low, 4, lines, ans).divider == low && Write(u, 0, low, 1, lines, ans) == u
    ensures var v := Write(u, 0, low, 2, lines, ans);
      TxOk(v.fifo, v.tx) && Write(v, 1, high, 1, lines, ans).divider == (high << 8) | low
  {
    DivisorParts(u.divider, low, high);
    hide TxOk, Has, DivisorLow, DivisorHigh, WriteThr, WriteIer, WriteFcr, WritePlain, LowByte;
  }

  lemma DivisorParts(divisor: bv16, low: bv16, high: bv16)
    requires low <= 0xFF && high <= 0xFF
    ensures DivisorHigh(DivisorLow(divisor, low, 2), high) == (high << 8) | low
    ensures DivisorLow(divisor, low, 4) == low && DivisorLow(divisor, low, 1) == divisor
  {
  }

  /** Both of its bytes read back, with the latch open. */
  lemma DivisorReadsBack(u: Uart, low: bv8, high: bv8, lines: Lines)
    requires u.Dlab() && u.divider == ((high as bv16) << 8) | (low as bv16)
    ensures ReadValue(u, 0, lines) == low && ReadValue(u, 1, lines) == high
  {
    DivisorBytes(low, high);
  }

  lemma DivisorBytes(low: bv8, high: bv8)
    ensures DivisorByte(((high as bv16) << 8) | (low as bv16), false) == low
    ensures DivisorByte(((high as bv16) << 8) | (low as bv16), true) == high
  {
  }

  /** What the guest finds after a reset: no interrupt enabled, nothing to read, nothing to send. */
  lemma ResetReads(u: Uart, lines: Lines)
    ensures var v := Reset(u, lines);
      && ReadValue(v, 0, lines) == 0 && ReadValue(v, 1, lines) == 0 && ReadValue(v, 2, lines) == 0x01
      && ReadValue(v, 3, lines) == 0 && ReadValue(v, 4, lines) == 0x08 && ReadValue(v, 5, lines) == 0x60
      && ReadValue(v, 7, lines) == 0 && v.divider == 0x0C && forall c :: !Requested(v, c)
  {
    hide MsrRead, MsrAfter, DivisorByte, IerByte, IirByte, LsrByte, Reset;
    RegisterLayout();
    ResetBytes();
    ZeroBytes();
    ResetKeepsFresh(u, lines);
    OldestIsRead(Reset(u, lines));
    var v := Reset(u, lines);
    assert !v.Dlab() && Line(v.tx, v.rx) == Lsr(true, true, false, false, false) && LSR_TEMT | LSR_THRE == 0x60;
  }

  lemma ResetKeepsFresh(u: Uart, lines: Lines)
    ensures var (v, w) := (Reset(u, lines), Fresh(u));
      v == w.(msr := v.msr, pollMsl := v.pollMsl)
  {
    hide MsrAfter;
  }

  /** The modem status of a backend without lines shows carrier, data set ready and clear to send. */
  lemma ResetModem(u: Uart, lines: Lines)
    ensures Reset(u, Unsupported).pollMsl < 0 && MsrByte(Reset(u, Unsupported).msr) == 0xB0
    ensures lines.Lines? ==> Reset(u, lines).pollMsl == 0
  {
    hide MsrAfter;
  }
}

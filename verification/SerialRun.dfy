/** What holds in every run of the UART: its asserts, its interrupt line and its receive FIFO. */
module SerialRun {
  import opened Serial

  // ----- invariants -----

  /** The interrupt line and register are those the rest of the state calls for. */
  ghost predicate IrqOk(u: Uart) {
    u.cause == Priority(u) && u.irq == (u.cause != NoInt)
  }

  /** With FIFOs on, data ready means that the receive FIFO holds something. */
  ghost predicate RxOk(fifo: bool, rx: Rx) {
    && |rx.recv| <= UART_FIFO_LENGTH && rx.itl <= 14
    && (fifo ==> (rx.dr <==> rx.recv != []))
  }

  ghost predicate Ok(u: Uart) {
    TxOk(u.fifo, u.tx) && RxOk(u.fifo, u.rx) && IrqOk(u)
  }

  /** Everything but the transmitter, whose invariant is suspended while serial_xmit works. */
  ghost predicate Sound(u: Uart) {
    RxOk(u.fifo, u.rx) && IrqOk(u)
  }

  lemma ReceiveKeepsSound(u: Uart, buf: seq<bv8>)
    requires buf != [] && RxOk(u.fifo, u.rx)
    ensures Sound(Receive1(u, buf)) && Receive1(u, buf).tx == u.tx
  {
  }

  /** Of the transmitter, the interrupt depends on one flag only. */
  lemma TxFrame(u: Uart, tx: Tx)
    requires Sound(u) && tx.thrIpending == u.tx.thrIpending
    ensures Sound(u.(tx := tx))
  {
  }

  lemma LoadKeepsSound(u: Uart)
    requires CanXmit(u.fifo, u.tx) && Sound(u)
    ensures var v := LoadStep(u);
      && Sound(v) && v.fifo == u.fifo && v.mcr == u.mcr
      && v.tx == if u.tx.tsrRetry == 0 then Load(u.fifo, u.tx) else u.tx
  {
    if u.tx.tsrRetry == 0 && Load(u.fifo, u.tx).thrIpending == u.tx.thrIpending {
      TxFrame(u, Load(u.fifo, u.tx));
    }
  }

  lemma EmitKeepsFlag(loop: bool, tx: Tx, a: Answer)
    ensures Emit(loop, tx, a).0.thrIpending == tx.thrIpending
  {
  }

  /** What a round does to the transmitter does not depend on the rest. */
  lemma RoundStepTx(u: Uart, a: Answer)
    requires CanXmit(u.fifo, u.tx)
    ensures RoundStep(u, a).tx == Round(u.fifo, u.Loop(), u.tx, a).0
    ensures RoundStep(u, a).fifo == u.fifo && RoundStep(u, a).mcr == u.mcr
  {
    LoadStepFrame(u);
    EmitStepFrame(LoadStep(u), a);
  }

  lemma LoadStepFrame(u: Uart)
    requires CanXmit(u.fifo, u.tx)
    ensures var v := LoadStep(u);
      && v.tx == (if u.tx.tsrRetry == 0 then Load(u.fifo, u.tx) else u.tx) && v.fifo == u.fifo && v.mcr == u.mcr
  {
  }

  lemma EmitStepFrame(u: Uart, a: Answer)
    ensures EmitStep(u, a).fifo == u.fifo && EmitStep(u, a).mcr == u.mcr
  {
  }

  /** One round of the loop, seen from where it ends. */
  lemma XmitRound(u: Uart, ans: nat -> Answer, n: nat)
    requires CanXmit(u.fifo, u.tx)
    ensures var (more, v) := (Round(u.fifo, u.Loop(), u.tx, ans(n)).1, RoundStep(u, ans(n)));
      if !more then Xmit(u, ans, n) == v
      else if v.tx.thre then Xmit(u, ans, n) == v.(tx := v.tx.(temt := true))
      else CanXmit(v.fifo, v.tx) && Left(v.fifo, v.tx) < Left(u.fifo, u.tx) && Xmit(u, ans, n) == Xmit(v, ans, n + 1)
  {
    RoundStepTx(u, ans(n));
    RoundOk(u.fifo, u.Loop(), u.tx, ans(n));
  }

  lemma RoundKeepsSound(u: Uart, a: Answer)
    requires CanXmit(u.fifo, u.tx) && Sound(u)
    ensures var v := RoundStep(u, a);
      Sound(v) && v.fifo == u.fifo && v.mcr == u.mcr && v.tx == Round(u.fifo, u.Loop(), u.tx, a).0
  {
    var v := LoadStep(u);
    LoadKeepsSound(u);
    var w := if u.Loop() then Receive1(v, [v.tx.tsr]) else v;
    assert Sound(w) && w.tx == v.tx by {
      if u.Loop() { ReceiveKeepsSound(v, [v.tx.tsr]); }
    }
    EmitKeepsFlag(u.Loop(), v.tx, a);
    TxFrame(w, Round(u.fifo, u.Loop(), u.tx, a).0);
  }

  /** serial_xmit ends with the transmitter at rest or waiting, and leaves line and receiver consistent. */
  lemma {:induction false} XmitKeepsOk(u: Uart, ans: nat -> Answer, n: nat)
    requires CanXmit(u.fifo, u.tx) && Sound(u)
    ensures Ok(Xmit(u, ans, n))
    decreases Left(u.fifo, u.tx)
  {
    var (t, more) := Round(u.fifo, u.Loop(), u.tx, ans(n));
    var v := RoundStep(u, ans(n));
    RoundOk(u.fifo, u.Loop(), u.tx, ans(n));
    assert Sound(v) && v.fifo == u.fifo && v.tx == t by { RoundKeepsSound(u, ans(n)); }
    if more && t.thre {
      assert TxOk(u.fifo, t.(temt := true));
      TxFrame(v, t.(temt := true));
    } else if more {
      XmitKeepsOk(v, ans, n + 1);
    }
  }

  // ----- events -----

  /** Everything that calls into the device. */
  datatype Event =
    | RegWrite(addr: nat, val: bv16, size: nat, lines: Lines, ans: nat -> Answer)
    | RegRead(addr: nat, lines: Lines)
    | Received(buf: seq<bv8>)
    | Break
    | Timeout
    | Poll(lines: Lines)
    | Writable(ans: nat -> Answer)
    | DeviceReset(lines: Lines)

  /** The backend calls the watch only while one is registered, and delivers at least one byte. */
  predicate Enabled(u: Uart, e: Event) {
    match e
    case Received(buf) => buf != []
    case Writable(_) => u.tx.watch
    case _ => true
  }

  /** serial_watch_cb. */
  function WatchCallback(u: Uart, ans: nat -> Answer): Uart
    requires TxOk(u.fifo, u.tx) && u.tx.watch
  {
    Xmit(u.(tx := u.tx.(watch := false)), ans, 0)
  }

  function Step(u: Uart, e: Event): Uart
    requires Ok(u) && Enabled(u, e)
  {
    match e
    case RegWrite(addr, val, size, lines, ans) => Write(u, addr, val, size, lines, ans)
    case RegRead(addr, lines) => Read(u, addr, lines)
    case Received(buf) => Receive1(u, buf)
    case Break => ReceiveBreak(u)
    case Timeout => FifoTimeout(u)
    case Poll(lines) => UpdateMsl(u, lines)
    case Writable(ans) => WatchCallback(u, ans)
    case DeviceReset(lines) => Reset(u, lines)
  }

  lemma WriteThrKeepsOk(u: Uart, b: bv8, ans: nat -> Answer)
    requires Ok(u)
    ensures Ok(WriteThr(u, b, ans))
  {
    var v := UpdateIrq(u.(tx := Enqueue(u.fifo, u.tx, b)));
    if v.tx.tsrRetry == 0 { XmitKeepsOk(v, ans, 0); }
  }

  lemma UpdateMslKeepsOk(u: Uart, lines: Lines)
    requires Ok(u)
    ensures Ok(UpdateMsl(u, lines)) && SameTx(u, UpdateMsl(u, lines))
  {
    if lines.Lines? {
      UpdateIrqKeeps(u.(msr := MsrAfter(u.msr, lines.cts, lines.dsr, lines.car, lines.ri)));
    }
  }

  /** What an event that only reads or enables leaves alone of the transmitter. */
  ghost predicate SameTx(u: Uart, v: Uart) {
    v.fifo == u.fifo && v.tx == u.tx.(thrIpending := v.tx.thrIpending)
  }

  lemma UpdateIrqKeeps(u: Uart)
    requires TxOk(u.fifo, u.tx) && RxOk(u.fifo, u.rx)
    ensures Ok(UpdateIrq(u)) && SameTx(u, UpdateIrq(u))
  {
  }

  /** Recomputing the line touches nothing else. */
  lemma UpdateIrqFrame(u: Uart)
    ensures var v := UpdateIrq(u); v.fifo == u.fifo && v.tx == u.tx && v.rx == u.rx && v.ier == u.ier
  {
  }

  lemma UpdateMslFrame(u: Uart, lines: Lines)
    ensures var v := UpdateMsl(u, lines); v.fifo == u.fifo && v.tx == u.tx && v.rx == u.rx && v.ier == u.ier
  {
    if lines.Lines? {
      UpdateIrqFrame(u.(msr := MsrAfter(u.msr, lines.cts, lines.dsr, lines.car, lines.ri)));
    }
  }

  lemma PollingKeeps(u: Uart, lines: Lines)
    ensures var v := Polling(u, lines); v.fifo == u.fifo && v.tx == u.tx && v.rx == u.rx && v.ier == u.ier
  {
    UpdateMslFrame(u.(pollMsl := 1), lines);
  }

  lemma EnableKeeps(u: Uart, e: Ier, lines: Lines)
    ensures var v := Enable(u, e, lines); SameTx(u, v) && v.rx == u.rx
    ensures e == u.ier ==> Enable(u, e, lines) == u
  {
    PollingKeeps(u.(ier := e), lines);
  }

  lemma WriteIerKeepsOk(u: Uart, e: Ier, lines: Lines)
    requires Ok(u)
    ensures Ok(WriteIer(u, e, lines)) && SameTx(u, WriteIer(u, e, lines))
  {
    var x := Enable(u, e, lines);
    EnableKeeps(u, e, lines);
    if e != u.ier {
      assert TxOk(x.fifo, x.tx);
      UpdateIrqKeeps(x);
    }
  }

  /** Nothing but configuration that neither transmitter, receiver nor interrupt looks at. */
  ghost predicate SameCore(u: Uart, v: Uart) {
    && v.tx == u.tx && v.rx == u.rx && v.fifo == u.fifo && v.ier == u.ier && v.msr == u.msr
    && v.cause == u.cause && v.irq == u.irq
  }

  lemma SameCoreOk(u: Uart, v: Uart)
    requires Ok(u) && SameCore(u, v)
    ensures Ok(v)
  {
  }

  lemma WritePlainIsPlain(u: Uart, reg: nat, val: bv8)
    ensures SameCore(u, WritePlain(u, reg, val))
  {
  }

  lemma WriteFcrKeepsOk(u: Uart, val: bv8)
    requires Ok(u)
    ensures Ok(WriteFcr(u, val))
  {
  }

  lemma ReadRbrKeepsOk(u: Uart)
    requires Ok(u)
    ensures Ok(ReadRbr(u)) && SameTx(u, ReadRbr(u))
  {
    UpdateIrqKeeps(u.(rx := PopRx(u.rx, u.fifo)));
  }

  lemma ReadIirKeepsOk(u: Uart)
    requires Ok(u)
    ensures Ok(ReadIir(u)) && SameTx(u, ReadIir(u))
  {
    if u.cause == Thri {
      UpdateIrqKeeps(u.(tx := u.tx.(thrIpending := false)));
    }
  }

  lemma ReadLsrKeepsOk(u: Uart)
    requires Ok(u)
    ensures Ok(ReadLsr(u)) && SameTx(u, ReadLsr(u))
  {
    UpdateIrqKeeps(u.(rx := u.rx.(bi := false, oe := false)));
  }

  lemma ReadMsrKeepsOk(u: Uart, lines: Lines)
    requires Ok(u)
    ensures Ok(ReadMsr(u, lines)) && SameTx(u, ReadMsr(u, lines))
  {
    var v := if u.pollMsl >= 0 then UpdateMsl(u, lines) else u;
    assert Ok(v) && SameTx(u, v) by { UpdateMslKeepsOk(u, lines); }
    UpdateIrqKeeps(v.(msr := NoDelta(v.msr)));
  }

  lemma ReadKeepsOk(u: Uart, addr: nat, lines: Lines)
    requires Ok(u)
    ensures Ok(Read(u, addr, lines)) && SameTx(u, Read(u, addr, lines))
  {
    match addr % 8
    case 0 => if !u.Dlab() { ReadRbrKeepsOk(u); }
    case 2 => ReadIirKeepsOk(u);
    case 5 => ReadLsrKeepsOk(u);
    case 6 => ReadMsrKeepsOk(u, lines);
    case _ =>
  }

  /** A reset ends in a consistent state from whatever state it starts in. */
  lemma ResetIsOk(u: Uart, lines: Lines)
    requires u.rx.itl <= 14
    ensures Ok(Reset(u, lines)) && !Reset(u, lines).irq
    ensures Reset(u, lines).fifo == u.fifo && Reset(u, lines).tx.resolved == u.tx.resolved
    ensures Reset(u, lines).iirFifo == Reset(u, lines).fifo <==> !u.fifo
  {
  }

  lemma WriteDataKeepsOk(u: Uart, val: bv16, size: nat, ans: nat -> Answer)
    requires Ok(u)
    ensures Ok(WriteData(u, val, size, ans))
  {
    if u.Dlab() {
      SameCoreOk(u, WriteDivisorLow(u, val, size));
    } else {
      WriteThrKeepsOk(u, LowByte(val), ans);
    }
  }

  lemma WriteEnableKeepsOk(u: Uart, val: bv16, lines: Lines)
    requires Ok(u)
    ensures Ok(WriteEnable(u, val, lines)) && SameTx(u, WriteEnable(u, val, lines))
  {
    if u.Dlab() {
      SameCoreOk(u, WriteDivisorHigh(u, val));
    } else {
      WriteIerKeepsOk(u, IerOf(LowByte(val)), lines);
    }
  }

  lemma WriteKeepsOk(u: Uart, addr: nat, val: bv16, size: nat, lines: Lines, ans: nat -> Answer)
    requires Ok(u)
    ensures Ok(Write(u, addr, val, size, lines, ans))
  {
    match addr % 8
    case 0 => WriteDataKeepsOk(u, val, size, ans);
    case 1 => WriteEnableKeepsOk(u, val, lines);
    case 2 => WriteFcrKeepsOk(u, LowByte(val));
    case _ =>
      WritePlainIsPlain(u, addr % 8, LowByte(val));
      SameCoreOk(u, WritePlain(u, addr % 8, LowByte(val)));
  }

  lemma ReceivedKeepsOk(u: Uart, buf: seq<bv8>)
    requires Ok(u) && buf != []
    ensures Ok(Receive1(u, buf)) && SameTx(u, Receive1(u, buf))
  {
    ReceiveKeepsSound(u, buf);
  }

  lemma BreakKeepsOk(u: Uart)
    requires Ok(u)
    ensures Ok(ReceiveBreak(u)) && SameTx(u, ReceiveBreak(u))
  {
    UpdateIrqKeeps(u.(rx := RecvFifoPut(u.rx.(rbr := 0), [0]).(bi := true, dr := true)));
  }

  lemma TimeoutKeepsOk(u: Uart)
    requires Ok(u)
    ensures Ok(FifoTimeout(u)) && SameTx(u, FifoTimeout(u))
  {
    UpdateIrqKeeps(u.(rx := u.rx.(timeoutIpending := true)));
  }

  lemma WatchKeepsOk(u: Uart, ans: nat -> Answer)
    requires Ok(u) && u.tx.watch
    ensures Ok(WatchCallback(u, ans))
  {
    XmitKeepsOk(u.(tx := u.tx.(watch := false)), ans, 0);
  }

  lemma OkMeans(u: Uart)
    requires Ok(u)
    ensures u.rx.itl <= 14 && TxOk(u.fifo, u.tx)
  {
  }

  /** Every event keeps every invariant: no assert of serial_xmit can fail and the line is never stale. */
  lemma StepKeepsOk(u: Uart, e: Event)
    requires Ok(u) && Enabled(u, e)
    ensures Ok(Step(u, e))
  {
    hide Ok, TxOk, RxOk, IrqOk, Write, Read, Receive1, ReceiveBreak, FifoTimeout, UpdateMsl, WatchCallback, Reset, Xmit;
    OkMeans(u);
    match e
    case RegWrite(addr, val, size, lines, ans) => WriteKeepsOk(u, addr, val, size, lines, ans);
    case RegRead(addr, lines) => ReadKeepsOk(u, addr, lines);
    case Received(buf) => ReceivedKeepsOk(u, buf);
    case Break => BreakKeepsOk(u);
    case Timeout => TimeoutKeepsOk(u);
    case Poll(lines) => UpdateMslKeepsOk(u, lines);
    case Writable(ans) => WatchKeepsOk(u, ans);
    case DeviceReset(lines) => ResetIsOk(u, lines);
  }
}

/**
 * The 16550A UART as functions on its state. The status, enable and identification registers are kept as their named
 * bits here; SerialRegisters shows that the mask arithmetic on the bytes of SerialDevice does the same.
 */
module Serial {
  import opened Bytes

  const LCR_DLAB: bv8 := 0x80
  const MCR_LOOP: bv8 := 0x10
  const MCR_OUT2: bv8 := 0x08
  const FCR_XFR: bv8 := 0x04
  const FCR_RFR: bv8 := 0x02
  const FCR_FE: bv8 := 0x01
  const MAX_XMIT_RETRY := 4
  const UART_FIFO_LENGTH := 16

  predicate Has(reg: bv8, mask: bv8) { reg & mask != 0 }

  datatype Ier = Ier(msi: bool, rlsi: bool, thri: bool, rdi: bool)
  datatype Msr = Msr(dcd: bool, ri: bool, dsr: bool, cts: bool, ddcd: bool, teri: bool, ddsr: bool, dcts: bool)
  datatype Cause = NoInt | Rlsi | Cti | Rdi | Thri | Msi

  /**
   * The transmitter. `thre` and `temt` are bits of the line status. `resolved` records the bytes that have left the
   * shift register: sent, looped back, or given up. `watch` is whether a writability watch is registered.
   */
  datatype Tx = Tx(
    xmit: seq<bv8>, thr: bv8, tsr: bv8, tsrRetry: nat, watch: bool, thre: bool, temt: bool, thrIpending: bool,
    resolved: seq<bv8>)

  /** The receiver; `dr`, `bi` and `oe` are bits of the line status. */
  datatype Rx = Rx(recv: seq<bv8>, rbr: bv8, itl: nat, timeoutIpending: bool, dr: bool, bi: bool, oe: bool)

  datatype Uart = Uart(
    tx: Tx, rx: Rx, fifo: bool, ier: Ier, msr: Msr, cause: Cause, irq: bool, iirFifo: bool,
    lcr: bv8, mcr: bv8, scr: bv8, divider: bv16, pollMsl: int, lastBreak: bool)
  {
    predicate Loop() { Has(mcr, MCR_LOOP) }
    predicate Dlab() { Has(lcr, LCR_DLAB) }
  }

  /** What the character backend answers to one byte. */
  datatype Answer = Taken | Blocked(watchOk: bool) | Failed

  /** The modem lines, or a backend without them. */
  datatype Lines = Lines(cts: bool, dsr: bool, car: bool, ri: bool) | Unsupported

  // ----- interrupts -----

  predicate AnyDelta(m: Msr) { m.ddcd || m.teri || m.ddsr || m.dcts }

  /** The interrupt that the state calls for. */
  function Priority(u: Uart): Cause {
    if u.ier.rlsi && (u.rx.bi || u.rx.oe) then Rlsi
    else if u.ier.rdi && u.rx.timeoutIpending then Cti
    else if u.ier.rdi && u.rx.dr && (!u.fifo || |u.rx.recv| >= u.rx.itl) then Rdi
    else if u.ier.thri && u.tx.thrIpending then Thri
    else if u.ier.msi && AnyDelta(u.msr) then Msi
    else NoInt
  }

  function UpdateIrq(u: Uart): Uart {
    u.(cause := Priority(u), irq := Priority(u) != NoInt)
  }

  /** The modem status after the lines took the given levels: a changed line sets its delta, the ring only on its fall. */
  function MsrAfter(m: Msr, cts: bool, dsr: bool, car: bool, ri: bool): Msr {
    if m.(cts := cts, dsr := dsr, dcd := car, ri := ri) == m then m
    else
      Msr(car, ri, dsr, cts,
          m.ddcd || car != m.dcd, (m.teri || ri != m.ri) && m.ri, m.ddsr || dsr != m.dsr, m.dcts || cts != m.cts)
  }

  /** serial_update_msl; the interrupt line is recomputed only when a modem line changed. */
  function UpdateMsl(u: Uart, lines: Lines): Uart {
    match lines
    case Unsupported => u.(pollMsl := -1)
    case Lines(cts, dsr, car, ri) =>
      if u.msr.(cts := cts, dsr := dsr, dcd := car, ri := ri) == u.msr then u
      else UpdateIrq(u.(msr := MsrAfter(u.msr, cts, dsr, car, ri)))
  }

  // ----- receiving -----

  /** How many bytes of a burst the receive FIFO can still take. */
  function Room(rx: Rx, buf: seq<bv8>): nat {
    if |rx.recv| < UART_FIFO_LENGTH then Min(|buf|, UART_FIFO_LENGTH - |rx.recv|) else 0
  }

  /** A full receive FIFO keeps its contents: of a burst, exactly what still fits is stored, and an overrun is flagged. */
  function RecvFifoPut(rx: Rx, buf: seq<bv8>): Rx {
    rx.(recv := rx.recv + buf[..Room(rx, buf)], oe := rx.oe || Room(rx, buf) < |buf|)
  }

  function ReceiveRx(rx: Rx, fifo: bool, buf: seq<bv8>): Rx
    requires buf != []
  {
    if fifo then RecvFifoPut(rx, buf).(dr := true)
    else rx.(rbr := buf[0], oe := rx.oe || rx.dr, dr := true)
  }

  function Receive1(u: Uart, buf: seq<bv8>): Uart
    requires buf != []
  {
    UpdateIrq(u.(rx := ReceiveRx(u.rx, u.fifo, buf)))
  }

  /** serial_can_receive: how many bytes the backend may deliver. */
  function CanReceive(u: Uart): int {
    if u.fifo then
      if |u.rx.recv| < UART_FIFO_LENGTH then
        if |u.rx.recv| <= u.rx.itl then u.rx.itl - |u.rx.recv| else 1
      else 0
    else if u.rx.dr then 0 else 1
  }

  function ReceiveBreak(u: Uart): Uart {
    UpdateIrq(u.(rx := RecvFifoPut(u.rx.(rbr := 0), [0]).(bi := true, dr := true)))
  }

  function FifoTimeout(u: Uart): Uart {
    if u.rx.recv != [] then UpdateIrq(u.(rx := u.rx.(timeoutIpending := true))) else u
  }

  // ----- transmitting -----

  /** The transmitter while it works. */
  ghost predicate Busy(fifo: bool, tx: Tx) {
    && tx.tsrRetry <= MAX_XMIT_RETRY
    && |tx.xmit| <= UART_FIFO_LENGTH
    && (if fifo then tx.thre <==> tx.xmit == [] else tx.xmit == [])
  }

  /** The transmitter between two calls. */
  ghost predicate TxOk(fifo: bool, tx: Tx) {
    && Busy(fifo, tx)
    && (tx.temt <==> tx.tsrRetry == 0)
    && (tx.temt ==> tx.thre)
    && (tx.watch <==> tx.tsrRetry > 0)
  }

  /** What holds at the head of the transmit loop: the four asserts of serial_xmit follow. */
  ghost predicate CanXmit(fifo: bool, tx: Tx) {
    && Busy(fifo, tx) && !tx.temt && !tx.watch
    && (tx.tsrRetry == 0 ==> !tx.thre)
  }

  /** The next byte moves into the shift register. */
  function Load(fifo: bool, tx: Tx): Tx
    requires fifo ==> tx.xmit != []
  {
    if fifo then
      var thre := tx.thre || |tx.xmit| == 1;
      tx.(tsr := tx.xmit[0], xmit := tx.xmit[1..], thre := thre, thrIpending := tx.thrIpending || thre)
    else
      tx.(tsr := tx.thr, thre := true, thrIpending := true)
  }

  /** What happens to the byte in the shift register; the second result is whether it has been dealt with. */
  function Emit(loop: bool, tx: Tx, a: Answer): (Tx, bool) {
    if !loop && a == Blocked(true) && tx.tsrRetry < MAX_XMIT_RETRY then
      (tx.(watch := true, tsrRetry := tx.tsrRetry + 1), false)
    else
      (tx.(tsrRetry := 0, resolved := tx.resolved + [tx.tsr]), true)
  }

  /** One round of serial_xmit, as far as the transmitter is concerned. */
  function Round(fifo: bool, loop: bool, tx: Tx, a: Answer): (Tx, bool)
    requires tx.tsrRetry == 0 && fifo ==> tx.xmit != []
  {
    Emit(loop, if tx.tsrRetry == 0 then Load(fifo, tx) else tx, a)
  }

  /** What is still to be dealt with: the measure of the transmit loop. */
  function Left(fifo: bool, tx: Tx): nat {
    |tx.xmit| + (if !fifo && !tx.thre then 1 else 0) + (if tx.tsrRetry > 0 then 1 else 0)
  }

  /** One round keeps what the next round, or the next call, relies on; and it makes progress. */
  lemma RoundOk(fifo: bool, loop: bool, tx: Tx, a: Answer)
    requires CanXmit(fifo, tx)
    ensures var (t, more) := Round(fifo, loop, tx, a);
      if more then Busy(fifo, t) && !t.temt && !t.watch && t.tsrRetry == 0 && Left(fifo, t) < Left(fifo, tx)
      else TxOk(fifo, t)
  {
  }

  /** The interrupt line and the receiver follow a round: the line is recomputed when the holding register runs empty. */
  function LoadStep(u: Uart): Uart
    requires u.tx.tsrRetry == 0 && u.fifo ==> u.tx.xmit != []
  {
    if u.tx.tsrRetry > 0 then u
    else
      var v := u.(tx := Load(u.fifo, u.tx));
      if v.tx.thrIpending && !u.tx.thrIpending then UpdateIrq(v) else v
  }

  /** The byte in the shift register is looped back or offered to the backend. */
  function EmitStep(u: Uart, a: Answer): Uart {
    var v := if u.Loop() then Receive1(u, [u.tx.tsr]) else u;
    v.(tx := Emit(u.Loop(), u.tx, a).0)
  }

  /** One round of serial_xmit on the whole device. */
  function RoundStep(u: Uart, a: Answer): Uart
    requires u.tx.tsrRetry == 0 && u.fifo ==> u.tx.xmit != []
  {
    EmitStep(LoadStep(u), a)
  }

  /** serial_xmit: the rounds from number n on, the backend answering `ans(n)` in round n. */
  function Xmit(u: Uart, ans: nat -> Answer, n: nat): Uart
    requires CanXmit(u.fifo, u.tx)
    decreases Left(u.fifo, u.tx)
  {
    RoundOk(u.fifo, u.Loop(), u.tx, ans(n));
    var v := RoundStep(u, ans(n));
    if !Round(u.fifo, u.Loop(), u.tx, ans(n)).1 then v
    else if v.tx.thre then v.(tx := v.tx.(temt := true))
    else Xmit(v, ans, n + 1)
  }

  // ----- register writes -----

  /** The holding register takes a byte; a full FIFO gives up its oldest. */
  function Enqueue(fifo: bool, tx: Tx, b: bv8): Tx {
    var queue := if |tx.xmit| >= UART_FIFO_LENGTH then tx.xmit[1..] else tx.xmit;
    tx.(thr := b, xmit := if fifo then queue + [b] else tx.xmit, thrIpending := false, thre := false, temt := false)
  }

  function WriteThr(u: Uart, b: bv8, ans: nat -> Answer): Uart
    requires TxOk(u.fifo, u.tx)
  {
    var v := UpdateIrq(u.(tx := Enqueue(u.fifo, u.tx, b)));
    if v.tx.tsrRetry == 0 then Xmit(v, ans, 0) else v
  }

  function LowByte(val: bv16): bv8 { (val & 0xFF) as bv8 }

  /** A divisor write at offset 0: an access of one byte changes nothing. */
  function DivisorLow(divisor: bv16, val: bv16, size: nat): bv16 {
    if size == 2 then (divisor & 0xFF00) | val else if size == 4 then val else divisor
  }

  function WriteDivisorLow(u: Uart, val: bv16, size: nat): Uart { u.(divider := DivisorLow(u.divider, val, size)) }

  /** The divisor with its high byte replaced. */
  function DivisorHigh(divisor: bv16, val: bv16): bv16 { (divisor & 0x00FF) | (val << 8) }

  function WriteDivisorHigh(u: Uart, val: bv16): Uart { u.(divider := DivisorHigh(u.divider, val)) }

  function IerOf(b: bv8): Ier { Ier(Has(b, 0x08), Has(b, 0x04), Has(b, 0x02), Has(b, 0x01)) }

  /** Turning modem interrupts on or off turns polling of the lines on or off, if the backend has them. */
  function Polling(u: Uart, lines: Lines): Uart {
    if u.pollMsl < 0 then u
    else if u.ier.msi then UpdateMsl(u.(pollMsl := 1), lines)
    else u.(pollMsl := 0)
  }

  function Enable(u: Uart, e: Ier, lines: Lines): Uart {
    var v := u.(ier := e);
    var w := if e.msi != u.ier.msi then Polling(v, lines) else v;
    if e.thri != u.ier.thri then w.(tx := w.tx.(thrIpending := e.thri && w.tx.thre)) else w
  }

  function WriteIer(u: Uart, e: Ier, lines: Lines): Uart {
    if e != u.ier then UpdateIrq(Enable(u, e, lines)) else Enable(u, e, lines)
  }

  function TriggerLevel(val: bv8): nat {
    if val & 0xC0 == 0x00 then 1 else if val & 0xC0 == 0x40 then 4 else if val & 0xC0 == 0x80 then 8 else 14
  }

  function ResetXmit(tx: Tx): Tx { tx.(thre := true, thrIpending := true, xmit := []) }
  function ResetRecv(rx: Rx): Rx { rx.(dr := false, bi := false, timeoutIpending := false, recv := []) }

  /** Switching the FIFOs on or off empties both. */
  function Flush(u: Uart, val: bv8): Uart {
    var flip := Has(val, FCR_FE) != u.fifo;
    u.(rx := if flip || Has(val, FCR_RFR) then ResetRecv(u.rx) else u.rx,
       tx := if flip || Has(val, FCR_XFR) then ResetXmit(u.tx) else u.tx)
  }

  function SetFcr(u: Uart, val: bv8): Uart {
    var fe := Has(val, FCR_FE);
    u.(fifo := fe, iirFifo := fe, rx := u.rx.(itl := if fe then TriggerLevel(val) else u.rx.itl))
  }

  function WriteFcr(u: Uart, val: bv8): Uart { UpdateIrq(SetFcr(Flush(u, val), val)) }

  function WriteData(u: Uart, val: bv16, size: nat, ans: nat -> Answer): Uart
    requires TxOk(u.fifo, u.tx)
  {
    if u.Dlab() then WriteDivisorLow(u, val, size) else WriteThr(u, LowByte(val), ans)
  }

  function WriteEnable(u: Uart, val: bv16, lines: Lines): Uart {
    if u.Dlab() then WriteDivisorHigh(u, val) else WriteIer(u, IerOf(LowByte(val)), lines)
  }

  /** The registers that only hold what was written to them. */
  function WritePlain(u: Uart, reg: nat, val: bv8): Uart {
    u.(lcr := if reg == 3 then val else u.lcr,
       lastBreak := if reg == 3 then Has(val, 0x40) else u.lastBreak,
       mcr := if reg == 4 then val & 0x1F else u.mcr,
       scr := if reg == 7 then val else u.scr)
  }

  function Write(u: Uart, addr: nat, val: bv16, size: nat, lines: Lines, ans: nat -> Answer): Uart
    requires TxOk(u.fifo, u.tx)
  {
    match addr % 8
    case 0 => WriteData(u, val, size, ans)
    case 1 => WriteEnable(u, val, lines)
    case 2 => WriteFcr(u, LowByte(val))
    case _ => WritePlain(u, addr % 8, LowByte(val))
  }

  // ----- register reads -----

  /** The oldest byte leaves the FIFO, if there is one. */
  function Unqueue(rx: Rx): Rx { rx.(recv := if rx.recv == [] then [] else rx.recv[1..]) }

  /** Data ready and break go with the last byte. */
  function PopFifo(rx: Rx): Rx {
    var r := Unqueue(rx);
    if r.recv == [] then r.(dr := false, bi := false, timeoutIpending := false) else r.(timeoutIpending := false)
  }

  function PopRx(rx: Rx, fifo: bool): Rx {
    if fifo then PopFifo(rx) else rx.(dr := false, bi := false)
  }

  function ReadRbr(u: Uart): Uart { UpdateIrq(u.(rx := PopRx(u.rx, u.fifo))) }

  function ReadIir(u: Uart): Uart {
    if u.cause == Thri then UpdateIrq(u.(tx := u.tx.(thrIpending := false))) else u
  }

  function ReadLsr(u: Uart): Uart {
    if u.rx.bi || u.rx.oe then UpdateIrq(u.(rx := u.rx.(bi := false, oe := false))) else u
  }

  function NoDelta(m: Msr): Msr { m.(ddcd := false, teri := false, ddsr := false, dcts := false) }

  function ReadMsr(u: Uart, lines: Lines): Uart {
    if u.Loop() then u
    else
      var v := if u.pollMsl >= 0 then UpdateMsl(u, lines) else u;
      if AnyDelta(v.msr) then UpdateIrq(v.(msr := NoDelta(v.msr))) else v
  }

  function Read(u: Uart, addr: nat, lines: Lines): Uart {
    match addr % 8
    case 0 => if u.Dlab() then u else ReadRbr(u)
    case 2 => ReadIir(u)
    case 5 => ReadLsr(u)
    case 6 => ReadMsr(u, lines)
    case _ => u
  }

  // ----- reset -----

  const RESET_MSR := Msr(true, false, true, true, false, false, false, false)

  /** The registers that serial_reset sets, before it looks at the modem lines. */
  function Fresh(u: Uart): Uart {
    var tx := Tx([], u.tx.thr, u.tx.tsr, 0, false, true, true, false, u.tx.resolved);
    var rx := Rx([], 0, u.rx.itl, false, false, false, false);
    Uart(tx, rx, u.fifo, Ier(false, false, false, false), RESET_MSR, NoInt, false, false, 0, MCR_OUT2, 0, 0x0C, 0, false)
  }

  /** serial_reset. The FIFO enable and the trigger level survive, although the interrupt register says the FIFOs are off. */
  function Reset(u: Uart, lines: Lines): Uart {
    var v := UpdateMsl(Fresh(u), lines);
    v.(msr := NoDelta(v.msr))
  }
}

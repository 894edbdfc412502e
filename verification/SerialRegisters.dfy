/** The UART's registers as bytes: the mask arithmetic of the device does what Serial says of the named bits. */
module SerialRegisters {
  import opened Serial

  const LSR_TEMT: bv8 := 0x40
  const LSR_THRE: bv8 := 0x20
  const LSR_BI: bv8 := 0x10
  const LSR_OE: bv8 := 0x02
  const LSR_DR: bv8 := 0x01
  const LSR_INT_ANY: bv8 := 0x1E
  const IIR_NO_INT: bv8 := 0x01
  const IIR_ID: bv8 := 0x06
  const IIR_MSI: bv8 := 0x00
  const IIR_THRI: bv8 := 0x02
  const IIR_RDI: bv8 := 0x04
  const IIR_RLSI: bv8 := 0x06
  const IIR_CTI: bv8 := 0x0C
  const IIR_FE: bv8 := 0xC0
  const MSR_DCD: bv8 := 0x80
  const MSR_RI: bv8 := 0x40
  const MSR_DSR: bv8 := 0x20
  const MSR_CTS: bv8 := 0x10
  const MSR_TERI: bv8 := 0x04
  const MSR_ANY_DELTA: bv8 := 0x0F

  /** The bits of the line status that the device ever sets. */
  datatype Lsr = Lsr(temt: bool, thre: bool, bi: bool, oe: bool, dr: bool)

  function Bit(on: bool, mask: bv8): bv8 { if on then mask else 0 }

  function LsrByte(l: Lsr): bv8 {
    Bit(l.temt, LSR_TEMT) | Bit(l.thre, LSR_THRE) | Bit(l.bi, LSR_BI) | Bit(l.oe, LSR_OE) | Bit(l.dr, LSR_DR)
  }

  function LsrOf(b: bv8): Lsr {
    Lsr(Has(b, LSR_TEMT), Has(b, LSR_THRE), Has(b, LSR_BI), Has(b, LSR_OE), Has(b, LSR_DR))
  }

  function MsrByte(m: Msr): bv8 {
    Bit(m.dcd, MSR_DCD) | Bit(m.ri, MSR_RI) | Bit(m.dsr, MSR_DSR) | Bit(m.cts, MSR_CTS)
    | Bit(m.ddcd, 0x08) | Bit(m.teri, MSR_TERI) | Bit(m.ddsr, 0x02) | Bit(m.dcts, 0x01)
  }

  function MsrOf(b: bv8): Msr {
    Msr(Has(b, MSR_DCD), Has(b, MSR_RI), Has(b, MSR_DSR), Has(b, MSR_CTS),
        Has(b, 0x08), Has(b, MSR_TERI), Has(b, 0x02), Has(b, 0x01))
  }

  function IerByte(e: Ier): bv8 { Bit(e.msi, 0x08) | Bit(e.rlsi, 0x04) | Bit(e.thri, 0x02) | Bit(e.rdi, 0x01) }

  function CauseByte(c: Cause): bv8 {
    match c
    case NoInt => IIR_NO_INT
    case Rlsi => IIR_RLSI
    case Cti => IIR_CTI
    case Rdi => IIR_RDI
    case Thri => IIR_THRI
    case Msi => IIR_MSI
  }

  function IirByte(c: Cause, fifo: bool): bv8 { CauseByte(c) | Bit(fifo, IIR_FE) }

  /** The line status of the device. */
  function Line(tx: Tx, rx: Rx): Lsr { Lsr(tx.temt, tx.thre, rx.bi, rx.oe, rx.dr) }

  /** Where each named bit and each code stands in the bytes the guest sees. */
  lemma RegisterLayout()
    ensures LsrByte(Lsr(true, false, false, false, false)) == 0x40 && LsrByte(Lsr(false, true, false, false, false)) == 0x20
    ensures LsrByte(Lsr(false, false, true, false, false)) == 0x10 && LsrByte(Lsr(false, false, false, true, false)) == 0x02
    ensures LsrByte(Lsr(false, false, false, false, true)) == 0x01
    ensures IerByte(Ier(true, false, false, false)) == 0x08 && IerByte(Ier(false, true, false, false)) == 0x04
    ensures IerByte(Ier(false, false, true, false)) == 0x02 && IerByte(Ier(false, false, false, true)) == 0x01
    ensures IirByte(NoInt, false) == 0x01 && IirByte(Rlsi, false) == 0x06 && IirByte(Cti, false) == 0x0C
    ensures IirByte(Rdi, false) == 0x04 && IirByte(Thri, false) == 0x02 && IirByte(Msi, false) == 0x00
    ensures IirByte(NoInt, true) == 0xC1
  {
  }

  /** The modem status byte: levels in the high half, what changed in the low half. */
  lemma ModemLayout()
    ensures MsrByte(Msr(true, false, false, false, false, false, false, false)) == 0x80
    ensures MsrByte(Msr(false, true, false, false, false, false, false, false)) == 0x40
    ensures MsrByte(Msr(false, false, true, false, false, false, false, false)) == 0x20
    ensures MsrByte(Msr(false, false, false, true, false, false, false, false)) == 0x10
    ensures MsrByte(Msr(false, false, false, false, true, false, false, false)) == 0x08
    ensures MsrByte(Msr(false, false, false, false, false, true, false, false)) == 0x04
    ensures MsrByte(Msr(false, false, false, false, false, false, true, false)) == 0x02
    ensures MsrByte(Msr(false, false, false, false, false, false, false, true)) == 0x01
  {
  }

  /** A test of one bit of the line status byte sees that bit. */
  lemma LsrRoundTrip(l: Lsr)
    ensures LsrOf(LsrByte(l)) == l
  {
  }

  lemma MsrRoundTrip(b: bv8)
    ensures MsrByte(MsrOf(b)) == b
  {
  }

  /** Or sets the named bits of the line status byte, and its masks test them together. */
  lemma LsrMasks(l: Lsr)
    ensures (LsrByte(l) & LSR_INT_ANY != 0) == (l.bi || l.oe) == (LsrByte(l) & (LSR_BI | LSR_OE) != 0)
    ensures LsrByte(l) | LSR_THRE == LsrByte(l.(thre := true))
    ensures LsrByte(l) | LSR_TEMT == LsrByte(l.(temt := true))
    ensures LsrByte(l) | LSR_OE == LsrByte(l.(oe := true))
    ensures LsrByte(l) | LSR_DR == LsrByte(l.(dr := true))
    ensures LsrByte(l) | (LSR_BI | LSR_DR) == LsrByte(l.(bi := true, dr := true))
  {
  }

  /** And with a complement clears them. */
  lemma LsrClears(l: Lsr)
    ensures (LsrByte(l) & !LSR_THRE) & !LSR_TEMT == LsrByte(l.(thre := false, temt := false))
    ensures LsrByte(l) & !(LSR_DR | LSR_BI) == LsrByte(l.(dr := false, bi := false))
    ensures LsrByte(l) & !(LSR_BI | LSR_OE) == LsrByte(l.(bi := false, oe := false))
  {
  }

  /** Recomputing the identification keeps the bits that say whether the FIFOs are on. */
  lemma IirUpdate(was: Cause, now: Cause, fifo: bool)
    ensures CauseByte(now) | (IirByte(was, fifo) & 0xF0) == IirByte(now, fifo)
    ensures IirByte(now, fifo) | IIR_FE == IirByte(now, true) && IirByte(now, fifo) & !IIR_FE == IirByte(now, false)
  {
  }

  /** The test by which a read of the identification withdraws the transmit interrupt picks that cause and no other. */
  lemma IirTest(c: Cause, fifo: bool)
    ensures IirByte(c, fifo) & IIR_ID == IIR_THRI <==> c == Thri
  {
  }

  function PutBit(b: bv8, mask: bv8, on: bool): bv8 { if on then b | mask else b & !mask }

  function PutLevels(msr: bv8, cts: bool, dsr: bool, car: bool, ri: bool): bv8 {
    PutBit(PutBit(PutBit(PutBit(msr, MSR_CTS, cts), MSR_DSR, dsr), MSR_DCD, car), MSR_RI, ri)
  }

  /** serial_update_msl on the byte: set the levels, then the deltas by shifting, then drop the rising ring. */
  function MslByte(msr: bv8, cts: bool, dsr: bool, car: bool, ri: bool): bv8 {
    var now := PutLevels(msr, cts, dsr, car, ri);
    if now == msr then msr else WithDeltas(now, msr)
  }

  function WithDeltas(now: bv8, msr: bv8): bv8 {
    var delta := now | ((now >> 4) ^ (msr >> 4));
    if Has(delta, MSR_TERI) && !Has(msr, MSR_RI) then delta & !MSR_TERI else delta
  }

  /** Setting the levels leaves the deltas. */
  lemma Levels(msr: bv8, cts: bool, dsr: bool, car: bool, ri: bool)
    ensures MsrOf(PutLevels(msr, cts, dsr, car, ri)) == MsrOf(msr).(cts := cts, dsr := dsr, dcd := car, ri := ri)
    ensures PutLevels(msr, cts, dsr, car, ri) & 0x0F == msr & 0x0F
  {
  }

  lemma LevelsChanged(msr: bv8, cts: bool, dsr: bool, car: bool, ri: bool)
    ensures PutLevels(msr, cts, dsr, car, ri) == msr <==>
            MsrOf(msr).(cts := cts, dsr := dsr, dcd := car, ri := ri) == MsrOf(msr)
  {
    Levels(msr, cts, dsr, car, ri);
    MsrRoundTrip(msr);
    MsrRoundTrip(PutLevels(msr, cts, dsr, car, ri));
  }

  lemma DeltasOf(now: bv8, msr: bv8)
    requires now & 0x0F == msr & 0x0F
    ensures var (m, n) := (MsrOf(msr), MsrOf(now));
      MsrOf(WithDeltas(now, msr)) ==
      Msr(n.dcd, n.ri, n.dsr, n.cts,
          m.ddcd || n.dcd != m.dcd, (m.teri || n.ri != m.ri) && m.ri, m.ddsr || n.dsr != m.dsr, m.dcts || n.cts != m.cts)
  {
  }

  /** The shift and exclusive-or compute the deltas that MsrAfter names. */
  lemma MslByteIsMsrAfter(msr: bv8, cts: bool, dsr: bool, car: bool, ri: bool)
    ensures MsrOf(MslByte(msr, cts, dsr, car, ri)) == MsrAfter(MsrOf(msr), cts, dsr, car, ri)
  {
    Levels(msr, cts, dsr, car, ri);
    LevelsChanged(msr, cts, dsr, car, ri);
    DeltasOf(PutLevels(msr, cts, dsr, car, ri), msr);
  }

  /** The deltas are tested and cleared together. */
  lemma MsrMasks(msr: bv8)
    ensures (msr & MSR_ANY_DELTA != 0) == AnyDelta(MsrOf(msr))
    ensures MsrOf(msr & 0xF0) == NoDelta(MsrOf(msr)) && MsrOf(msr & !MSR_ANY_DELTA) == NoDelta(MsrOf(msr))
  {
  }

  /** The bits that `(ier ^ val) & 0x0f` finds changed. */
  lemma IerChanged(e: Ier, val: bv8)
    ensures var changed := (IerByte(e) ^ val) & 0x0F;
      && (changed & 0x08 != 0) == (e.msi != IerOf(val).msi) && (changed & 0x02 != 0) == (e.thri != IerOf(val).thri)
      && (changed != 0) == (e != IerOf(val))
    ensures IerByte(IerOf(val)) == val & 0x0F
  {
  }

  lemma IerRoundTrip(e: Ier)
    ensures IerOf(IerByte(e)) == e
  {
  }

  lemma CauseBytes(c: Cause)
    ensures CauseByte(c) == IIR_NO_INT <==> c == NoInt
  {
  }

  /** Of a FIFO control byte the enable bit and the trigger level stick; a changed enable bit asks for both flushes. */
  lemma FcrMasks(fcr: bv8, val: bv8)
    ensures ((val ^ fcr) & FCR_FE != 0) == (Has(val, FCR_FE) != Has(fcr, FCR_FE))
    ensures Has(val | (FCR_XFR | FCR_RFR), FCR_RFR) && Has(val | (FCR_XFR | FCR_RFR), FCR_XFR)
    ensures Has(val | (FCR_XFR | FCR_RFR), FCR_FE) == Has(val, FCR_FE) == Has(val & 0xC9, FCR_FE)
    ensures (val | (FCR_XFR | FCR_RFR)) & 0xC0 == val & 0xC0 == (val & 0xC9) & 0xC0
  {
  }

  lemma ZeroBytes()
    ensures LsrByte(Lsr(false, false, false, false, false)) == 0 && IerByte(Ier(false, false, false, false)) == 0
    ensures IirByte(Msi, false) == 0 && !Has(0, FCR_FE)
    ensures MsrOf(0) == Msr(false, false, false, false, false, false, false, false)
  {
  }

  lemma ResetBytes()
    ensures LsrByte(Lsr(true, true, false, false, false)) == LSR_TEMT | LSR_THRE
    ensures MsrOf(MSR_DCD | MSR_DSR | MSR_CTS) == RESET_MSR
    ensures IerOf(0) == Ier(false, false, false, false) && IirByte(NoInt, false) == IIR_NO_INT
  {
  }

  // ----- what the guest reads -----

  /** In loopback the modem control outputs are wired to the modem status inputs. */
  function LoopMsr(mcr: bv8): bv8 { ((mcr & 0x0C) << 4) | ((mcr & 0x02) << 3) | ((mcr & 0x01) << 5) }

  /** OUT2 appears as carrier detect, OUT1 as ring, DTR as data set ready, RTS as clear to send, and nothing as changed. */
  lemma LoopbackWiring(mcr: bv8)
    ensures MsrOf(LoopMsr(mcr)) ==
            Msr(Has(mcr, 0x08), Has(mcr, 0x04), Has(mcr, 0x01), Has(mcr, 0x02), false, false, false, false)
  {
  }

  /** The received byte that a read of the buffer returns. */
  function Received(u: Uart): bv8 {
    if !u.fifo then u.rx.rbr else if u.rx.recv == [] then 0 else u.rx.recv[0]
  }

  /** A read takes the oldest byte of the FIFO, zero when there is none, and without FIFOs copies the single byte. */
  lemma OldestIsRead(u: Uart)
    ensures var rx := ReadRbr(u).rx;
      && (u.fifo && u.rx.recv != [] ==> [Received(u)] + rx.recv == u.rx.recv)
      && (u.fifo && u.rx.recv == [] ==> Received(u) == 0 && rx.recv == [])
      && (!u.fifo ==> Received(u) == u.rx.rbr && rx.recv == u.rx.recv)
      && rx.rbr == u.rx.rbr
  {
  }

  /** Modem status as read: the lines are sampled first, if the backend has them. */
  function MsrRead(u: Uart, lines: Lines): bv8 {
    if u.Loop() then LoopMsr(u.mcr) else MsrByte((if u.pollMsl >= 0 then UpdateMsl(u, lines) else u).msr)
  }

  function DivisorByte(divisor: bv16, high: bool): bv8 {
    (if high then (divisor >> 8) & 0xFF else divisor & 0xFF) as bv8
  }

  /** The byte that a read of a register returns. */
  function ReadValue(u: Uart, addr: nat, lines: Lines): bv8 {
    match addr % 8
    case 0 => if u.Dlab() then DivisorByte(u.divider, false) else Received(u)
    case 1 => if u.Dlab() then DivisorByte(u.divider, true) else IerByte(u.ier)
    case 2 => IirByte(u.cause, u.iirFifo)
    case 3 => u.lcr
    case 4 => u.mcr
    case 5 => LsrByte(Line(u.tx, u.rx))
    case 6 => MsrRead(u, lines)
    case _ => u.scr
  }
}

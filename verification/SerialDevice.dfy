/**
 * The 16550A UART as an object that holds its registers as bytes; the ghost fields are what they stand for. The mask
 * arithmetic is proved, bit by bit, through SerialRegisters, and each method against its function in Serial.
 */
module SerialDevice {
  import opened Bytes
  import opened SerialRegisters
  import S = Serial
  import R = SerialRun

  class SerialState {
    var xmit: seq<bv8>
    var thr: bv8
    var tsr: bv8
    var tsrRetry: nat
    var watch: bool
    var thrIpending: bool
    var recv: seq<bv8>
    var rbr: bv8
    var itl: nat
    var timeoutIpending: bool
    var lsr: bv8
    var ier: bv8
    var iir: bv8
    var msr: bv8
    var fcr: bv8
    var lcr: bv8
    var mcr: bv8
    var scr: bv8
    var divider: bv16
    var pollMsl: int
    var lastBreak: bool
    var irq: bool
    ghost var tx: S.Tx
    ghost var rx: S.Rx
    ghost var enabled: S.Ier
    ghost var modem: S.Msr
    ghost var cause: S.Cause
    ghost var iirFifo: bool
    ghost var fifo: bool

    ghost function View(): S.Uart
      reads this
    {
      S.Uart(tx, rx, fifo, enabled, modem, cause, irq, iirFifo, lcr, mcr, scr, divider, pollMsl, lastBreak)
    }

    ghost predicate TxTied()
      reads `xmit, `thr, `tsr, `tsrRetry, `watch, `thrIpending, `tx
    {
      && xmit == tx.xmit && thr == tx.thr && tsr == tx.tsr && tsrRetry == tx.tsrRetry && watch == tx.watch
      && thrIpending == tx.thrIpending
    }

    ghost predicate RxTied()
      reads `recv, `rbr, `itl, `timeoutIpending, `rx
    {
      recv == rx.recv && rbr == rx.rbr && itl == rx.itl && timeoutIpending == rx.timeoutIpending
    }

    ghost predicate LsrTied()
      reads `lsr, `tx, `rx
    {
      lsr == LsrByte(Line(tx, rx))
    }

    ghost predicate IerTied()
      reads `ier, `enabled
    {
      ier == IerByte(enabled)
    }

    ghost predicate IirTied()
      reads `iir, `cause, `iirFifo
    {
      iir == IirByte(cause, iirFifo)
    }

    ghost predicate MsrTied()
      reads `msr, `modem
    {
      MsrOf(msr) == modem
    }

    ghost predicate FcrTied()
      reads `fcr, `fifo
    {
      S.Has(fcr, S.FCR_FE) == fifo
    }

    ghost predicate Valid()
      reads this
    {
      TxTied() && RxTied() && LsrTied() && IerTied() && IirTied() && MsrTied() && FcrTied()
    }

    /** The zeroed device that is reset when it is realized. */
    constructor ()
      ensures Valid() && !View().fifo && View().tx.xmit == View().rx.recv == [] && View().rx.itl == 0
    {
      ZeroBytes();
      xmit, thr, tsr, tsrRetry, watch, thrIpending := [], 0, 0, 0, false, false;
      recv, rbr, itl, timeoutIpending := [], 0, 0, false;
      lsr, ier, iir, msr, fcr, lcr, mcr, scr := 0, 0, 0, 0, 0, 0, 0, 0;
      divider, pollMsl, lastBreak, irq := 0, 0, false, false;
      tx := S.Tx([], 0, 0, 0, false, false, false, false, []);
      rx := S.Rx([], 0, 0, false, false, false, false);
      enabled := S.Ier(false, false, false, false);
      modem := S.Msr(false, false, false, false, false, false, false, false);
      cause, iirFifo, fifo := S.Msi, false, false;
    }

    // ----- what the fields and the register bytes say of the state -----

    lemma TxFields()
      requires Valid()
      ensures tsr == View().tx.tsr && tsrRetry == View().tx.tsrRetry && watch == View().tx.watch
      ensures thr == View().tx.thr && xmit == View().tx.xmit && thrIpending == View().tx.thrIpending
    {
    }

    lemma RxFields()
      requires Valid()
      ensures recv == View().rx.recv && rbr == View().rx.rbr
    {
    }

    lemma FifoBit()
      requires Valid()
      ensures S.Has(fcr, S.FCR_FE) == View().fifo
    {
    }

    lemma PlainFields()
      requires Valid()
      ensures lcr == View().lcr && mcr == View().mcr && scr == View().scr && divider == View().divider
      ensures pollMsl == View().pollMsl
    {
    }

    lemma LsrBits()
      requires Valid()
      ensures S.Has(lsr, LSR_TEMT) == View().tx.temt && S.Has(lsr, LSR_THRE) == View().tx.thre
      ensures S.Has(lsr, LSR_DR) == View().rx.dr
    {
      LsrRoundTrip(Line(tx, rx));
    }

    lemma IerBits()
      requires Valid()
      ensures S.Has(ier, 0x08) == View().ier.msi && S.Has(ier, 0x02) == View().ier.thri
    {
      IerRoundTrip(enabled);
    }

    // ----- the line status byte -----

    method SetThre()
      requires Valid()
      modifies this
      ensures Valid() && View() == old(View()).(tx := old(View()).tx.(thre := true))
    {
      hide RxTied, IerTied, IirTied, MsrTied, FcrTied;
      LsrMasks(Line(tx, rx));
      lsr := lsr | LSR_THRE;
      tx := tx.(thre := true);
    }

    method SetTemt()
      requires Valid()
      modifies this
      ensures Valid() && View() == old(View()).(tx := old(View()).tx.(temt := true))
    {
      hide RxTied, IerTied, IirTied, MsrTied, FcrTied;
      LsrMasks(Line(tx, rx));
      lsr := lsr | LSR_TEMT;
      tx := tx.(temt := true);
    }

    method ClearThreTemt()
      requires Valid()
      modifies this
      ensures Valid() && View() == old(View()).(tx := old(View()).tx.(thre := false, temt := false))
    {
      hide RxTied, IerTied, IirTied, MsrTied, FcrTied;
      LsrClears(Line(tx, rx));
      lsr := lsr & !LSR_THRE;
      lsr := lsr & !LSR_TEMT;
      tx := tx.(thre := false, temt := false);
    }

    method SetOe()
      requires Valid()
      modifies this
      ensures Valid() && View() == old(View()).(rx := old(View()).rx.(oe := true))
    {
      hide TxTied, IerTied, IirTied, MsrTied, FcrTied;
      LsrMasks(Line(tx, rx));
      lsr := lsr | LSR_OE;
      rx := rx.(oe := true);
    }

    method SetDr()
      requires Valid()
      modifies this
      ensures Valid() && View() == old(View()).(rx := old(View()).rx.(dr := true))
    {
      hide TxTied, IerTied, IirTied, MsrTied, FcrTied;
      LsrMasks(Line(tx, rx));
      lsr := lsr | LSR_DR;
      rx := rx.(dr := true);
    }

    method SetBreak()
      requires Valid()
      modifies this
      ensures Valid() && View() == old(View()).(rx := old(View()).rx.(bi := true, dr := true))
    {
      hide TxTied, IerTied, IirTied, MsrTied, FcrTied;
      LsrMasks(Line(tx, rx));
      lsr := lsr | (LSR_BI | LSR_DR);
      rx := rx.(bi := true, dr := true);
    }

    method ClearReady()
      requires Valid()
      modifies this
      ensures Valid() && View() == old(View()).(rx := old(View()).rx.(dr := false, bi := false))
    {
      hide TxTied, IerTied, IirTied, MsrTied, FcrTied;
      LsrClears(Line(tx, rx));
      lsr := lsr & !(LSR_DR | LSR_BI);
      rx := rx.(dr := false, bi := false);
    }

    method ClearErrors()
      requires Valid()
      modifies this
      ensures Valid() && View() == old(View()).(rx := old(View()).rx.(bi := false, oe := false))
    {
      hide TxTied, IerTied, IirTied, MsrTied, FcrTied;
      LsrClears(Line(tx, rx));
      lsr := lsr & !(LSR_BI | LSR_OE);
      rx := rx.(bi := false, oe := false);
    }

    // ----- fields of the transmitter and the receiver -----

    method SetRbr(c: bv8)
      requires Valid()
      modifies this
      ensures Valid() && View() == old(View()).(rx := old(View()).rx.(rbr := c))
    {
      hide TxTied, IerTied, IirTied, MsrTied, FcrTied;
      rbr := c;
      rx := rx.(rbr := c);
    }

    method SetTimeout(on: bool)
      requires Valid()
      modifies this
      ensures Valid() && View() == old(View()).(rx := old(View()).rx.(timeoutIpending := on))
    {
      hide TxTied, IerTied, IirTied, MsrTied, FcrTied;
      timeoutIpending := on;
      rx := rx.(timeoutIpending := on);
    }

    method SetRecv(bytes: seq<bv8>)
      requires Valid()
      modifies this
      ensures Valid() && View() == old(View()).(rx := old(View()).rx.(recv := bytes))
    {
      hide TxTied, IerTied, IirTied, MsrTied, FcrTied;
      recv := bytes;
      rx := rx.(recv := bytes);
    }

    method SetItl(n: nat)
      requires Valid()
      modifies this
      ensures Valid() && View() == old(View()).(rx := old(View()).rx.(itl := n))
    {
      hide TxTied, IerTied, IirTied, MsrTied, FcrTied;
      itl := n;
      rx := rx.(itl := n);
    }

    method SetXmit(bytes: seq<bv8>)
      requires Valid()
      modifies this
      ensures Valid() && View() == old(View()).(tx := old(View()).tx.(xmit := bytes))
    {
      hide RxTied, IerTied, IirTied, MsrTied, FcrTied;
      xmit := bytes;
      tx := tx.(xmit := bytes);
    }

    method SetThr(b: bv8)
      requires Valid()
      modifies this
      ensures Valid() && View() == old(View()).(tx := old(View()).tx.(thr := b))
    {
      hide RxTied, IerTied, IirTied, MsrTied, FcrTied;
      thr := b;
      tx := tx.(thr := b);
    }

    method SetTsr(b: bv8)
      requires Valid()
      modifies this
      ensures Valid() && View() == old(View()).(tx := old(View()).tx.(tsr := b))
    {
      hide RxTied, IerTied, IirTied, MsrTied, FcrTied;
      tsr := b;
      tx := tx.(tsr := b);
    }

    method SetThrIpending(on: bool)
      requires Valid()
      modifies this
      ensures Valid() && View() == old(View()).(tx := old(View()).tx.(thrIpending := on))
    {
      hide RxTied, IerTied, IirTied, MsrTied, FcrTied;
      thrIpending := on;
      tx := tx.(thrIpending := on);
    }

    method SetWatch(on: bool)
      requires Valid()
      modifies this
      ensures Valid() && View() == old(View()).(tx := old(View()).tx.(watch := on))
    {
      hide RxTied, IerTied, IirTied, MsrTied, FcrTied;
      watch := on;
      tx := tx.(watch := on);
    }

    method SetTsrRetry(n: nat)
      requires Valid()
      modifies this
      ensures Valid() && View() == old(View()).(tx := old(View()).tx.(tsrRetry := n))
    {
      hide RxTied, IerTied, IirTied, MsrTied, FcrTied;
      tsrRetry := n;
      tx := tx.(tsrRetry := n);
    }

    /** The byte in the shift register has been dealt with. */
    method Settle()
      requires Valid()
      modifies this
      ensures Valid()
      ensures var u := old(View());
              View() == u.(tx := u.tx.(tsrRetry := 0, resolved := u.tx.resolved + [u.tx.tsr]))
    {
      hide RxTied, IerTied, IirTied, MsrTied, FcrTied;
      tsrRetry := 0;
      tx := tx.(tsrRetry := 0, resolved := tx.resolved + [tsr]);
    }

    // ----- the other register bytes -----

    /** The enable bits; `changed` are those that differ. */
    method SetIer(val: bv8) returns (changed: bv8)
      requires Valid()
      modifies this
      ensures Valid() && View() == old(View()).(ier := S.IerOf(val))
      ensures (changed != 0) == (S.IerOf(val) != old(View()).ier)
      ensures S.Has(changed, 0x08) == (S.IerOf(val).msi != old(View()).ier.msi)
      ensures S.Has(changed, 0x02) == (S.IerOf(val).thri != old(View()).ier.thri)
    {
      hide TxTied, RxTied, LsrTied, IirTied, MsrTied, FcrTied;
      IerChanged(enabled, val);
      changed := (ier ^ val) & 0x0F;
      ier := val & 0x0F;
      enabled := S.IerOf(val);
    }

    /** A new identification leaves the bits that say whether the FIFOs are on. */
    method SetIir(tmp: bv8, ghost c: S.Cause)
      requires Valid() && tmp == CauseByte(c)
      modifies this
      ensures Valid() && View() == old(View()).(cause := c, irq := c != S.NoInt)
    {
      hide TxTied, RxTied, LsrTied, IerTied, MsrTied, FcrTied;
      IirUpdate(cause, c, iirFifo);
      CauseBytes(c);
      iir := tmp | (iir & 0xF0);
      irq := tmp != IIR_NO_INT;
      cause := c;
    }

    method SetIirFifo(on: bool)
      requires Valid()
      modifies this
      ensures Valid() && View() == old(View()).(iirFifo := on)
    {
      hide TxTied, RxTied, LsrTied, IerTied, MsrTied, FcrTied;
      IirUpdate(cause, cause, iirFifo);
      if on {
        iir := iir | IIR_FE;
      } else {
        iir := iir & !IIR_FE;
      }
      iirFifo := on;
    }

    method SetFifo(val: bv8)
      requires Valid()
      modifies this
      ensures Valid() && View() == old(View()).(fifo := S.Has(val, S.FCR_FE))
    {
      hide TxTied, RxTied, LsrTied, IerTied, MsrTied, IirTied;
      fcr := val;
      fifo := S.Has(val, S.FCR_FE);
    }

    /** The levels of the modem lines. */
    static method SetLevels(omsr: bv8, lines: S.Lines) returns (msr: bv8)
      requires lines.Lines?
      ensures msr == PutLevels(omsr, lines.cts, lines.dsr, lines.car, lines.ri)
    {
      msr := if lines.cts then omsr | MSR_CTS else omsr & !MSR_CTS;
      msr := if lines.dsr then msr | MSR_DSR else msr & !MSR_DSR;
      msr := if lines.car then msr | MSR_DCD else msr & !MSR_DCD;
      msr := if lines.ri then msr | MSR_RI else msr & !MSR_RI;
    }

    /** The deltas of the lines that differ; the ring indicator reports only its fall. */
    static method SetDeltas(now: bv8, omsr: bv8) returns (msr: bv8)
      ensures msr == WithDeltas(now, omsr)
    {
      msr := now | ((now >> 4) ^ (omsr >> 4));
      if S.Has(msr, MSR_TERI) && !S.Has(omsr, MSR_RI) {
        msr := msr & !MSR_TERI;
      }
    }

    /** The modem status byte after the lines were read. */
    static method SampleLines(omsr: bv8, lines: S.Lines) returns (msr: bv8, changed: bool)
      requires lines.Lines?
      ensures msr == MslByte(omsr, lines.cts, lines.dsr, lines.car, lines.ri)
      ensures changed == (PutLevels(omsr, lines.cts, lines.dsr, lines.car, lines.ri) != omsr)
    {
      hide PutLevels, WithDeltas;
      msr := SetLevels(omsr, lines);
      changed := msr != omsr;
      if changed {
        msr := SetDeltas(msr, omsr);
      }
    }

    method SetMsr(lines: S.Lines) returns (changed: bool)
      requires Valid() && lines.Lines?
      modifies this
      ensures Valid()
      ensures View() == old(View()).(msr := S.MsrAfter(old(View()).msr, lines.cts, lines.dsr, lines.car, lines.ri))
      ensures changed <==>
              old(View()).msr.(cts := lines.cts, dsr := lines.dsr, dcd := lines.car, ri := lines.ri) != old(View()).msr
    {
      hide TxTied, RxTied, LsrTied, IerTied, IirTied, FcrTied, MsrOf, PutLevels, MslByte, S.MsrAfter;
      LevelsChanged(msr, lines.cts, lines.dsr, lines.car, lines.ri);
      MslByteIsMsrAfter(msr, lines.cts, lines.dsr, lines.car, lines.ri);
      msr, changed := SampleLines(msr, lines);
      modem := S.MsrAfter(modem, lines.cts, lines.dsr, lines.car, lines.ri);
    }

    /** The modem status byte; its deltas, if there are any, are cleared. */
    method FetchMsr() returns (ret: bv8, any: bool)
      requires Valid()
      modifies this
      ensures Valid() && ret == MsrByte(old(View()).msr) && any == S.AnyDelta(old(View()).msr)
      ensures View() == if any then old(View()).(msr := S.NoDelta(old(View()).msr)) else old(View())
    {
      hide TxTied, RxTied, LsrTied, IerTied, IirTied, FcrTied;
      MsrRoundTrip(msr);
      MsrMasks(msr);
      ret := msr;
      any := S.Has(msr, MSR_ANY_DELTA);
      if any {
        msr := msr & 0xF0;
        modem := S.NoDelta(modem);
      }
    }

    method DropDeltas()
      requires Valid()
      modifies this
      ensures Valid() && View() == old(View()).(msr := S.NoDelta(old(View()).msr))
    {
      hide TxTied, RxTied, LsrTied, IerTied, IirTied, FcrTied;
      MsrMasks(msr);
      msr := msr & !MSR_ANY_DELTA;
      modem := S.NoDelta(modem);
    }

    /** The identification byte, and whether it reports the transmit interrupt. */
    method FetchIir() returns (ret: bv8, thri: bool)
      requires Valid()
      ensures ret == IirByte(View().cause, View().iirFifo) && thri == (View().cause == S.Thri)
    {
      IirTest(cause, iirFifo);
      ret := iir;
      thri := ret & IIR_ID == IIR_THRI;
    }

    /** The line status byte, and whether it reports a break or an overrun. */
    method FetchLsr() returns (ret: bv8, errors: bool)
      requires Valid()
      ensures ret == LsrByte(Line(View().tx, View().rx)) && errors == (View().rx.bi || View().rx.oe)
    {
      LsrMasks(Line(tx, rx));
      ret := lsr;
      errors := S.Has(lsr, LSR_BI | LSR_OE);
    }

    // ----- interrupts -----

    /** The identification that the registers call for. */
    static method Identify(lsr: bv8, ier: bv8, msr: bv8, fcr: bv8, timeout: bool, pending: bool, num: nat, itl: nat,
                           ghost u: S.Uart) returns (tmp: bv8)
      requires lsr == LsrByte(Line(u.tx, u.rx)) && ier == IerByte(u.ier) && MsrOf(msr) == u.msr
      requires S.Has(fcr, S.FCR_FE) == u.fifo && timeout == u.rx.timeoutIpending && pending == u.tx.thrIpending
      requires num == |u.rx.recv| && itl == u.rx.itl
      ensures tmp == CauseByte(S.Priority(u))
    {
      LsrMasks(Line(u.tx, u.rx));
      LsrRoundTrip(Line(u.tx, u.rx));
      IerRoundTrip(u.ier);
      MsrMasks(msr);
      tmp := IIR_NO_INT;
      if S.Has(ier, 0x04) && S.Has(lsr, LSR_INT_ANY) {
        tmp := IIR_RLSI;
      } else if S.Has(ier, 0x01) && timeout {
        tmp := IIR_CTI;
      } else if S.Has(ier, 0x01) && S.Has(lsr, LSR_DR) && (!S.Has(fcr, S.FCR_FE) || num >= itl) {
        tmp := IIR_RDI;
      } else if S.Has(ier, 0x02) && pending {
        tmp := IIR_THRI;
      } else if S.Has(ier, 0x08) && S.Has(msr, MSR_ANY_DELTA) {
        tmp := IIR_MSI;
      }
    }

    method Pending() returns (tmp: bv8)
      requires Valid()
      ensures tmp == CauseByte(S.Priority(View()))
    {
      tmp := Identify(lsr, ier, msr, fcr, timeoutIpending, thrIpending, |recv|, itl, View());
    }

    /** serial_update_irq. */
    method UpdateIrq()
      requires Valid()
      modifies this
      ensures Valid() && View() == S.UpdateIrq(old(View()))
    {
      hide Valid, View, S.Priority, CauseByte;
      var tmp := Pending();
      SetIir(tmp, S.Priority(View()));
    }

    /** serial_update_msl. */
    method UpdateMsl(lines: S.Lines)
      requires Valid()
      modifies this
      ensures Valid() && View() == S.UpdateMsl(old(View()), lines)
    {
      hide Valid, View, S.UpdateIrq;
      if lines.Unsupported? {
        SetPollMsl(-1);
        return;
      }
      var changed := SetMsr(lines);
      if changed {
        UpdateIrq();
      }
    }

    method SetPollMsl(n: int)
      requires Valid()
      modifies this
      ensures Valid() && View() == old(View()).(pollMsl := n)
    {
      hide TxTied, RxTied, LsrTied, IerTied, IirTied, MsrTied, FcrTied;
      pollMsl := n;
    }

    // ----- receiving -----

    method RecvFifoPut(c: bv8)
      requires Valid()
      modifies this
      ensures Valid() && View() == old(View()).(rx := S.RecvFifoPut(old(View()).rx, [c]))
    {
      hide Valid, View;
      RxFields();
      if |recv| < S.UART_FIFO_LENGTH {
        SetRecv(recv + [c]);
      } else {
        SetOe();
      }
    }

    /** The loop of serial_receive1 in FIFO mode. */
    method RecvFifoPutAll(buf: seq<bv8>)
      requires Valid()
      modifies this
      ensures Valid() && View() == old(View()).(rx := S.RecvFifoPut(old(View()).rx, buf))
    {
      hide Valid, View;
      var i := 0;
      while i < |buf|
        invariant 0 <= i <= |buf| && Valid()
        invariant View() == old(View()).(rx := S.RecvFifoPut(old(View()).rx, buf[..i]))
      {
        RecvFifoPut(buf[i]);
        PutOneMore(old(View()).rx, buf, i);
        i := i + 1;
      }
      assert buf[..|buf|] == buf;
    }

    /** The buffer register without FIFOs: a byte nobody read is overwritten. */
    method PutBuffer(c: bv8)
      requires Valid()
      modifies this
      ensures Valid() && View() == old(View()).(rx := S.ReceiveRx(old(View()).rx, false, [c]))
    {
      hide Valid, View;
      LsrBits();
      if S.Has(lsr, LSR_DR) {
        SetOe();
      }
      SetRbr(c);
      SetDr();
    }

    method Receive1(buf: seq<bv8>)
      requires Valid() && buf != []
      modifies this
      ensures Valid() && View() == S.Receive1(old(View()), buf)
    {
      hide Valid, View, S.UpdateIrq, S.RecvFifoPut;
      FifoBit();
      if S.Has(fcr, S.FCR_FE) {
        RecvFifoPutAll(buf);
        SetDr();
      } else {
        PutBuffer(buf[0]);
      }
      assert View() == old(View()).(rx := S.ReceiveRx(old(View()).rx, old(View()).fifo, buf));
      UpdateIrq();
    }

    /** How many bytes the backend may deliver. */
    method CanReceive() returns (n: int)
      requires Valid()
      ensures n == S.CanReceive(View())
    {
      if S.Has(fcr, S.FCR_FE) {
        if |recv| < S.UART_FIFO_LENGTH {
          n := if |recv| <= itl then itl - |recv| else 1;
        } else {
          n := 0;
        }
      } else {
        DrBit();
        n := if S.Has(lsr, LSR_DR) then 0 else 1;
      }
    }

    lemma DrBit()
      requires Valid()
      ensures S.Has(lsr, LSR_DR) == View().rx.dr
    {
      LsrRoundTrip(Line(tx, rx));
    }

    method ReceiveBreak()
      requires Valid()
      modifies this
      ensures Valid() && View() == S.ReceiveBreak(old(View()))
    {
      hide Valid, View, S.UpdateIrq, S.RecvFifoPut;
      SetRbr(0);
      RecvFifoPut(0);
      SetBreak();
      UpdateIrq();
    }

    method FifoTimeout()
      requires Valid()
      modifies this
      ensures Valid() && View() == S.FifoTimeout(old(View()))
    {
      hide Valid, View, S.UpdateIrq;
      RxFields();
      if |recv| != 0 {
        SetTimeout(true);
        UpdateIrq();
      }
    }

    // ----- transmitting -----

    /** The next byte moves into the shift register; the asserts are those of the source. */
    method TakeByte()
      requires Valid() && S.CanXmit(View().fifo, View().tx) && View().tx.tsrRetry == 0
      modifies this
      ensures Valid()
      ensures var u := old(View());
              View() == u.(tx := S.Load(u.fifo, u.tx).(thrIpending := u.tx.thrIpending))
    {
      hide Valid, View;
      TxFields();
      FifoBit();
      LsrBits();
      assert !S.Has(lsr, LSR_THRE);
      if S.Has(fcr, S.FCR_FE) {
        assert xmit != [];
        var rest := xmit[1..];
        SetTsr(xmit[0]);
        SetXmit(rest);
        if |rest| == 0 {
          SetThre();
        }
      } else {
        SetTsr(thr);
        SetThre();
      }
    }

    /** An empty holding register raises its interrupt, once. */
    method LoadTsr()
      requires Valid() && S.CanXmit(View().fifo, View().tx) && View().tx.tsrRetry == 0
      modifies this
      ensures Valid() && View() == S.LoadStep(old(View()))
    {
      hide Valid, View, S.UpdateIrq;
      TakeByte();
      TxFields();
      LsrBits();
      if S.Has(lsr, LSR_THRE) && !thrIpending {
        SetThrIpending(true);
        UpdateIrq();
      }
    }

    /** The backend is offered the byte; if it cannot take it yet and a watch can be set, the byte waits. */
    method Offer(a: S.Answer) returns (waits: bool)
      requires Valid() && !View().tx.watch
      modifies this
      ensures Valid() && waits == (a == S.Blocked(true) && old(View()).tx.tsrRetry < S.MAX_XMIT_RETRY)
      ensures var u := old(View());
              View() == if waits then u.(tx := u.tx.(watch := true, tsrRetry := u.tx.tsrRetry + 1)) else u
    {
      hide Valid, View;
      TxFields();
      if a.Blocked? && tsrRetry < S.MAX_XMIT_RETRY {
        assert !watch;
        if a.watchOk {
          SetTsrRetry(tsrRetry + 1);
          SetWatch(true);
          return true;
        }
      }
      waits := false;
    }

    /** The byte in the shift register is looped back or offered to the backend; `more` is whether it is dealt with. */
    method Emit(a: S.Answer) returns (more: bool)
      requires Valid() && !View().tx.watch
      modifies this
      ensures Valid() && View() == S.EmitStep(old(View()), a)
      ensures more == S.Emit(old(View()).Loop(), old(View()).tx, a).1
    {
      hide Valid, View, S.Priority, S.ReceiveRx;
      TxFields();
      PlainFields();
      if S.Has(mcr, S.MCR_LOOP) {
        Receive1([tsr]);
      } else {
        var waits := Offer(a);
        if waits {
          return false;
        }
      }
      Settle();
      more := true;
    }

    /** One round of serial_xmit. */
    method XmitByte(a: S.Answer) returns (more: bool)
      requires Valid() && S.CanXmit(View().fifo, View().tx)
      modifies this
      ensures Valid() && View() == S.RoundStep(old(View()), a)
      ensures more == S.Round(old(View()).fifo, old(View()).Loop(), old(View()).tx, a).1
    {
      hide Valid, View, S.EmitStep;
      TxFields();
      LsrBits();
      assert !S.Has(lsr, LSR_TEMT);
      R.LoadStepFrame(View());
      if tsrRetry == 0 {
        LoadTsr();
      }
      more := Emit(a);
    }

    /** serial_xmit; it terminates whatever the backend answers. */
    method Xmit(ans: nat -> S.Answer)
      requires Valid() && S.CanXmit(View().fifo, View().tx)
      modifies this
      ensures Valid() && View() == S.Xmit(old(View()), ans, 0)
    {
      hide Valid, View, S.Round, S.RoundStep, S.Xmit;
      ghost var result := S.Xmit(View(), ans, 0);
      var n := 0;
      while true
        invariant Valid() && S.CanXmit(View().fifo, View().tx) && S.Xmit(View(), ans, n) == result
        decreases S.Left(View().fifo, View().tx)
      {
        R.XmitRound(View(), ans, n);
        var more := XmitByte(ans(n));
        if !more {
          return;
        }
        LsrBits();
        if S.Has(lsr, LSR_THRE) {
          break;
        }
        n := n + 1;
      }
      SetTemt();
    }

    /** serial_watch_cb. */
    method WatchCallback(ans: nat -> S.Answer)
      requires Valid() && S.TxOk(View().fifo, View().tx) && View().tx.watch
      modifies this
      ensures Valid() && View() == R.WatchCallback(old(View()), ans)
    {
      hide Valid, View, S.Xmit;
      SetWatch(false);
      Xmit(ans);
    }

    // ----- register writes -----

    /** The byte goes to the holding register and, in FIFO mode, to the FIFO, over its oldest byte if it is full. */
    method Enqueue(b: bv8)
      requires Valid()
      modifies this
      ensures Valid() && View() == old(View()).(tx := S.Enqueue(old(View()).fifo, old(View()).tx, b))
    {
      hide Valid, View;
      SetThr(b);
      PushThr();
      SetThrIpending(false);
      ClearThreTemt();
    }

    method PushThr()
      requires Valid()
      modifies this
      ensures Valid()
      ensures var u := old(View());
              var queue := if |u.tx.xmit| >= S.UART_FIFO_LENGTH then u.tx.xmit[1..] else u.tx.xmit;
              View() == u.(tx := u.tx.(xmit := if u.fifo then queue + [u.tx.thr] else u.tx.xmit))
    {
      hide Valid, View;
      TxFields();
      FifoBit();
      if S.Has(fcr, S.FCR_FE) {
        var queue := if |xmit| >= S.UART_FIFO_LENGTH then xmit[1..] else xmit;
        SetXmit(queue + [thr]);
      }
    }

    /** A write to the holding register. */
    method WriteThr(b: bv8, ans: nat -> S.Answer)
      requires Valid() && S.TxOk(View().fifo, View().tx)
      modifies this
      ensures Valid() && View() == S.WriteThr(old(View()), b, ans)
    {
      hide Valid, View, S.Xmit;
      Enqueue(b);
      UpdateIrq();
      TxFields();
      if tsrRetry == 0 {
        Xmit(ans);
      }
    }

    /** Modem interrupts went on or off. */
    method SetPolling(lines: S.Lines)
      requires Valid()
      modifies this
      ensures Valid() && View() == S.Polling(old(View()), lines)
    {
      hide Valid, View, S.UpdateMsl;
      PlainFields();
      IerBits();
      if pollMsl >= 0 {
        if S.Has(ier, 0x08) {
          SetPollMsl(1);
          UpdateMsl(lines);
        } else {
          SetPollMsl(0);
        }
      }
    }

    /** The transmit interrupt enable went on or off. */
    method RaiseThr()
      requires Valid()
      modifies this
      ensures Valid()
      ensures var u := old(View());
              View() == u.(tx := u.tx.(thrIpending := u.ier.thri && u.tx.thre))
    {
      hide Valid, View;
      IerBits();
      LsrBits();
      SetThrIpending(S.Has(ier, 0x02) && S.Has(lsr, LSR_THRE));
    }

    method Enable(val: bv8, lines: S.Lines) returns (changed: bv8)
      requires Valid()
      modifies this
      ensures Valid() && View() == S.Enable(old(View()), S.IerOf(val), lines)
      ensures (changed != 0) == (S.IerOf(val) != old(View()).ier)
    {
      hide Valid, View, S.Polling, S.IerOf;
      changed := SetIer(val);
      PollingFrame(View(), lines);
      if S.Has(changed, 0x08) {
        SetPolling(lines);
      }
      if S.Has(changed, 0x02) {
        RaiseThr();
      }
    }

    method WriteIer(val: bv8, lines: S.Lines)
      requires Valid()
      modifies this
      ensures Valid() && View() == S.WriteIer(old(View()), S.IerOf(val), lines)
    {
      hide Valid, View, S.Enable, S.IerOf, S.UpdateIrq;
      var changed := Enable(val, lines);
      if changed != 0 {
        UpdateIrq();
      }
    }

    method FlushRecv()
      requires Valid()
      modifies this
      ensures Valid() && View() == old(View()).(rx := S.ResetRecv(old(View()).rx))
    {
      hide Valid, View;
      ClearReady();
      SetTimeout(false);
      SetRecv([]);
    }

    method FlushXmit()
      requires Valid()
      modifies this
      ensures Valid() && View() == old(View()).(tx := S.ResetXmit(old(View()).tx))
    {
      hide Valid, View;
      SetThre();
      SetThrIpending(true);
      SetXmit([]);
    }

    /** A changed enable bit asks for both flushes. */
    static method FlushBits(val0: bv8, fcr: bv8) returns (val: bv8)
      ensures S.Has(val, S.FCR_RFR) == (S.Has(val0, S.FCR_FE) != S.Has(fcr, S.FCR_FE) || S.Has(val0, S.FCR_RFR))
      ensures S.Has(val, S.FCR_XFR) == (S.Has(val0, S.FCR_FE) != S.Has(fcr, S.FCR_FE) || S.Has(val0, S.FCR_XFR))
      ensures S.Has(val & 0xC9, S.FCR_FE) == S.Has(val0, S.FCR_FE)
      ensures S.TriggerLevel(val & 0xC9) == S.TriggerLevel(val0)
    {
      FcrMasks(fcr, val0);
      val := val0;
      if S.Has(val ^ fcr, S.FCR_FE) {
        val := val | (S.FCR_XFR | S.FCR_RFR);
      }
      FcrMasks(fcr, val);
    }

    /** The flushes of a write to the FIFO control register, and its bits that stick. */
    method Flush(val0: bv8) returns (val: bv8)
      requires Valid()
      modifies this
      ensures Valid() && View() == S.Flush(old(View()), val0)
      ensures S.Has(val, S.FCR_FE) == S.Has(val0, S.FCR_FE) && S.TriggerLevel(val) == S.TriggerLevel(val0)
    {
      hide Valid, View, S.ResetRecv, S.ResetXmit, S.Has, S.TriggerLevel;
      FifoBit();
      val := FlushBits(val0, fcr);
      if S.Has(val, S.FCR_RFR) {
        FlushRecv();
      }
      if S.Has(val, S.FCR_XFR) {
        FlushXmit();
      }
      val := val & 0xC9;
    }

    /** serial_write_fcr: switches the FIFOs and sets the trigger level. */
    method SetFcr(val: bv8)
      requires Valid()
      modifies this
      ensures Valid() && View() == S.SetFcr(old(View()), val)
    {
      hide Valid, View;
      SetFifo(val);
      SetIirFifo(S.Has(val, S.FCR_FE));
      if S.Has(val, S.FCR_FE) {
        SetItl(match val & 0xC0 case 0x00 => 1 case 0x40 => 4 case 0x80 => 8 case _ => 14);
      }
    }

    /** A write to the FIFO control register: flush, then switch, then set the trigger level. */
    method WriteFcr(val: bv8)
      requires Valid()
      modifies this
      ensures Valid() && View() == S.WriteFcr(old(View()), val)
    {
      hide Valid, View, S.Flush, S.UpdateIrq, S.Has, S.TriggerLevel;
      var stuck := Flush(val);
      SetFcr(stuck);
      UpdateIrq();
    }

    method WriteDivisorLow(val: bv16, size: nat)
      requires Valid()
      modifies this
      ensures Valid() && View() == S.WriteDivisorLow(old(View()), val, size)
    {
      hide TxTied, RxTied, LsrTied, IerTied, IirTied, MsrTied, FcrTied, S.DivisorLow;
      divider := MergeLow(divider, val, size);
    }

    static method MergeLow(divisor: bv16, val: bv16, size: nat) returns (d: bv16)
      ensures d == S.DivisorLow(divisor, val, size)
    {
      d := divisor;
      if size == 2 {
        d := (divisor & 0xFF00) | val;
      } else if size == 4 {
        d := val;
      }
    }

    method WriteDivisorHigh(val: bv16)
      requires Valid()
      modifies this
      ensures Valid() && View() == S.WriteDivisorHigh(old(View()), val)
    {
      hide TxTied, RxTied, LsrTied, IerTied, IirTied, MsrTied, FcrTied;
      divider := S.DivisorHigh(divider, val);
    }

    method WriteData(val: bv16, size: nat, ans: nat -> S.Answer)
      requires Valid() && S.TxOk(View().fifo, View().tx)
      modifies this
      ensures Valid() && View() == S.WriteData(old(View()), val, size, ans)
    {
      hide Valid, View, S.WriteDivisorLow, S.WriteThr, S.LowByte;
      PlainFields();
      if S.Has(lcr, S.LCR_DLAB) {
        WriteDivisorLow(val, size);
      } else {
        WriteThr(S.LowByte(val), ans);
      }
    }

    method WriteEnable(val: bv16, lines: S.Lines)
      requires Valid()
      modifies this
      ensures Valid() && View() == S.WriteEnable(old(View()), val, lines)
    {
      hide Valid, View, S.WriteDivisorHigh, S.WriteIer, S.LowByte, S.IerOf;
      PlainFields();
      if S.Has(lcr, S.LCR_DLAB) {
        WriteDivisorHigh(val);
      } else {
        WriteIer(S.LowByte(val), lines);
      }
    }

    method IoportWrite(addr: nat, val: bv16, size: nat, lines: S.Lines, ans: nat -> S.Answer)
      requires Valid() && S.TxOk(View().fifo, View().tx)
      modifies this
      ensures Valid() && View() == S.Write(old(View()), addr, val, size, lines, ans)
    {
      hide Valid, View, S.WriteData, S.WriteEnable, S.WriteFcr, S.WritePlain, S.LowByte;
      match addr % 8
      case 0 => WriteData(val, size, ans);
      case 1 => WriteEnable(val, lines);
      case 2 => WriteFcr(S.LowByte(val));
      case _ => WritePlain(addr % 8, S.LowByte(val));
    }

    /** The line control, modem control and scratch registers. */
    method WritePlain(reg: nat, val: bv8)
      requires Valid()
      modifies this
      ensures Valid() && View() == S.WritePlain(old(View()), reg, val)
    {
      hide TxTied, RxTied, LsrTied, IerTied, IirTied, MsrTied, FcrTied;
      if reg == 3 {
        lcr := val;
        lastBreak := S.Has(val, 0x40);
      } else if reg == 4 {
        mcr := val & 0x1F;
      } else if reg == 7 {
        scr := val;
      }
    }

    // ----- register reads -----

    /** The oldest byte of the FIFO; an empty FIFO reads as zero. */
    method PopOldest() returns (ret: bv8)
      requires Valid() && View().fifo
      modifies this
      ensures Valid() && ret == Received(old(View()))
      ensures var u := old(View());
              View() == u.(rx := S.Unqueue(u.rx))
    {
      hide Valid, View;
      RxFields();
      ret := 0;
      if recv != [] {
        ret := recv[0];
        SetRecv(recv[1..]);
      }
    }

    method PopFifo() returns (ret: bv8)
      requires Valid() && View().fifo
      modifies this
      ensures Valid() && View() == old(View()).(rx := S.PopFifo(old(View()).rx)) && ret == Received(old(View()))
    {
      hide Valid, View, Received, S.Unqueue;
      ret := PopOldest();
      ClearIfEmpty();
      SetTimeout(false);
    }

    method ClearIfEmpty()
      requires Valid()
      modifies this
      ensures Valid()
      ensures var u := old(View());
              View() == u.(rx := if u.rx.recv == [] then u.rx.(dr := false, bi := false) else u.rx)
    {
      hide Valid, View;
      RxFields();
      if |recv| == 0 {
        ClearReady();
      }
    }

    /** A byte from the FIFO, or from the buffer register. */
    method PopByte() returns (ret: bv8)
      requires Valid()
      modifies this
      ensures Valid() && View() == old(View()).(rx := S.PopRx(old(View()).rx, old(View()).fifo))
      ensures ret == Received(old(View()))
    {
      hide Valid, View;
      RxFields();
      FifoBit();
      if S.Has(fcr, S.FCR_FE) {
        ret := PopFifo();
      } else {
        ret := rbr;
        ClearReady();
      }
    }

    /** The receive buffer. */
    method ReadRbr() returns (ret: bv8)
      requires Valid()
      modifies this
      ensures Valid() && View() == S.ReadRbr(old(View())) && ret == Received(old(View()))
      ensures var was, now := old(View()), View().rx.recv;
              if !was.fifo then ret == was.rx.rbr && now == was.rx.recv
              else if was.rx.recv == [] then ret == 0 && now == []
              else [ret] + now == was.rx.recv
    {
      hide Valid, View, S.UpdateIrq, S.PopRx, Received;
      OldestIsRead(View());
      ret := PopByte();
      UpdateIrq();
    }

    /** The identification byte; reading a transmit interrupt withdraws it. */
    method ReadIir() returns (ret: bv8)
      requires Valid()
      modifies this
      ensures Valid() && View() == S.ReadIir(old(View())) && ret == IirByte(old(View()).cause, old(View()).iirFifo)
    {
      hide Valid, View, S.UpdateIrq, IirByte;
      var thri;
      ret, thri := FetchIir();
      if thri {
        SetThrIpending(false);
        UpdateIrq();
      }
    }

    /** The line status byte; reading it clears break and overrun. */
    method ReadLsr() returns (ret: bv8)
      requires Valid()
      modifies this
      ensures Valid() && View() == S.ReadLsr(old(View())) && ret == LsrByte(Line(old(View()).tx, old(View()).rx))
    {
      hide Valid, View, S.UpdateIrq, LsrByte;
      var errors;
      ret, errors := FetchLsr();
      if errors {
        ClearErrors();
        UpdateIrq();
      }
    }

    /** The modem status byte: in loopback the modem control outputs, otherwise the lines, whose deltas it clears. */
    method ReadMsr(lines: S.Lines) returns (ret: bv8)
      requires Valid()
      modifies this
      ensures Valid() && View() == S.ReadMsr(old(View()), lines) && ret == MsrRead(old(View()), lines)
    {
      hide Valid, View, S.UpdateIrq, S.UpdateMsl, S.AnyDelta, S.NoDelta, MsrByte, LoopMsr;
      PlainFields();
      if S.Has(mcr, S.MCR_LOOP) {
        ret := LoopMsr(mcr);
      } else {
        if pollMsl >= 0 {
          UpdateMsl(lines);
        }
        var any;
        ret, any := FetchMsr();
        if any {
          UpdateIrq();
        }
      }
    }

    method FetchIer() returns (ret: bv8)
      requires Valid()
      ensures ret == IerByte(View().ier)
    {
      ret := ier;
    }

    method IoportRead(addr: nat, lines: S.Lines) returns (ret: bv8)
      requires Valid()
      modifies this
      ensures Valid() && View() == S.Read(old(View()), addr, lines) && ret == ReadValue(old(View()), addr, lines)
    {
      hide Valid, View, S.ReadRbr, S.ReadIir, S.ReadLsr, S.ReadMsr;
      hide DivisorByte, Received, IerByte, IirByte, LsrByte, MsrRead;
      PlainFields();
      match addr % 8
      case 0 =>
        if S.Has(lcr, S.LCR_DLAB) {
          ret := DivisorByte(divider, false);
        } else {
          ret := ReadRbr();
        }
      case 1 =>
        if S.Has(lcr, S.LCR_DLAB) {
          ret := DivisorByte(divider, true);
        } else {
          ret := FetchIer();
        }
      case 2 => ret := ReadIir();
      case 3 => ret := lcr;
      case 4 => ret := mcr;
      case 5 => ret := ReadLsr();
      case 6 => ret := ReadMsr(lines);
      case _ => ret := scr;
    }

    // ----- reset -----

    method ClearQueues()
      requires Valid()
      modifies this
      ensures Valid()
      ensures var u := old(View());
              View() == u.(tx := u.tx.(xmit := [], tsrRetry := 0, watch := false, thrIpending := false),
                           rx := u.rx.(recv := [], rbr := 0, timeoutIpending := false))
    {
      hide Valid, View;
      SetWatch(false);
      SetTsrRetry(0);
      SetXmit([]);
      SetThrIpending(false);
      SetRbr(0);
      SetTimeout(false);
      SetRecv([]);
    }

    method ClearLsr()
      requires Valid()
      modifies this
      ensures Valid()
      ensures var u := old(View());
              View() == u.(tx := u.tx.(thre := true, temt := true), rx := u.rx.(dr := false, bi := false, oe := false))
    {
      hide IerTied, IirTied, MsrTied, FcrTied, LsrByte, IirByte, MsrOf, S.IerOf;
      ResetBytes();
      lsr := LSR_TEMT | LSR_THRE;
      tx, rx := tx.(thre := true, temt := true), rx.(dr := false, bi := false, oe := false);
    }

    method ClearIir()
      requires Valid()
      modifies this
      ensures Valid() && View() == old(View()).(cause := S.NoInt, iirFifo := false)
    {
      hide TxTied, RxTied, LsrTied, IerTied, MsrTied, FcrTied;
      ResetBytes();
      iir := IIR_NO_INT;
      cause, iirFifo := S.NoInt, false;
    }

    method ClearMsr()
      requires Valid()
      modifies this
      ensures Valid() && View() == old(View()).(msr := S.RESET_MSR)
    {
      hide TxTied, RxTied, LsrTied, IerTied, IirTied, FcrTied;
      ResetBytes();
      msr := MSR_DCD | MSR_DSR | MSR_CTS;
      modem := S.RESET_MSR;
    }

    method ClearControl()
      requires Valid()
      modifies this
      ensures Valid() && View() == old(View()).(lcr := 0, mcr := S.MCR_OUT2, scr := 0, divider := 0x0C)
    {
      hide TxTied, RxTied, LsrTied, IerTied, IirTied, MsrTied, FcrTied;
      lcr, mcr, scr, divider := 0, S.MCR_OUT2, 0, 0x0C;
    }

    method ClearPolling()
      requires Valid()
      modifies this
      ensures Valid() && View() == old(View()).(pollMsl := 0, lastBreak := false, irq := false)
    {
      hide TxTied, RxTied, LsrTied, IerTied, IirTied, MsrTied, FcrTied;
      pollMsl, lastBreak, irq := 0, false, false;
    }

    method ClearRegisters()
      requires Valid()
      modifies this
      ensures Valid() && View() == S.Fresh(old(View()))
    {
      hide Valid, View, S.IerOf, MsrOf, LsrByte, IirByte;
      ClearQueues();
      ClearLsr();
      ResetBytes();
      var changed := SetIer(0);
      ClearIir();
      ClearMsr();
      ClearControl();
      ClearPolling();
    }

    /** serial_reset: the FIFO enable and the trigger level are not among what it resets. */
    method Reset(lines: S.Lines)
      requires Valid()
      modifies this
      ensures Valid() && View() == S.Reset(old(View()), lines)
    {
      hide Valid, View, S.Fresh, S.UpdateMsl, S.NoDelta;
      ClearRegisters();
      UpdateMsl(lines);
      DropDeltas();
    }
  }

  /** Polling touches neither the enable bits nor the transmitter. */
  lemma PollingFrame(u: S.Uart, lines: S.Lines)
    ensures S.Polling(u, lines).ier == u.ier && S.Polling(u, lines).tx == u.tx
  {
  }

  /** Putting one more byte of a burst. */
  lemma PutOneMore(rx: S.Rx, buf: seq<bv8>, i: nat)
    requires i < |buf|
    ensures S.RecvFifoPut(S.RecvFifoPut(rx, buf[..i]), [buf[i]]) == S.RecvFifoPut(rx, buf[..i + 1])
  {
  }
}

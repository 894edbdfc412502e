/** The fate of every byte the guest writes to the UART, over whole runs. */
module SerialBytes {
  import opened Bytes
  import opened Serial
  import opened SerialRun

  /** The bytes waiting behind the shift register. */
  function Queue(fifo: bool, tx: Tx): seq<bv8> {
    if fifo then tx.xmit else if tx.thre then [] else [tx.thr]
  }

  function Shifting(tx: Tx): seq<bv8> { if tx.tsrRetry > 0 then [tx.tsr] else [] }

  function Pending(fifo: bool, tx: Tx): seq<bv8> { Shifting(tx) + Queue(fifo, tx) }

  /** Resolved, then in the shift register, then waiting. */
  function InFlight(fifo: bool, tx: Tx): seq<bv8> { tx.resolved + Pending(fifo, tx) }

  lemma LoadConserves(fifo: bool, tx: Tx)
    requires CanXmit(fifo, tx) && tx.tsrRetry == 0
    ensures Queue(fifo, tx) == [Load(fifo, tx).tsr] + Queue(fifo, Load(fifo, tx))
    ensures Load(fifo, tx).resolved == tx.resolved && Load(fifo, tx).tsrRetry == 0
  {
  }

  lemma EmitConserves(fifo: bool, loop: bool, tx: Tx, a: Answer)
    ensures InFlight(fifo, Emit(loop, tx, a).0) == tx.resolved + ([tx.tsr] + Queue(fifo, tx))
    ensures tx.resolved <= Emit(loop, tx, a).0.resolved
  {
    ConcatAssociative(tx.resolved, [tx.tsr], Queue(fifo, tx));
  }

  lemma RoundConserves(fifo: bool, loop: bool, tx: Tx, a: Answer)
    requires CanXmit(fifo, tx)
    ensures InFlight(fifo, Round(fifo, loop, tx, a).0) == InFlight(fifo, tx)
    ensures tx.resolved <= Round(fifo, loop, tx, a).0.resolved
  {
    if tx.tsrRetry == 0 {
      LoadConserves(fifo, tx);
      EmitConserves(fifo, loop, Load(fifo, tx), a);
      assert Pending(fifo, tx) == Queue(fifo, tx);
    } else {
      EmitConserves(fifo, loop, tx, a);
    }
  }

  /** serial_xmit moves bytes along without losing, repeating or reordering any. */
  lemma {:induction false} XmitConserves(u: Uart, ans: nat -> Answer, n: nat)
    requires CanXmit(u.fifo, u.tx) && Sound(u)
    ensures var v := Xmit(u, ans, n);
      v.fifo == u.fifo && InFlight(v.fifo, v.tx) == InFlight(u.fifo, u.tx) && u.tx.resolved <= v.tx.resolved
    decreases Left(u.fifo, u.tx)
  {
    hide Round, RoundStep, Priority;
    var (t, more) := Round(u.fifo, u.Loop(), u.tx, ans(n));
    var v := RoundStep(u, ans(n));
    RoundOk(u.fifo, u.Loop(), u.tx, ans(n));
    RoundKeepsSound(u, ans(n));
    RoundConserves(u.fifo, u.Loop(), u.tx, ans(n));
    if more && t.thre {
      assert InFlight(u.fifo, t.(temt := true)) == InFlight(u.fifo, t);
    } else if more {
      XmitConserves(v, ans, n + 1);
    }
  }

  /** The transmitter-empty bit tells the guest exactly that every byte it wrote has been dealt with. */
  lemma EmptyMeansNothingPending(u: Uart)
    requires Ok(u)
    ensures u.tx.temt <==> Pending(u.fifo, u.tx) == []
  {
  }

  /** One round: the byte in the shift register is dealt with unless the backend blocks and can be watched. */
  lemma {:induction false} RoundWaits(fifo: bool, loop: bool, tx: Tx, a: Answer)
    requires CanXmit(fifo, tx)
    ensures var (t, more) := Round(fifo, loop, tx, a);
      && (loop || a != Blocked(true) ==> more)
      && (!loop && a == Blocked(true) && tx.tsrRetry < 4 ==>
            !more && t.resolved == tx.resolved && t.tsrRetry == tx.tsrRetry + 1 && !t.temt)
  {
  }

  /** In loopback, or while the backend does not block, the loop deals with every byte in flight, each once. */
  lemma {:induction false} UnblockedEmpties(u: Uart, ans: nat -> Answer, n: nat)
    requires CanXmit(u.fifo, u.tx) && Sound(u) && (u.Loop() || forall k | k >= n :: ans(k) != Blocked(true))
    ensures Xmit(u, ans, n).tx.temt && Xmit(u, ans, n).tx.resolved == InFlight(u.fifo, u.tx)
    decreases Left(u.fifo, u.tx)
  {
    hide Round, RoundStep, Xmit, Priority, InFlight;
    RoundOk(u.fifo, u.Loop(), u.tx, ans(n));
    RoundKeepsSound(u, ans(n));
    RoundConserves(u.fifo, u.Loop(), u.tx, ans(n));
    RoundWaits(u.fifo, u.Loop(), u.tx, ans(n));
    XmitRound(u, ans, n);
    var v := RoundStep(u, ans(n));
    if v.tx.thre {
      NothingInFlight(v.fifo, v.tx);
    } else {
      UnblockedEmpties(v, ans, n + 1);
    }
  }

  lemma NothingInFlight(fifo: bool, tx: Tx)
    requires Busy(fifo, tx) && tx.thre && tx.tsrRetry == 0
    ensures InFlight(fifo, tx) == tx.resolved
  {
  }

  /** A backend that blocks and can be watched is left alone until it is writable: no byte is dealt with meanwhile. */
  lemma BlockedWaits(u: Uart, ans: nat -> Answer, n: nat)
    requires CanXmit(u.fifo, u.tx) && Sound(u) && !u.Loop() && ans(n) == Blocked(true) && u.tx.tsrRetry < 4
    ensures var v := Xmit(u, ans, n);
      v.tx.watch && v.tx.tsrRetry == u.tx.tsrRetry + 1 && v.tx.resolved == u.tx.resolved
      && InFlight(v.fifo, v.tx) == InFlight(u.fifo, u.tx)
  {
    hide Round, RoundStep, Xmit, Priority, InFlight;
    RoundStepTx(u, ans(n));
    RoundOk(u.fifo, u.Loop(), u.tx, ans(n));
    RoundWaits(u.fifo, u.Loop(), u.tx, ans(n));
    XmitRound(u, ans, n);
    XmitConserves(u, ans, n);
  }

  /** A byte is tried at most five times: when the watch fires after the fourth retry it is dealt with in any case. */
  lemma RetryLimit(u: Uart, ans: nat -> Answer)
    requires Ok(u) && u.tx.tsrRetry == MAX_XMIT_RETRY
    ensures u.tx.resolved + [u.tx.tsr] <= WatchCallback(u, ans).tx.resolved
  {
    var v := u.(tx := u.tx.(watch := false));
    assert Sound(v) by { TxFrame(u, v.tx); }
    var w := RoundStep(v, ans(0));
    RoundOk(v.fifo, v.Loop(), v.tx, ans(0));
    assert Sound(w) && w.fifo == v.fifo && w.tx == Round(v.fifo, v.Loop(), v.tx, ans(0)).0 by { RoundKeepsSound(v, ans(0)); }
    if !w.tx.thre {
      XmitConserves(w, ans, 1);
    }
  }

  /** A backend that delivers no more than the device offers to take causes no overrun, and all of it is stored. */
  lemma OfferIsSafe(u: Uart, buf: seq<bv8>)
    requires Ok(u) && buf != [] && |buf| <= CanReceive(u)
    ensures Receive1(u, buf).rx.oe == u.rx.oe
    ensures if u.fifo then Receive1(u, buf).rx.recv == u.rx.recv + buf else buf == [Receive1(u, buf).rx.rbr]
  {
  }

  /** The device offers to take nothing exactly when the FIFO holds the trigger level or is full, or the buffer is. */
  lemma OffersNothing(u: Uart)
    requires Ok(u)
    ensures CanReceive(u) == 0 <==>
            if u.fifo then |u.rx.recv| == u.rx.itl || |u.rx.recv| >= UART_FIFO_LENGTH else u.rx.dr
  {
  }

  /** With the FIFOs flushed and the trigger at one byte, one received byte closes a FIFO that has room for fifteen more. */
  lemma TriggerLevelOffersNothing(u: Uart, b: bv8)
    requires Ok(u)
    ensures var v := Receive1(WriteFcr(u, FCR_FE | FCR_RFR), [b]);
      v.rx.recv == [b] && v.rx.itl == 1 && CanReceive(v) == 0
  {
    assert Has(FCR_FE | FCR_RFR, FCR_FE) && Has(FCR_FE | FCR_RFR, FCR_RFR);
    assert TriggerLevel(FCR_FE | FCR_RFR) == 1;
    assert WriteFcr(u, FCR_FE | FCR_RFR).rx.recv == [];
  }

  // ----- what each event loses -----

  /** The byte an event writes to the transmit register, if it does. */
  function Written(u: Uart, e: Event): Option<bv8> {
    if e.RegWrite? && e.addr % 8 == 0 && !u.Dlab() then Some(LowByte(e.val)) else None
  }

  predicate Flushes(u: Uart, e: Event) {
    e.RegWrite? && e.addr % 8 == 2
    && (Has(LowByte(e.val), FCR_FE) != u.fifo || Has(LowByte(e.val), FCR_XFR))
  }

  /** How many of the oldest waiting bytes are overwritten by a new one. */
  function Evicted(u: Uart): nat {
    if u.fifo then if |u.tx.xmit| >= UART_FIFO_LENGTH then 1 else 0 else |Queue(u.fifo, u.tx)|
  }

  /** The bytes in flight that an event loses are those from the first position up to the second. */
  function Lost(u: Uart, e: Event): (nat, nat) {
    var all := |InFlight(u.fifo, u.tx)|;
    var base := |u.tx.resolved| + |Shifting(u.tx)|;
    if Written(u, e).Some? then (base, base + Evicted(u))
    else if Flushes(u, e) then (base, all)
    else if e.DeviceReset? then (|u.tx.resolved|, all)
    else (all, all)
  }

  lemma LostBounds(u: Uart, e: Event)
    ensures Lost(u, e).0 <= Lost(u, e).1 <= |InFlight(u.fifo, u.tx)|
  {
  }

  function Cut<T>(s: seq<T>, lo: nat, hi: nat): seq<T>
    requires lo <= hi <= |s|
  {
    s[..lo] + s[hi..]
  }

  function AsSeq<T>(o: Option<T>): seq<T> { if o.Some? then [o.value] else [] }

  /** The bytes in flight after an event: what it does not lose, then what it writes. */
  function After(u: Uart, e: Event): seq<bv8> {
    LostBounds(u, e);
    Cut(InFlight(u.fifo, u.tx), Lost(u, e).0, Lost(u, e).1) + AsSeq(Written(u, e))
  }

  lemma CutMiddle<T>(a: seq<T>, b: seq<T>, k: nat)
    requires k <= |b|
    ensures Cut(a + b, |a|, |a| + k) == a + b[k..]
  {
  }

  lemma EnqueueAppends(u: Uart, b: bv8)
    requires Ok(u)
    ensures var t := Enqueue(u.fifo, u.tx, b);
      Queue(u.fifo, t) == Queue(u.fifo, u.tx)[Evicted(u)..] + [b] && Shifting(t) == Shifting(u.tx)
      && t.resolved == u.tx.resolved
  {
  }

  lemma WriteThrConserves(u: Uart, b: bv8, ans: nat -> Answer)
    requires Ok(u)
    ensures var v := WriteThr(u, b, ans);
      var kept := u.tx.resolved + Shifting(u.tx);
      InFlight(v.fifo, v.tx) == kept + Queue(u.fifo, u.tx)[Evicted(u)..] + [b] && u.tx.resolved <= v.tx.resolved
  {
    var v := UpdateIrq(u.(tx := Enqueue(u.fifo, u.tx, b)));
    EnqueueAppends(u, b);
    assert InFlight(v.fifo, v.tx) == u.tx.resolved + Shifting(u.tx) + Queue(u.fifo, u.tx)[Evicted(u)..] + [b];
    if v.tx.tsrRetry == 0 {
      XmitConserves(v, ans, 0);
    }
  }

  lemma SameTxConserves(u: Uart, v: Uart)
    requires SameTx(u, v)
    ensures InFlight(v.fifo, v.tx) == InFlight(u.fifo, u.tx) && v.tx.resolved == u.tx.resolved
  {
  }

  lemma FlushDropsQueue(u: Uart, val: bv8)
    requires Ok(u)
    ensures var v := WriteFcr(u, val);
      && v.tx.resolved == u.tx.resolved
      && InFlight(v.fifo, v.tx) ==
         if Has(val, FCR_FE) != u.fifo || Has(val, FCR_XFR) then u.tx.resolved + Shifting(u.tx) else InFlight(u.fifo, u.tx)
  {
  }

  lemma ResetDropsPending(u: Uart, lines: Lines)
    requires Ok(u)
    ensures InFlight(Reset(u, lines).fifo, Reset(u, lines).tx) == u.tx.resolved
    ensures Reset(u, lines).tx.resolved == u.tx.resolved
  {
    UpdateMslFrame(Fresh(u), lines);
  }

  /** Nothing is cut when nothing is lost. */
  lemma CutNothing<T>(s: seq<T>)
    ensures Cut(s, |s|, |s|) == s && s + [] == s
  {
  }

  /** Losing the first k waiting bytes. */
  lemma CutQueue(u: Uart, k: nat)
    requires k <= |Queue(u.fifo, u.tx)|
    ensures var base := |u.tx.resolved| + |Shifting(u.tx)|;
      && base + k <= |InFlight(u.fifo, u.tx)|
      && Cut(InFlight(u.fifo, u.tx), base, base + k) == u.tx.resolved + Shifting(u.tx) + Queue(u.fifo, u.tx)[k..]
  {
    var kept, queue := u.tx.resolved + Shifting(u.tx), Queue(u.fifo, u.tx);
    assert InFlight(u.fifo, u.tx) == kept + queue by { ConcatAssociative(u.tx.resolved, Shifting(u.tx), queue); }
    CutMiddle(kept, queue, k);
  }

  /** An event that writes, flushes and resets nothing keeps all bytes in flight. */
  lemma QuietEvent(u: Uart, e: Event)
    requires Written(u, e).None? && !Flushes(u, e) && !e.DeviceReset?
    ensures After(u, e) == InFlight(u.fifo, u.tx)
  {
    CutNothing(InFlight(u.fifo, u.tx));
  }

  ghost predicate Conserves(u: Uart, e: Event)
    requires Ok(u) && Enabled(u, e)
  {
    InFlight(Step(u, e).fifo, Step(u, e).tx) == After(u, e) && u.tx.resolved <= Step(u, e).tx.resolved
  }

  lemma QuietConserves(u: Uart, e: Event)
    requires Ok(u) && Enabled(u, e) && Written(u, e).None? && !Flushes(u, e) && !e.DeviceReset?
    requires SameTx(u, Step(u, e))
    ensures Conserves(u, e)
  {
    QuietEvent(u, e);
    SameTxConserves(u, Step(u, e));
  }

  lemma DataWriteConserves(u: Uart, e: Event)
    requires Ok(u) && Written(u, e).Some?
    ensures Conserves(u, e)
  {
    OkMeans(u);
    hide WriteThr, Queue, Ok, TxOk;
    var v := WriteThr(u, LowByte(e.val), e.ans);
    assert Step(u, e) == v;
    WriteThrConserves(u, LowByte(e.val), e.ans);
    assert After(u, e) == u.tx.resolved + Shifting(u.tx) + Queue(u.fifo, u.tx)[Evicted(u)..] + [LowByte(e.val)] by {
      CutQueue(u, Evicted(u));
    }
  }

  lemma FcrWriteConserves(u: Uart, e: Event)
    requires Ok(u) && e.RegWrite? && e.addr % 8 == 2
    ensures Conserves(u, e)
  {
    FlushDropsQueue(u, LowByte(e.val));
    if Flushes(u, e) {
      CutQueue(u, |Queue(u.fifo, u.tx)|);
      CutNothing(u.tx.resolved + Shifting(u.tx));
    } else {
      QuietEvent(u, e);
    }
  }

  lemma ResetConserves(u: Uart, e: Event)
    requires Ok(u) && e.DeviceReset?
    ensures Conserves(u, e)
  {
    ResetDropsPending(u, e.lines);
    CutMiddle(u.tx.resolved, Pending(u.fifo, u.tx), |Pending(u.fifo, u.tx)|);
    CutNothing(u.tx.resolved);
  }

  lemma WatchConserves(u: Uart, e: Event)
    requires Ok(u) && e.Writable? && Enabled(u, e)
    ensures Conserves(u, e)
  {
    var v := u.(tx := u.tx.(watch := false));
    TxFrame(u, v.tx);
    XmitConserves(v, e.ans, 0);
    QuietEvent(u, e);
  }

  lemma OtherWriteKeepsTx(u: Uart, e: Event)
    requires Ok(u) && e.RegWrite? && Written(u, e).None? && e.addr % 8 != 2
    ensures SameTx(u, Step(u, e))
  {
    match e.addr % 8
    case 0 =>
    case 1 => WriteEnableKeepsOk(u, e.val, e.lines);
    case _ => WritePlainIsPlain(u, e.addr % 8, LowByte(e.val));
  }

  lemma OtherEventKeepsTx(u: Uart, e: Event)
    requires Ok(u) && Enabled(u, e) && !e.RegWrite? && !e.Writable? && !e.DeviceReset?
    ensures SameTx(u, Step(u, e))
  {
    hide Ok, Write, Read, Receive1, ReceiveBreak, FifoTimeout, UpdateMsl, WatchCallback, Reset, SameTx;
    OkMeans(u);
    match e
    case RegRead(addr, lines) => ReadKeepsOk(u, addr, lines);
    case Poll(lines) => UpdateMslKeepsOk(u, lines);
    case Received(buf) => ReceivedKeepsOk(u, buf);
    case Break => BreakKeepsOk(u);
    case Timeout => TimeoutKeepsOk(u);
  }

  /**
   * Conservation: an event leaves the bytes in flight as they were, except for the ones it loses (the oldest waiting
   * byte on an overrun, all waiting ones on a FIFO flush, all pending ones on a reset) and the one it writes, which
   * goes to the end; and what has been resolved stays resolved.
   */
  lemma StepConserves(u: Uart, e: Event)
    requires Ok(u) && Enabled(u, e)
    ensures InFlight(Step(u, e).fifo, Step(u, e).tx) == After(u, e)
    ensures u.tx.resolved <= Step(u, e).tx.resolved
  {
    assert Conserves(u, e) by {
      if Written(u, e).Some? {
        DataWriteConserves(u, e);
      } else if e.RegWrite? && e.addr % 8 == 2 {
        FcrWriteConserves(u, e);
      } else if e.RegWrite? {
        OtherWriteKeepsTx(u, e);
        QuietConserves(u, e);
      } else if e.Writable? {
        WatchConserves(u, e);
      } else if e.DeviceReset? {
        ResetConserves(u, e);
      } else {
        OtherEventKeepsTx(u, e);
        QuietConserves(u, e);
      }
    }
  }

  // ----- whole runs -----

  /**
   * A run so far: the device, every byte the guest wrote to the transmit register, the positions among those of the
   * bytes in flight, and the number of bytes lost.
   */
  datatype Trace = Trace(u: Uart, written: seq<bv8>, alive: seq<nat>, lost: nat)

  ghost predicate Increasing(s: seq<nat>) { forall i, j :: 0 <= i < j < |s| ==> s[i] < s[j] }

  ghost predicate Below(s: seq<nat>, n: nat) { forall i :: 0 <= i < |s| ==> s[i] < n }

  /** Each of the bytes is the written one at its position. */
  ghost predicate Matches(bytes: seq<bv8>, at: seq<nat>, written: seq<bv8>) {
    && |at| == |bytes| && Increasing(at) && Below(at, |written|)
    && forall i :: 0 <= i < |at| ==> bytes[i] == written[at[i]]
  }

  /** The bytes in flight are written bytes, in the order of writing, and the others are counted as lost. */
  ghost predicate Accounted(t: Trace) {
    && Ok(t.u) && Matches(InFlight(t.u.fifo, t.u.tx), t.alive, t.written)
    && |t.alive| + t.lost == |t.written|
  }

  ghost function Next(t: Trace, e: Event): Trace
    requires Accounted(t) && Enabled(t.u, e)
  {
    LostBounds(t.u, e);
    var (lo, hi) := Lost(t.u, e);
    var one := AsSeq(Written(t.u, e));
    Trace(Step(t.u, e), t.written + one,
          Cut(t.alive, lo, hi) + (if one == [] then [] else [|t.written|]), t.lost + (hi - lo))
  }

  lemma CutIncreasing(s: seq<nat>, lo: nat, hi: nat, n: nat)
    requires lo <= hi <= |s| && Increasing(s) && Below(s, n)
    ensures Increasing(Cut(s, lo, hi)) && Below(Cut(s, lo, hi), n)
  {
    forall i, j | 0 <= i < j < |Cut(s, lo, hi)| ensures Cut(s, lo, hi)[i] < Cut(s, lo, hi)[j] {
      assert Cut(s, lo, hi)[i] == s[if i < lo then i else i + (hi - lo)];
      assert Cut(s, lo, hi)[j] == s[if j < lo then j else j + (hi - lo)];
    }
  }

  /** Cutting the bytes and their positions alike keeps them matched. */
  lemma CutMatches(bytes: seq<bv8>, at: seq<nat>, written: seq<bv8>, lo: nat, hi: nat)
    requires lo <= hi <= |at| && Matches(bytes, at, written)
    ensures Matches(Cut(bytes, lo, hi), Cut(at, lo, hi), written)
  {
    CutIncreasing(at, lo, hi, |written|);
  }

  /** So does appending a written byte. */
  lemma AppendMatches(bytes: seq<bv8>, at: seq<nat>, written: seq<bv8>, b: bv8)
    requires Matches(bytes, at, written)
    ensures Matches(bytes + [b], at + [|written|], written + [b])
  {
  }

  lemma NextAccounted(t: Trace, e: Event)
    requires Accounted(t) && Enabled(t.u, e)
    ensures Accounted(Next(t, e))
  {
    hide Step, Ok;
    var (lo, hi) := Lost(t.u, e);
    var bytes := InFlight(t.u.fifo, t.u.tx);
    LostBounds(t.u, e);
    StepKeepsOk(t.u, e);
    var v := Step(t.u, e);
    assert InFlight(v.fifo, v.tx) == Cut(bytes, lo, hi) + AsSeq(Written(t.u, e)) by { StepConserves(t.u, e); }
    CutMatches(bytes, t.alive, t.written, lo, hi);
    if Written(t.u, e).Some? {
      AppendMatches(Cut(bytes, lo, hi), Cut(t.alive, lo, hi), t.written, Written(t.u, e).value);
    }
  }

  /** A run is possible when each event is, where it happens. */
  ghost predicate Possible(t: Trace, events: seq<Event>)
    requires Accounted(t)
    decreases |events|
  {
    events == [] ||
    (Enabled(t.u, events[0]) && (NextAccounted(t, events[0]); Possible(Next(t, events[0]), events[1..])))
  }

  ghost function Run(t: Trace, events: seq<Event>): Trace
    requires Accounted(t) && Possible(t, events)
    decreases |events|
  {
    if events == [] then t else
      NextAccounted(t, events[0]);
      Run(Next(t, events[0]), events[1..])
  }

  /** A device just reset, before the guest has written anything. */
  ghost function Start(u: Uart, lines: Lines): (t: Trace)
    requires u.rx.itl <= 14 && u.tx.resolved == []
    ensures Accounted(t)
  {
    ResetIsOk(u, lines);
    ResetStartsEmpty(u, lines);
    Trace(Reset(u, lines), [], [], 0)
  }

  lemma ResetStartsEmpty(u: Uart, lines: Lines)
    requires u.tx.resolved == []
    ensures InFlight(Reset(u, lines).fifo, Reset(u, lines).tx) == []
  {
    UpdateMslFrame(Fresh(u), lines);
  }

  /**
   * Over every run from a reset, whatever the backend answers: the transmitter, receiver and interrupt invariants hold
   * at the end, the bytes in flight are the guest's bytes in the order written, and the rest were lost.
   */
  lemma {:induction false} EveryByteAccounted(t: Trace, events: seq<Event>)
    requires Accounted(t) && Possible(t, events)
    ensures Accounted(Run(t, events)) && t.written <= Run(t, events).written
    ensures t.u.tx.resolved <= Run(t, events).u.tx.resolved
    decreases |events|
  {
    hide Step, Ok, InFlight, Matches, Lost;
    if events != [] {
      var e := events[0];
      NextAccounted(t, e);
      StepConserves(t.u, e);
      EveryByteAccounted(Next(t, e), events[1..]);
    }
  }

  lemma {:induction false} IncreasingIsIdentity(s: seq<nat>, k: nat)
    requires Increasing(s) && Below(s, |s|) && k < |s|
    ensures s[k] == k
    decreases |s| - k
  {
    LeastAt(s, k);
    if k + 1 < |s| {
      IncreasingIsIdentity(s, k + 1);
      assert s[k] < s[k + 1];
    }
  }

  lemma {:induction false} LeastAt(s: seq<nat>, k: nat)
    requires Increasing(s) && k < |s|
    ensures s[k] >= k
  {
    if k > 0 {
      LeastAt(s, k - 1);
      assert s[k - 1] < s[k];
    }
  }

  /** The bytes in flight are all the bytes written exactly when no event lost any. */
  lemma NothingLostMeansEverythingInFlight(t: Trace)
    requires Accounted(t)
    ensures t.lost == 0 <==> InFlight(t.u.fifo, t.u.tx) == t.written
  {
    if t.lost == 0 {
      forall k | 0 <= k < |t.alive| ensures t.alive[k] == k { IncreasingIsIdentity(t.alive, k); }
    }
  }
}

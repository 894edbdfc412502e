/** Which dirty log each vhost device holds, how large it is, and when it is freed. */
module VhostLog {
  import opened Bytes
  import opened VhostDirtyLog
  import opened VhostSection
  import opened VhostSync

  function ChunksFor(r: Range): int { Last(r) / CHUNK + 1 }

  /** Chunks needed to log every byte of the ranges. */
  function LogSizeFor(rs: seq<Range>): (n: int)
    ensures n >= 0
  {
    if rs == [] then 0 else Max(ChunksFor(rs[0]), LogSizeFor(rs[1..]))
  }

  lemma {:induction false} LogSizeCovers(rs: seq<Range>, i: nat)
    requires i < |rs|
    ensures ChunksFor(rs[i]) <= LogSizeFor(rs)
  {
    if i > 0 {
      LogSizeCovers(rs[1..], i - 1);
    }
  }

  /** No smaller log would do. */
  lemma {:induction false} LogSizeIsNeeded(rs: seq<Range>) returns (i: nat)
    requires LogSizeFor(rs) > 0
    ensures i < |rs| && (LogSizeFor(rs) - 1) * CHUNK <= rs[i].first + rs[i].size - 1 < LogSizeFor(rs) * CHUNK
  {
    if ChunksFor(rs[0]) == LogSizeFor(rs) {
      i := 0;
    } else {
      i := LogSizeIsNeeded(rs[1..]);
      i := i + 1;
    }
  }

  lemma {:induction false} LogSizeAppend(a: seq<Range>, b: seq<Range>)
    ensures LogSizeFor(a + b) == Max(LogSizeFor(a), LogSizeFor(b))
  {
    if a == [] {
      assert a + b == b;
    } else {
      ConcatTail(a, b);
      LogSizeAppend(a[1..], b);
    }
  }

  /**
   * The used part of a ring. One that is not set up has address and size 0; its last address wraps around, so that it
   * stands for the whole address space.
   */
  function Ring(phys: U64, size: nat): (r: Range)
    requires size > 0 || phys == 0
    ensures phys + size <= TWO64 ==> Last(r) == (phys + size - 1) % TWO64
  {
    Range(phys, if size == 0 then TWO64 else size)
  }

  lemma {:induction false} LogSizeBounded(rs: seq<Range>)
    requires forall i | 0 <= i < |rs| :: Last(rs[i]) < TWO64
    ensures LogSizeFor(rs) <= TWO64 / CHUNK
  {
    if rs != [] {
      LogSizeBounded(rs[1..]);
    }
  }

  /** With a ring that is not set up the log has 2^46 chunks, whatever the map. */
  lemma UnsetRingSize(rs: seq<Range>, i: nat)
    requires i < |rs| && rs[i] == Ring(0, 0) && forall k | 0 <= k < |rs| :: Last(rs[k]) < TWO64
    ensures LogSizeFor(rs) == 0x4000_0000_0000
  {
    LogSizeCovers(rs, i);
    LogSizeBounded(rs);
  }

  /** No range reaches beyond a log of `size` chunks, or the sync is limited to addresses up to `last` inside it. */
  ghost predicate SyncInLog(rs: seq<Range>, last: int, size: int) {
    LogSizeFor(rs) <= size || last < size * CHUNK
  }

  /** Both asserts of the region sync hold in a log that is large enough, and in an old one whose range is respected. */
  lemma AssertsHold(rs: seq<Range>, i: nat, start: nat, end: int, last: int, size: nat)
    requires i < |rs| && SyncInLog(rs, last, size) && end <= last
    ensures InLog(start, end, rs[i].first, Last(rs[i]), size)
  {
    LogSizeCovers(rs, i);
  }

  class Log {
    const size: nat
    const chunks: array<Word>
    var refcnt: int
    ghost var freed: bool     // the log itself ...
    ghost var released: bool  // ... and the memory of its chunks

    constructor (size: nat)
      ensures this.size == size && chunks.Length == size && refcnt == 1 && !freed && !released && fresh(chunks)
      ensures forall c | 0 <= c < size :: chunks[c] == {}
    {
      this.size := size;
      chunks := new Word[size](_ => {});
      refcnt, freed, released := 1, false, false;
    }
  }

  class Dev {
    const shared: bool
    var started: bool
    var logEnabled: bool
    var sections: seq<Section>
    var regions: seq<Range>
    var vqs: seq<Range>
    var log: Log?
    var logSize: nat

    constructor (shared: bool)
      ensures this.shared == shared && !started && !logEnabled && log == null && logSize == 0
      ensures sections == [] && regions == [] && vqs == []
    {
      this.shared, started, logEnabled, log, logSize := shared, false, false, null, 0;
      sections, regions, vqs := [], [], [];
    }

    ghost predicate LogFits()
      reads this
    {
      if log == null then logSize == 0 else log.size == log.chunks.Length == logSize
    }

    /** While the device runs with logging on, its log covers every region and every ring. */
    ghost predicate Covered()
      reads this
    {
      started && logEnabled ==> log != null && LogSizeFor(regions + vqs) <= logSize
    }

    /** The region table describes the sections. */
    ghost predicate Mapped()
      reads this
    {
      NonEmpty(sections) && regions == RangesOf(sections)
    }

    /** No more of the log is left over than a change of the map permits. */
    ghost predicate Tight(buffer: nat)
      reads this
    {
      started && logEnabled ==> logSize <= LogSizeFor(regions + vqs) + buffer
    }

    ghost predicate Valid()
      reads this
    {
      LogFits() && Mapped() && Covered() && (!started ==> log == null)
    }

    /** The region table is rebuilt from the sections. */
    method SetSections(ss: seq<Section>)
      requires NonEmpty(ss)
      modifies `sections, `regions
      ensures Mapped() && sections == ss
    {
      sections := ss;
      var table: seq<Range> := [];
      for i := 0 to |sections|
        invariant sections == ss && |table| == i
        invariant forall k | 0 <= k < i :: table[k] == Range(ss[k].gpa, ss[k].size)
      {
        table := table + [Range(sections[i].gpa, sections[i].size)];
      }
      regions := table;
    }

    /** vhost_get_log_size: over the regions, then over the rings. */
    method GetLogSize() returns (n: nat)
      ensures n == LogSizeFor(regions + vqs)
    {
      n := 0;
      for i := 0 to |regions|
        invariant n == LogSizeFor(regions[..i])
      {
        LogSizeAppend(regions[..i], [regions[i]]);
        assert regions[..i + 1] == regions[..i] + [regions[i]];
        n := Max(n, ChunksFor(regions[i]));
      }
      assert regions[..|regions|] == regions;
      for i := 0 to |vqs|
        invariant n == Max(LogSizeFor(regions), LogSizeFor(vqs[..i]))
      {
        LogSizeAppend(vqs[..i], [vqs[i]]);
        assert vqs[..i + 1] == vqs[..i] + [vqs[i]];
        n := Max(n, ChunksFor(vqs[i]));
      }
      assert vqs[..|vqs|] == vqs;
      LogSizeAppend(regions, vqs);
    }

    /** The sweeps of one section against all regions and rings, limited to the addresses first..last. */
    ghost function Sweeps(section: Section, first: nat, last: int): seq<Sweep>
      reads this
    {
      SectionSweeps(section, first, last, regions + vqs, |regions + vqs|)
    }

    /** vhost_sync_dirty_bitmap for one section, limited to the addresses first..last. */
    method SyncDirtyBitmap(section: Section, first: nat, last: int) returns (marked: seq<Mark>)
      requires LogFits()
      requires started && logEnabled ==> log != null && SyncInLog(regions + vqs, last, logSize)
      modifies if log == null then {} else {log.chunks}
      ensures !(started && logEnabled) ==> marked == []
      ensures !(started && logEnabled) && log != null ==> log.chunks[..] == old(log.chunks[..])
      ensures started && logEnabled ==>
                && Inside(Sweeps(section, first, last), logSize)
                && (log.chunks[..], marked) == Swept(old(log.chunks[..]), Sweeps(section, first, last))
    {
      marked := [];
      if !logEnabled || !started {
        return;
      }
      ghost var was, rs := log.chunks[..], regions + vqs;
      assert rs[0..|regions|] == regions && rs[|regions|..|regions| + |vqs|] == vqs;
      marked := SyncRanges(section, first, last, regions, [], was, rs, 0);
      marked := SyncRanges(section, first, last, vqs, marked, was, rs, |regions|);
    }

    /** The loop over the regions, and that over the rings, which come behind them. */
    method SyncRanges(section: Section, first: nat, last: int, part: seq<Range>, before: seq<Mark>,
                      ghost was: seq<Word>, ghost rs: seq<Range>, ghost k: nat) returns (marked: seq<Mark>)
      requires LogFits() && log != null && SyncInLog(rs, last, logSize)
      requires k + |part| <= |rs| && part == rs[k..k + |part|]
      requires SweptSoFar(was, log.chunks[..], section, first, last, rs, k, before)
      modifies log.chunks
      ensures SweptSoFar(was, log.chunks[..], section, first, last, rs, k + |part|, marked)
    {
      marked := before;
      for i := 0 to |part|
        invariant SweptSoFar(was, log.chunks[..], section, first, last, rs, k + i, marked)
      {
        var more := SyncRange(section, first, last, part[i], was, rs, k + i, marked);
        marked := marked + more;
      }
    }

    /** One range of it. */
    method SyncRange(section: Section, first: nat, last: int, r: Range,
                     ghost was: seq<Word>, ghost rs: seq<Range>, ghost k: nat, ghost marked: seq<Mark>)
      returns (more: seq<Mark>)
      requires LogFits() && log != null && SyncInLog(rs, last, logSize) && k < |rs| && r == rs[k]
      requires SweptSoFar(was, log.chunks[..], section, first, last, rs, k, marked)
      modifies log.chunks
      ensures SweptSoFar(was, log.chunks[..], section, first, last, rs, k + 1, marked + more)
    {
      ghost var now := log.chunks[..];
      var start, end := Max(first, section.gpa), Min(last, SectionLast(section));
      assert InLog(start, end, r.first, Last(r), logSize) by { AssertsHold(rs, k, start, end, last, logSize); }
      more := SyncRegion(log.chunks, logSize, section, start, end, r.first, Last(r));
      SweptNext(was, now, log.chunks[..], section, first, last, rs, k, marked, more);
    }

    /** vhost_log_sync: the whole address space; the asserts hold because the log covers everything. */
    method LogSync(section: Section) returns (marked: seq<Mark>)
      requires Valid()
      modifies if log == null then {} else {log.chunks}
      ensures started && logEnabled ==>
                var ws := Sweeps(section, 0, 0xFFFF_FFFF_FFFF_FFFF);
                Inside(ws, logSize) && (log.chunks[..], marked) == Swept(old(log.chunks[..]), ws)
    {
      marked := SyncDirtyBitmap(section, 0, 0xFFFF_FFFF_FFFF_FFFF);
    }

    /** vhost_log_sync_range over the whole log. */
    method LogSyncRange(first: nat, last: int) returns (marked: seq<Mark>)
      requires LogFits()
      requires started && logEnabled ==> log != null && SyncInLog(regions + vqs, last, logSize)
      modifies if log == null then {} else {log.chunks}
      ensures started && logEnabled && first == 0 && last == logSize * CHUNK - 1 ==>
                marked == Reported(old(log.chunks[..]), sections, regions + vqs)
    {
      marked := [];
      if !started || !logEnabled {
        for i := 0 to |sections| {
          var more := SyncDirtyBitmap(sections[i], first, last);
        }
        return;
      }
      ghost var was, rs := log.chunks[..], regions + vqs;
      for i := 0 to |sections|
        invariant SyncedSoFar(was, log.chunks[..], sections, first, last, rs, i, marked)
      {
        ghost var now := log.chunks[..];
        var more := SyncDirtyBitmap(sections[i], first, last);
        SyncedNext(was, now, sections, first, last, rs, i, marked);
        marked := marked + more;
      }
    }
  }

  // ----- all devices -----

  /** How many devices hold `l`. */
  ghost function Holders(held: seq<Log?>, l: Log): nat {
    if held == [] then 0 else (if held[0] == l then 1 else 0) + Holders(held[1..], l)
  }

  lemma {:induction false} HoldersUpdate(held: seq<Log?>, i: nat, x: Log?, l: Log)
    requires i < |held|
    ensures Holders(held[i := x], l) + (if held[i] == l then 1 else 0) == Holders(held, l) + (if x == l then 1 else 0)
  {
    if i == 0 {
      assert held[0 := x][1..] == held[1..];
    } else {
      HoldersUpdate(held[1..], i - 1, x, l);
      assert held[i := x][1..] == held[1..][i - 1 := x];
    }
  }

  lemma {:induction false} HeldHasHolder(held: seq<Log?>, i: nat, l: Log)
    requires i < |held| && held[i] == l
    ensures Holders(held, l) > 0
  {
    if i > 0 {
      HeldHasHolder(held[1..], i - 1, l);
    }
  }

  /** The device holds the log `l`, with the right size, and, if asked, one that fits its memory. */
  ghost predicate InOrder(d: Dev, l: Log?, fits: bool, buffer: nat)
    reads d
  {
    d.log == l && d.LogFits() && d.Mapped() && (!d.started ==> d.log == null) && (fits ==> d.Covered() && d.Tight(buffer))
  }

  /**
   * What giving up a log means for its contents: a freed log has been reported for the device, if that was asked for
   * and the device logs; any other keeps all its bits for its other holders.
   */
  ghost predicate Settled(l: Log, was: seq<Word>, d: Dev, sync: bool, marks: seq<Mark>)
    reads l, l.chunks, d`started, d`logEnabled, d`sections, d`regions, d`vqs
  {
    if l.freed then sync && d.started && d.logEnabled ==> marks == Reported(was, d.sections, d.regions + d.vqs)
    else l.chunks[..] == was
  }

  /**
   * What a device reports of the dirty pages of `before`, the sections of its previous map: now, of a log that is freed,
   * or in a sync of a log that is kept. They are marked where `before` has them exactly when the present
   * sections attribute their chunk to that place.
   */
  ghost predicate Accounted(l: Log, was: seq<Word>, d: Dev, before: seq<Section>, marks: seq<Mark>)
    reads l, l.chunks, d`started, d`logEnabled, d`sections, d`regions, d`vqs
  {
    if l.freed then d.started && d.logEnabled ==> Carried(was, before, d.sections, marks)
    else l.chunks[..] == was && Carried(was, before, d.sections, Reported(l.chunks[..], d.sections, d.regions + d.vqs))
  }

  lemma SettledAccounts(l: Log, was: seq<Word>, d: Dev, before: seq<Section>, marks: seq<Mark>)
    requires d.Mapped() && Settled(l, was, d, true, marks)
    ensures Accounted(l, was, d, before, marks)
  {
    ReportedAcrossMaps(was, before, d.sections, d.vqs);
  }

  class Vhost {
    const buffer: nat      // VHOST_LOG_BUFFER
    const devs: seq<Dev>   // vhost_devices
    var vhostLog: Log?
    var vhostLogShm: Log?
    ghost var logs: set<Log>   // every log ever allocated
    ghost var held: seq<Log?>  // dev->log of each device

    constructor (buffer: nat, devs: seq<Dev>)
      requires forall i, j | 0 <= i < j < |devs| :: devs[i] != devs[j]
      requires forall i | 0 <= i < |devs| :: devs[i].Valid() && devs[i].Tight(buffer) && devs[i].log == null
      ensures Valid() && this.devs == devs && this.buffer == buffer
    {
      this.buffer, this.devs, vhostLog, vhostLogShm := buffer, devs, null, null;
      logs, held := {}, seq(|devs|, _ => null);
    }

    /** Reference counts, with one reference to `extra` that no device holds yet. A log is freed when nobody holds it. */
    ghost predicate Counted(extra: Log?)
      reads this, logs
    {
      LogsOk() && forall l | l in logs :: l.refcnt == Holders(held, l) + (if l == extra then 1 else 0)
    }

    /** The two global logs are distinct and never freed ones. */
    ghost predicate LogsOk()
      reads this, logs
    {
      && (forall l | l in logs :: (l.freed <==> l.refcnt == 0) && (l.released ==> l.freed) && l.chunks.Length == l.size)
      && (vhostLog != null ==> vhostLog in logs && !vhostLog.freed && vhostLog != vhostLogShm)
      && (vhostLogShm != null ==> vhostLogShm in logs && !vhostLogShm.freed)
    }

    /** Every device is in order, the i-th one up to the log size that is being re-established. */
    ghost predicate DevicesOk(i: int)
      reads this, devs
    {
      && |held| == |devs|
      && (forall j, k | 0 <= j < k < |devs| :: devs[j] != devs[k])
      && (forall j | 0 <= j < |devs| :: InOrder(devs[j], held[j], j != i, buffer))
      && (forall j | 0 <= j < |held| :: held[j] != null ==> held[j] in logs)
    }

    ghost predicate Valid()
      reads this, devs, logs
    {
      DevicesOk(-1) && Counted(null)
    }

    ghost function Chunks(): set<array<Word>>
      reads this
    {
      set l | l in logs :: l.chunks
    }

    /** No device holds a freed log, and each log counts exactly its holders. */
    lemma NoDanglingLog(i: nat)
      requires Valid() && i < |devs| && devs[i].log != null
      ensures !devs[i].log.freed && devs[i].log.refcnt == Holders(held, devs[i].log) > 0
    {
      assert InOrder(devs[i], held[i], true, buffer);
      HeldHasHolder(held, i, devs[i].log);
    }

    ghost function Global(share: bool): Log?
      reads this
    {
      if share then vhostLogShm else vhostLog
    }

    /** The global log if it has the right size, with one more reference, or else a new one without any bit set. */
    method LogGet(size: nat, share: bool, ghost i: int) returns (log: Log)
      requires DevicesOk(i) && Counted(null)
      modifies this, logs
      ensures DevicesOk(i) && Counted(log) && log in logs && log.size == size && held == old(held)
      ensures if old(Global(share)) != null && old(Global(share)).size == size
              then log == old(Global(share)) && logs == old(logs)
              else
                && fresh(log) && fresh(log.chunks) && logs == old(logs) + {log}
                && forall c | 0 <= c < size :: log.chunks[c] == {}
      ensures Global(share) == log && Global(!share) == old(Global(!share))
      ensures forall l | l in old(logs) :: l.freed == old(l.freed) && l.released == old(l.released)
    {
      hide Holders;
      var l := if share then vhostLogShm else vhostLog;
      if l == null || l.size != size {
        log := new Log(size);
        NotHeld(log);
        if share {
          vhostLogShm := log;
        } else {
          vhostLog := log;
        }
        logs := logs + {log};
      } else {
        log := l;
        log.refcnt := log.refcnt + 1;
      }
    }

    lemma NotHeld(l: Log)
      requires |held| == |devs| && (forall j | 0 <= j < |devs| :: held[j] != null ==> held[j] in logs) && l !in logs
      ensures Holders(held, l) == 0
    {
      NoHolders(held, l);
    }

    /**
     * Drops one reference; the last one syncs the log's own range if asked to, and frees the log. The memory of its
     * chunks goes with it only if the log is still one of the global ones.
     */
    method Unreference(dev: Dev, log: Log, sync: bool) returns (marks: seq<Mark>)
      requires LogsOk() && log in logs && log.refcnt > 0 && dev.log == log && dev.LogFits()
      modifies `vhostLog, `vhostLogShm, log, log.chunks
      ensures LogsOk() && log.refcnt == old(log.refcnt) - 1
      ensures Settled(log, old(log.chunks[..]), dev, sync, marks)
      ensures log.released <==> log.freed && log in {old(vhostLog), old(vhostLogShm)}
      ensures log.freed ==> log !in {vhostLog, vhostLogShm}
    {
      marks := [];
      log.refcnt := log.refcnt - 1;
      if log.refcnt == 0 {
        marks := LastSync(dev, log, sync);
        if vhostLog == log {
          log.released := true;
          vhostLog := null;
        } else if vhostLogShm == log {
          log.released := true;
          vhostLogShm := null;
        }
        log.freed := true;
      }
    }

    /** Only the range covered by the log is synced. */
    method LastSync(dev: Dev, log: Log, sync: bool) returns (marks: seq<Mark>)
      requires dev.log == log && dev.LogFits()
      modifies log.chunks
      ensures sync && dev.started && dev.logEnabled ==>
                marks == Reported(old(log.chunks[..]), dev.sections, dev.regions + dev.vqs)
    {
      marks := [];
      NothingReported(dev.sections, dev.regions + dev.vqs);
      if dev.logSize != 0 && sync {
        marks := dev.LogSyncRange(0, dev.logSize * CHUNK - 1);
      }
    }

    lemma HoldersAfter(i: nat, x: Log?)
      requires i < |held|
      ensures forall l | l in logs ::
                Holders(held[i := x], l) + (if held[i] == l then 1 else 0) == Holders(held, l) + (if x == l then 1 else 0)
    {
      forall l | l in logs
        ensures Holders(held[i := x], l) + (if held[i] == l then 1 else 0) == Holders(held, l) + (if x == l then 1 else 0)
      {
        HoldersUpdate(held, i, x, l);
      }
    }

    /** The device forgets the log whose reference has been dropped. */
    method Detach(dev: Dev, ghost i: nat, ghost extra: Log?)
      requires i < |devs| && dev == devs[i] && DevicesOk(i) && LogsOk()
      requires forall l | l in logs ::
                 l.refcnt + (if held[i] == l then 1 else 0) == Holders(held, l) + (if l == extra then 1 else 0)
      modifies `held, dev`log, dev`logSize
      ensures DevicesOk(i) && Counted(extra) && dev.log == null
    {
      HoldersAfter(i, null);
      dev.log := null;
      dev.logSize := 0;
      held := held[i := null];
    }

    /** Releases the i-th device's log. */
    method LogPut(dev: Dev, sync: bool, ghost i: nat, ghost extra: Log?) returns (marks: seq<Mark>)
      requires i < |devs| && dev == devs[i] && DevicesOk(i) && Counted(extra)
      modifies this, dev`log, dev`logSize, logs, Chunks()
      ensures DevicesOk(i) && Counted(extra) && dev.log == null && logs == old(logs)
      ensures old(dev.log) != null ==> Settled(old(dev.log), old(dev.log.chunks[..]), dev, sync, marks)
      ensures old(dev.log) != null ==>
                (old(dev.log).released <==> old(dev.log).freed && old(dev.log) in {old(vhostLog), old(vhostLogShm)})
    {
      var log := dev.log;
      marks := [];
      if log == null {
        return;
      }
      HeldHasHolder(held, i, log);
      marks := Unreference(dev, log, sync);
      Detach(dev, i, extra);
    }

    /** Gives the reference that LogGet took to the i-th device. */
    method Attach(dev: Dev, log: Log, size: nat, ghost i: nat)
      requires i < |devs| && dev == devs[i] && DevicesOk(i) && Counted(log)
      requires dev.log == null && dev.started && log in logs && log.size == size
      modifies `held, dev`log, dev`logSize
      ensures DevicesOk(i) && Counted(null) && dev.log == log && dev.logSize == size
    {
      HoldersAfter(i, log);
      dev.log := log;
      dev.logSize := size;
      held := held[i := log];
    }

    /** Switches the i-th device to a log of `size` chunks; the backend is told before the old log is released. */
    method LogResize(dev: Dev, size: nat, ghost i: nat, ghost before: seq<Section>) returns (marks: seq<Mark>)
      requires i < |devs| && dev == devs[i] && DevicesOk(i) && Counted(null) && dev.started
      modifies this, dev`log, dev`logSize, logs, Chunks()
      ensures DevicesOk(i) && Counted(null) && dev.log != null && dev.logSize == size
      ensures old(dev.log) != null ==>
                && Settled(old(dev.log), old(dev.log.chunks[..]), dev, true, marks)
                && Accounted(old(dev.log), old(dev.log.chunks[..]), dev, before, marks)
      ensures old(logs) <= logs && forall l | l in logs :: l in old(logs) || (fresh(l) && fresh(l.chunks))
    {
      hide Settled, Accounted, Counted;
      var log := LogGet(size, dev.shared, i);
      assert InOrder(dev, held[i], false, buffer);
      marks := LogPut(dev, true, i, log);
      Attach(dev, log, size, i);
      if old(dev.log) != null {
        SettledAccounts(old(dev.log), old(dev.log.chunks[..]), dev, before, marks);
      }
    }

    /** The log grows before the backend sees the new table and shrinks after. */
    method FitLog(dev: Dev, ghost i: nat, ghost before: seq<Section>) returns (marks: seq<Mark>)
      requires i < |devs| && dev == devs[i] && DevicesOk(i) && Counted(null) && dev.started && dev.log != null
      modifies this, dev`log, dev`logSize, logs, Chunks()
      ensures DevicesOk(i) && Counted(null) && dev.log != null
      ensures LogSizeFor(dev.regions + dev.vqs) <= dev.logSize <= LogSizeFor(dev.regions + dev.vqs) + buffer
      ensures Settled(old(dev.log), old(dev.log.chunks[..]), dev, true, marks)
      ensures Accounted(old(dev.log), old(dev.log.chunks[..]), dev, before, marks)
    {
      var logSize := dev.GetLogSize();
      marks := [];
      assert !dev.log.freed by { HeldHasHolder(held, i, dev.log); }
      if dev.logSize < logSize {
        marks := LogResize(dev, logSize + buffer, i, before);
      }
      if dev.logSize > logSize + buffer {
        marks := LogResize(dev, logSize, i, before);
      }
      assert InOrder(dev, held[i], false, buffer);
      SettledAccounts(old(dev.log), old(dev.log.chunks[..]), dev, before, marks);
    }

    /** A new section list; when it is the old one, table and log stay as they are. */
    method Commit(dev: Dev, sections: seq<Section>, ghost i: nat) returns (marks: seq<Mark>)
      requires i < |devs| && dev == devs[i] && Valid() && NonEmpty(sections)
      modifies this, dev, logs, Chunks()
      ensures Valid() && dev.sections == sections && dev.regions == RangesOf(sections) && dev.vqs == old(dev.vqs)
      ensures dev.started == old(dev.started) && dev.logEnabled == old(dev.logEnabled)
      ensures dev.started && dev.logEnabled ==>
                && LogSizeFor(dev.regions + dev.vqs) <= dev.logSize <= LogSizeFor(dev.regions + dev.vqs) + buffer
                && Settled(old(dev.log), old(dev.log.chunks[..]), dev, true, marks)
                && Accounted(old(dev.log), old(dev.log.chunks[..]), dev, old(dev.sections), marks)
    {
      hide Settled, Accounted, Counted;
      assert InOrder(dev, held[i], true, buffer);
      ghost var before := dev.sections;
      marks := [];
      if sections == dev.sections {
        if dev.log != null {
          Unchanged(dev, i);
        }
        return;
      }
      dev.SetSections(sections);
      assert DevicesOk(i) && Counted(null);
      if dev.started {
        if dev.logEnabled {
          marks := FitLog(dev, i, before);
        }
      }
      CoveredAgain(i);
    }

    lemma Unchanged(dev: Dev, i: nat)
      requires i < |devs| && dev == devs[i] && Valid() && dev.log != null
      ensures Settled(dev.log, dev.log.chunks[..], dev, true, [])
      ensures Accounted(dev.log, dev.log.chunks[..], dev, dev.sections, [])
    {
      assert InOrder(dev, held[i], true, buffer);
      HeldHasHolder(held, i, dev.log);
      SettledAccounts(dev.log, dev.log.chunks[..], dev, dev.sections, []);
    }

    /** A device that covers its memory again needs no exception. */
    lemma CoveredAgain(i: nat)
      requires i < |devs| && DevicesOk(i) && Counted(null) && devs[i].Covered() && devs[i].Tight(buffer)
      ensures Valid()
    {
    }

    /** Switches dirty logging on or off; `accepted` is whether the backend accepts the new setting. */
    method MigrationLog(dev: Dev, enable: bool, accepted: bool, ghost i: nat) returns (ok: bool)
      requires i < |devs| && dev == devs[i] && Valid()
      modifies this, dev, logs, Chunks()
      ensures Valid() && dev.started == old(dev.started)
      ensures ok <==> accepted || enable == old(dev.logEnabled) || !dev.started
      ensures dev.logEnabled == if ok then enable else old(dev.logEnabled)
      ensures ok && dev.started && enable != old(dev.logEnabled) ==>
                if enable then dev.log != null && dev.logSize == LogSizeFor(dev.regions + dev.vqs) else dev.log == null
    {
      if enable == dev.logEnabled {
        return true;
      }
      if !dev.started {
        dev.logEnabled := enable;
        return true;
      }
      if enable {
        ok := SwitchOn(dev, accepted, i);
      } else {
        ok := SwitchOff(dev, accepted, i);
      }
    }

    method SwitchOff(dev: Dev, accepted: bool, ghost i: nat) returns (ok: bool)
      requires i < |devs| && dev == devs[i] && Valid() && dev.started && dev.logEnabled
      modifies this, dev`log, dev`logSize, dev`logEnabled, logs, Chunks()
      ensures Valid() && ok == accepted && dev.logEnabled == !ok && (ok ==> dev.log == null)
    {
      hide Settled, Accounted, Counted;
      if !accepted {
        return false;
      }
      var marks := LogPut(dev, false, i, null);
      dev.logEnabled := false;
      return true;
    }

    method SwitchOn(dev: Dev, accepted: bool, ghost i: nat) returns (ok: bool)
      requires i < |devs| && dev == devs[i] && Valid() && dev.started && !dev.logEnabled
      modifies this, dev`log, dev`logSize, dev`logEnabled, logs, Chunks()
      ensures Valid() && ok == accepted && dev.logEnabled == ok
      ensures dev.log != null && dev.logSize == LogSizeFor(dev.regions + dev.vqs)
    {
      hide Settled, Accounted, Counted;
      var size := dev.GetLogSize();
      var marks := LogResize(dev, size, i, dev.sections);
      if accepted {
        dev.logEnabled := true;
      }
      CoveredAgain(i);
      return accepted;
    }

    /** Starts a stopped device with its rings; `ready` and `logAccepted` are what the backend answers. */
    method Start(dev: Dev, vqs: seq<Range>, ready: bool, logAccepted: bool, ghost i: nat) returns (ok: bool)
      requires i < |devs| && dev == devs[i] && Valid() && !dev.started
      modifies this, dev, logs, Chunks()
      ensures Valid() && dev.started == ok && dev.logEnabled == old(dev.logEnabled)
      ensures ok <==> ready && (dev.logEnabled ==> logAccepted)
      ensures ok && dev.logEnabled ==> dev.logSize == LogSizeFor(dev.regions + dev.vqs)
    {
      hide Settled, Accounted, Counted, LogSizeFor;
      dev.started := true;
      if !ready {
        dev.started := false;
        return false;
      }
      dev.vqs := vqs;
      ok := true;
      if dev.logEnabled {
        ok := StartLog(dev, logAccepted, i);
        dev.started := ok;
      }
    }

    method StartLog(dev: Dev, logAccepted: bool, ghost i: nat) returns (ok: bool)
      requires i < |devs| && dev == devs[i] && DevicesOk(i) && Counted(null) && dev.started && dev.log == null
      modifies this, dev`log, dev`logSize, logs, Chunks()
      ensures DevicesOk(i) && Counted(null) && ok == logAccepted
      ensures if ok then dev.log != null && dev.logSize == LogSizeFor(dev.regions + dev.vqs) else dev.log == null
    {
      hide Settled, Accounted, Counted;
      var size := dev.GetLogSize();
      var log := LogGet(size, dev.shared, i);
      Attach(dev, log, size, i);
      if !logAccepted {
        var marks := LogPut(dev, false, i, null);
      }
      return logAccepted;
    }

    method Stop(dev: Dev, ghost i: nat) returns (marks: seq<Mark>)
      requires i < |devs| && dev == devs[i] && Valid()
      modifies this, dev, logs, Chunks()
      ensures Valid() && !dev.started && dev.log == null
      ensures old(dev.log) != null && old(dev.log).freed && old(dev.started) && dev.logEnabled ==>
                marks == Reported(old(dev.log.chunks[..]), dev.sections, dev.regions + dev.vqs)
    {
      hide Counted, Accounted;
      marks := LogPut(dev, true, i, null);
      dev.started := false;
    }
  }

  lemma {:induction false} NoHolders(held: seq<Log?>, l: Log)
    requires forall j | 0 <= j < |held| :: held[j] != l
    ensures Holders(held, l) == 0
  {
    if held != [] {
      NoHolders(held[1..], l);
    }
  }
}

/** The vhost dirty log: chunks of page bits that are fetched, reported and cleared. */
module VhostDirtyLog {
  import opened Bytes
  import opened VhostSection

  const PAGE := 0x1000
  const BITS := 64
  const CHUNK := PAGE * BITS

  type Bit = n: nat | n < BITS

  /** A log word, as the set of the positions of its one bits. */
  type Word = set<Bit>

  // ----- specification -----

  /** Count of trailing zeros at or behind position k. */
  function TrailingZeros(w: Word, k: Bit): (b: Bit)
    requires exists i | i in w :: k <= i
    ensures b in w && k <= b && forall i | i in w && k <= i :: b <= i
    decreases BITS - k
  {
    if k in w then k else assert forall i | i in w && k <= i :: k + 1 <= i < BITS; TrailingZeros(w, k + 1)
  }

  function LowestBit(w: Word): (b: Bit)
    requires w != {}
    ensures b in w && forall i | i in w :: b <= i
  {
    assert exists i | i in w :: 0 <= i by { var i :| i in w; assert 0 <= i; }
    TrailingZeros(w, 0)
  }

  /** The one bits of a word, lowest first. */
  function Ascending(w: Word): seq<Bit>
    decreases |w|
  {
    if w == {} then [] else [LowestBit(w)] + Ascending(w - {LowestBit(w)})
  }

  function PageAddress(chunk: nat, b: Bit): nat { chunk * CHUNK + b * PAGE }

  function Pages(chunk: nat, bits: seq<Bit>): (ps: seq<nat>)
    ensures |ps| == |bits| && forall i | 0 <= i < |ps| :: ps[i] == PageAddress(chunk, bits[i])
  {
    if bits == [] then [] else [PageAddress(chunk, bits[0])] + Pages(chunk, bits[1..])
  }

  /** The dirty pages of the chunks from `from` up to, not including, `upTo`. */
  function DirtyPages(log: seq<Word>, from: nat, upTo: nat): seq<nat>
    requires from <= upTo <= |log|
    decreases upTo - from
  {
    if from == upTo then [] else Pages(from, Ascending(log[from])) + DirtyPages(log, from + 1, upTo)
  }

  ghost predicate InWord(chunk: nat, w: Word, p: nat) {
    exists b: Bit | b in w :: p == PageAddress(chunk, b)
  }

  /** Page address `p` belongs to a set bit of those chunks. */
  ghost predicate IsDirty(log: seq<Word>, from: nat, upTo: nat, p: nat)
    requires from <= upTo <= |log|
  {
    exists c: nat | from <= c < upTo :: InWord(c, log[c], p)
  }

  function Cleared(log: seq<Word>, from: nat, upTo: nat): (r: seq<Word>)
    requires upTo <= |log|
    ensures |r| == |log|
    ensures forall c | 0 <= c < |r| :: r[c] == if from <= c < upTo then {} else log[c]
  {
    seq(|log|, c requires 0 <= c < |log| => if from <= c < upTo then {} else log[c])
  }

  predicate Increasing(s: seq<nat>) {
    forall i, j | 0 <= i < j < |s| :: s[i] < s[j]
  }

  lemma {:induction false} AscendingIsComplete(w: Word)
    ensures forall b: Bit :: b in Ascending(w) <==> b in w
    decreases |w|
  {
    if w != {} {
      AscendingIsComplete(w - {LowestBit(w)});
    }
  }

  lemma {:induction false} AscendingIncreases(w: Word)
    ensures forall i, j | 0 <= i < j < |Ascending(w)| :: Ascending(w)[i] < Ascending(w)[j]
    decreases |w|
  {
    if w != {} {
      var m, rest := LowestBit(w), Ascending(w - {LowestBit(w)});
      AscendingIncreases(w - {m});
      forall i, j | 0 <= i < j < |[m] + rest| ensures ([m] + rest)[i] < ([m] + rest)[j] {
        if i == 0 {
          AboveLowest(w, rest[j - 1]);
        } else {
          assert rest[i - 1] < rest[j - 1];
        }
      }
    }
  }

  lemma AboveLowest(w: Word, b: Bit)
    requires w != {} && b in Ascending(w - {LowestBit(w)})
    ensures LowestBit(w) < b
  {
    AscendingIsComplete(w - {LowestBit(w)});
    assert b in w && b != LowestBit(w);
  }

  /** All pages lie in the chunks from `from` up to, not including, `upTo`. */
  ghost predicate InChunks(ps: seq<nat>, from: nat, upTo: nat) {
    forall i | 0 <= i < |ps| :: from * CHUNK <= ps[i] < upTo * CHUNK
  }

  lemma PagesInOrder(chunk: nat, w: Word)
    ensures Increasing(Pages(chunk, Ascending(w))) && InChunks(Pages(chunk, Ascending(w)), chunk, chunk + 1)
  {
    AscendingIncreases(w);
    var bits, ps := Ascending(w), Pages(chunk, Ascending(w));
    forall i, j | 0 <= i < j < |ps| ensures ps[i] < ps[j] {
      assert bits[i] < bits[j];
    }
  }

  lemma PagesOfWord(chunk: nat, w: Word, p: nat)
    ensures p in Pages(chunk, Ascending(w)) <==> InWord(chunk, w, p)
  {
    AscendingIsComplete(w);
    var bits, ps := Ascending(w), Pages(chunk, Ascending(w));
    if p in ps {
      var i :| 0 <= i < |ps| && ps[i] == p;
      assert bits[i] in w;
    }
    if InWord(chunk, w, p) {
      var b: Bit :| b in w && p == PageAddress(chunk, b);
      var i :| 0 <= i < |bits| && bits[i] == b;
      assert ps[i] == PageAddress(chunk, b);
    }
  }

  lemma InOrderAppend(a: seq<nat>, b: seq<nat>, from: nat, mid: nat, upTo: nat)
    requires Increasing(a) && Increasing(b) && InChunks(a, from, mid) && InChunks(b, mid, upTo) && from <= mid <= upTo
    ensures Increasing(a + b) && InChunks(a + b, from, upTo)
  {
    forall i, j | 0 <= i < j < |a + b| ensures (a + b)[i] < (a + b)[j] {
      if i < |a| <= j {
        assert a[i] < mid * CHUNK <= b[j - |a|];
      }
    }
  }

  lemma NoPagesInOrder(from: nat)
    ensures Increasing([]) && InChunks([], from, from)
  {
  }

  /** The pages reported lie in the chunks of the range, in address order. */
  lemma {:induction false} ReportsInOrder(log: seq<Word>, from: nat, upTo: nat)
    requires from <= upTo <= |log|
    ensures Increasing(DirtyPages(log, from, upTo)) && InChunks(DirtyPages(log, from, upTo), from, upTo)
    decreases upTo - from
  {
    hide Increasing, InChunks, Pages, Ascending;
    if from == upTo {
      NoPagesInOrder(from);
    } else {
      ReportsInOrder(log, from + 1, upTo);
      PagesInOrder(from, log[from]);
      InOrderAppend(Pages(from, Ascending(log[from])), DirtyPages(log, from + 1, upTo), from, from + 1, upTo);
    }
  }

  /** Exactly the set bits of the range are reported, each once, in address order, at its own page. */
  lemma {:induction false} ReportsExactly(log: seq<Word>, from: nat, upTo: nat)
    requires from <= upTo <= |log|
    ensures Increasing(DirtyPages(log, from, upTo))
    ensures forall p: nat :: (p in DirtyPages(log, from, upTo) <==> IsDirty(log, from, upTo, p))
    decreases upTo - from
  {
    ReportsInOrder(log, from, upTo);
    if from < upTo {
      ReportsExactly(log, from + 1, upTo);
      forall p: nat ensures p in DirtyPages(log, from, upTo) <==> IsDirty(log, from, upTo, p) {
        PagesOfWord(from, log[from], p);
        assert p in DirtyPages(log, from, upTo) <==>
               p in Pages(from, Ascending(log[from])) || p in DirtyPages(log, from + 1, upTo);
        IsDirtyStep(log, from, upTo, p);
      }
    }
  }

  lemma IsDirtyStep(log: seq<Word>, from: nat, upTo: nat, p: nat)
    requires from < upTo <= |log|
    ensures IsDirty(log, from, upTo, p) <==> InWord(from, log[from], p) || IsDirty(log, from + 1, upTo, p)
  {
  }

  // ----- synchronising a range -----

  /** A page marked dirty: which page of the log it was, and the region and offset it is marked at. */
  datatype Mark = Mark(page: nat, mr: MemoryRegion, offset: int)

  /** The offset a page would have in the section's region; outside the section it may not belong there. */
  function MrOffset(s: Section, page: nat): int { page - s.gpa + s.off }

  /** The mark is as far into the section's region, beyond the section's offset, as the page is beyond its address. */
  function MarkFor(s: Section, page: nat): (m: Mark)
    ensures m.page == page && m.mr == s.mr && m.offset - s.off == page - s.gpa
  {
    Mark(page, s.mr, MrOffset(s, page))
  }

  function Marks(s: Section, pages: seq<nat>): (ms: seq<Mark>)
    ensures |ms| == |pages| && forall i | 0 <= i < |ms| :: ms[i] == MarkFor(s, pages[i])
  {
    if pages == [] then [] else [MarkFor(s, pages[0])] + Marks(s, pages[1..])
  }

  lemma {:induction false} MarksAppend(s: Section, a: seq<nat>, b: seq<nat>)
    ensures Marks(s, a + b) == Marks(s, a) + Marks(s, b)
  {
    if a == [] {
      assert a + b == b;
    } else {
      ConcatTail(a, b);
      MarksAppend(s, a[1..], b);
    }
  }

  /** Exactly the dirty pages of the range are marked, each at its place in the section's region. */
  lemma MarksExactly(log: seq<Word>, s: Section, from: nat, upTo: nat, m: Mark)
    requires from <= upTo <= |log|
    ensures m in Marks(s, DirtyPages(log, from, upTo)) <==>
            IsDirty(log, from, upTo, m.page) && m.mr == s.mr && m.offset - s.off == m.page - s.gpa
  {
    var pages, ms := DirtyPages(log, from, upTo), Marks(s, DirtyPages(log, from, upTo));
    ReportsExactly(log, from, upTo);
    if m in ms {
      var i :| 0 <= i < |ms| && ms[i] == m;
      assert pages[i] == m.page;
    }
    if m.page in pages && m == MarkFor(s, m.page) {
      var i :| 0 <= i < |pages| && pages[i] == m.page;
      assert ms[i] == m;
    }
  }

  function WordMarks(s: Section, chunk: nat, w: Word): seq<Mark> { Marks(s, Pages(chunk, Ascending(w))) }

  /** What is reported together with the bits that are left makes up `goal`. */
  ghost predicate Reporting(s: Section, chunk: nat, w: Word, marked: seq<Mark>, goal: seq<Mark>) {
    marked + WordMarks(s, chunk, w) == goal
  }

  lemma ReportingStarts(s: Section, chunk: nat, w: Word)
    ensures Reporting(s, chunk, w, [], WordMarks(s, chunk, w))
  {
    assert [] + WordMarks(s, chunk, w) == WordMarks(s, chunk, w);
  }

  lemma ReportingNext(s: Section, chunk: nat, w: Word, left: Word, marked: seq<Mark>, mark: Mark, goal: seq<Mark>)
    requires w != {} && left == w - {LowestBit(w)} && mark == MarkFor(s, PageAddress(chunk, LowestBit(w)))
    requires Reporting(s, chunk, w, marked, goal)
    ensures Reporting(s, chunk, left, marked + [mark], goal) && |left| < |w|
  {
    assert Ascending(w)[1..] == Ascending(left) && Pages(chunk, Ascending(w))[1..] == Pages(chunk, Ascending(left));
    ConcatAssociative(marked, [mark], WordMarks(s, chunk, left));
  }

  lemma ReportingEnds(s: Section, chunk: nat, marked: seq<Mark>, goal: seq<Mark>)
    requires Reporting(s, chunk, {}, marked, goal)
    ensures marked == goal
  {
  }

  /** The offset of a page inside the section, then inside the section's region. */
  method MarkPage(section: Section, pageAddr: nat) returns (mark: Mark)
    ensures mark == MarkFor(section, pageAddr)
    ensures mark == Mark(pageAddr, section.mr, pageAddr - section.gpa + section.off)
  {
    var sectionOffset := pageAddr - section.gpa;
    var mrOffset := sectionOffset + section.off;
    mark := Mark(pageAddr, section.mr, mrOffset);
  }

  /** Reports the fetched word bit by bit, lowest bit first. */
  method ReportWord(fetched: Word, section: Section, chunk: nat, addr: nat) returns (marked: seq<Mark>)
    requires addr == chunk * CHUNK
    ensures marked == WordMarks(section, chunk, fetched)
  {
    var log := fetched;
    marked := [];
    ghost var goal := WordMarks(section, chunk, fetched);
    ReportingStarts(section, chunk, log);
    while log != {}
      invariant Reporting(section, chunk, log, marked, goal)
      decreases |log|
    {
      var bit := LowestBit(log);
      var mark := MarkPage(section, addr + bit * PAGE);
      ReportingNext(section, chunk, log, log - {bit}, marked, mark, goal);
      marked := marked + [mark];
      log := log - {bit};
    }
    ReportingEnds(section, chunk, marked, goal);
  }

  /** One turn of the outer loop: a word that is not zero is exchanged with zero and reported. */
  method SyncChunk(log: array<Word>, section: Section, c: nat, addr: nat) returns (marked: seq<Mark>)
    requires c < log.Length && addr == c * CHUNK
    modifies log
    ensures marked == WordMarks(section, c, old(log[c]))
    ensures log[..] == old(log[..])[c := {}]
  {
    marked := [];
    if log[c] != {} {
      var fetched := log[c];
      log[c] := {};
      marked := ReportWord(fetched, section, c, addr);
    }
  }

  lemma NextChunk(log: seq<Word>, section: Section, from: nat, upTo: nat)
    requires from < upTo <= |log|
    ensures Marks(section, DirtyPages(log, from, upTo)) ==
            WordMarks(section, from, log[from]) + Marks(section, DirtyPages(log, from + 1, upTo))
  {
    MarksAppend(section, Pages(from, Ascending(log[from])), DirtyPages(log, from + 1, upTo));
  }

  lemma ClearedNext(log: seq<Word>, first: nat, from: nat)
    requires first <= from < |log|
    ensures Cleared(log, first, from)[from] == log[from]
    ensures Cleared(log, first, from)[from := {}] == Cleared(log, first, from + 1)
    ensures Cleared(log, first, first) == log
  {
  }

  /** Chunks first..from are cleared and reported; what is reported together with what is left makes up `goal`. */
  ghost predicate Chunked(was: seq<Word>, now: seq<Word>, section: Section, first: nat, from: nat, upTo: nat,
                         marked: seq<Mark>, goal: seq<Mark>) {
    && first <= from <= upTo <= |was| && now == Cleared(was, first, from)
    && marked + Marks(section, DirtyPages(was, from, upTo)) == goal
  }

  lemma ChunkedNext(was: seq<Word>, now: seq<Word>, section: Section, first: nat, from: nat, upTo: nat,
                   marked: seq<Mark>, goal: seq<Mark>)
    requires Chunked(was, now, section, first, from, upTo, marked, goal) && from < upTo
    ensures var here := WordMarks(section, from, now[from]);
      Chunked(was, now[from := {}], section, first, from + 1, upTo, marked + here, goal)
  {
    ClearedNext(was, first, from);
    NextChunk(was, section, from, upTo);
    ConcatAssociative(marked, WordMarks(section, from, was[from]), Marks(section, DirtyPages(was, from + 1, upTo)));
  }

  lemma ChunkedEnds(was: seq<Word>, now: seq<Word>, section: Section, first: nat, upTo: nat, marked: seq<Mark>,
                   goal: seq<Mark>)
    requires Chunked(was, now, section, first, upTo, upTo, marked, goal)
    ensures marked == goal && now == Cleared(was, first, upTo)
  {
    assert marked + [] == marked;
  }

  method SyncChunks(log: array<Word>, section: Section, first: nat, upTo: nat, addr0: nat) returns (marked: seq<Mark>)
    requires first <= upTo <= log.Length && addr0 == first * CHUNK
    modifies log
    ensures marked == Marks(section, DirtyPages(old(log[..]), first, upTo))
    ensures log[..] == Cleared(old(log[..]), first, upTo)
  {
    var from, addr := first, addr0;
    marked := [];
    ghost var was, goal := log[..], Marks(section, DirtyPages(log[..], first, upTo));
    while from < upTo
      invariant first <= from <= upTo && addr == from * CHUNK
      invariant Chunked(was, log[..], section, first, from, upTo, marked, goal)
    {
      ChunkedNext(was, log[..], section, first, from, upTo, marked, goal);
      var here := SyncChunk(log, section, from, addr);
      marked := marked + here;
      addr := addr + CHUNK;
      from := from + 1;
    }
    ChunkedEnds(was, log[..], section, first, upTo, marked, goal);
  }

  lemma ChunksInLog(start: nat, end: int, logSize: nat)
    requires start <= end && end / CHUNK < logSize
    ensures start / CHUNK < end / CHUNK + 1 <= logSize
  {
  }

  /** The two asserts of vhost_dev_sync_region. */
  predicate InLog(mfirst: nat, mlast: int, rfirst: nat, rlast: int, logSize: nat) {
    Min(mlast, rlast) >= Max(mfirst, rfirst) ==> Min(mlast, rlast) / CHUNK < logSize
  }

  /** The chunks from `from` up to, not including, `upTo` are reported for a section. */
  datatype Sweep = Sweep(section: Section, from: nat, upTo: nat)

  /** The chunks that the overlap of [mfirst, mlast] and [rfirst, rlast] touches. */
  function SweepOf(section: Section, mfirst: nat, mlast: int, rfirst: nat, rlast: int): (w: Sweep)
    ensures w.from <= w.upTo
  {
    var start, end := Max(mfirst, rfirst), Min(mlast, rlast);
    if end < start then Sweep(section, 0, 0) else Sweep(section, start / CHUNK, end / CHUNK + 1)
  }

  /** Reports and clears exactly those chunks. */
  method SyncRegion(log: array<Word>, logSize: nat, section: Section, mfirst: nat, mlast: int, rfirst: nat, rlast: int)
    returns (marked: seq<Mark>)
    requires logSize <= log.Length && InLog(mfirst, mlast, rfirst, rlast, logSize)
    modifies log
    ensures var w := SweepOf(section, mfirst, mlast, rfirst, rlast);
      && w.upTo <= logSize
      && marked == Marks(section, DirtyPages(old(log[..]), w.from, w.upTo))
      && (forall i | 0 <= i < |marked| ::
            marked[i].mr == section.mr && marked[i].offset - section.off == marked[i].page - section.gpa)
      && log[..] == Cleared(old(log[..]), w.from, w.upTo)
  {
    var start, end := Max(mfirst, rfirst), Min(mlast, rlast);
    if end < start {
      assert log[..] == Cleared(log[..], 0, 0);
      return [];
    }
    var from, upTo := start / CHUNK, end / CHUNK + 1;
    ChunksInLog(start, end, logSize);
    marked := SyncChunks(log, section, from, upTo, from * CHUNK);
  }

  // ----- conservation over runs, with the backend writing at any time -----

  /** The log, the word a sync has fetched but not yet fully reported, and the counts of both sides. */
  datatype LogRun = LogRun(
    log: seq<Word>,
    chunk: nat,
    fetched: Word,
    raised: multiset<(nat, Bit)>,   // transitions of a log bit from 0 to 1
    reported: multiset<(nat, Bit)>) // pages marked dirty

  datatype LogEvent =
    | BackendSets(c: nat, b: Bit)  // the backend logs a write to a page
    | Fetch(c: nat)                // atomic exchange of a chunk with 0
    | ReportLowest                 // one turn of the inner loop

  ghost predicate CanStep(r: LogRun, e: LogEvent) {
    match e
    case BackendSets(c, b) => c < |r.log|
    case Fetch(c) => c < |r.log| && r.fetched == {}
    case ReportLowest => r.fetched != {}
  }

  ghost function Step(r: LogRun, e: LogEvent): LogRun
    requires CanStep(r, e)
  {
    match e
    case BackendSets(c, b) =>
      if b in r.log[c] then r
      else r.(log := r.log[c := r.log[c] + {b}], raised := r.raised + multiset{(c, b)})
    case Fetch(c) => r.(log := r.log[c := {}], chunk := c, fetched := r.log[c])
    case ReportLowest =>
      var b := LowestBit(r.fetched);
      r.(fetched := r.fetched - {b}, reported := r.reported + multiset{(r.chunk, b)})
  }

  /** How often the bit is still on its way: in the log, in the fetched word, or both. */
  ghost function OnItsWay(r: LogRun, c: nat, b: Bit): nat {
    (if c < |r.log| && b in r.log[c] then 1 else 0) + (if c == r.chunk && b in r.fetched then 1 else 0)
  }

  ghost predicate Conserved(r: LogRun) {
    forall c: nat, b: Bit :: r.raised[(c, b)] == r.reported[(c, b)] + OnItsWay(r, c, b)
  }

  lemma StepConserves(r: LogRun, e: LogEvent)
    requires CanStep(r, e) && Conserved(r)
    ensures Conserved(Step(r, e)) && |Step(r, e).log| == |r.log|
  {
    var s := Step(r, e);
    forall c: nat, b: Bit ensures s.raised[(c, b)] == s.reported[(c, b)] + OnItsWay(s, c, b) {
      assert r.raised[(c, b)] == r.reported[(c, b)] + OnItsWay(r, c, b);
    }
  }

  ghost predicate IsLogRun(rs: seq<LogRun>, es: seq<LogEvent>) {
    |rs| == |es| + 1 && forall i | 0 <= i < |es| :: CanStep(rs[i], es[i]) && rs[i + 1] == Step(rs[i], es[i])
  }

  /** In every run from an all-zero log, every raised bit is reported once or still on its way; none twice. */
  lemma {:induction false} RunConserves(rs: seq<LogRun>, es: seq<LogEvent>, i: nat)
    requires IsLogRun(rs, es) && i < |rs|
    requires rs[0].fetched == {} && rs[0].raised == rs[0].reported == multiset{}
    requires forall c | 0 <= c < |rs[0].log| :: rs[0].log[c] == {}
    ensures Conserved(rs[i])
  {
    if i > 0 {
      RunConserves(rs, es, i - 1);
      StepConserves(rs[i - 1], es[i - 1]);
    }
  }
}

/** Whole syncs of the dirty log: several sections against several ranges, one after the other. */
module VhostSync {
  import opened Bytes
  import opened VhostDirtyLog
  import opened VhostSection

  type Size = n: nat | n > 0 witness 1

  datatype Range = Range(first: nat, size: Size)

  /** range_get_last */
  function Last(r: Range): int { r.first + r.size - 1 }

  function SectionLast(s: Section): int { s.gpa + s.size - 1 }

  // ----- a sequence of sweeps -----

  ghost predicate Inside(ws: seq<Sweep>, n: nat) {
    forall i | 0 <= i < |ws| :: ws[i].from <= ws[i].upTo <= n
  }

  /** The log and the marks after the sweeps, one after the other. */
  ghost function Swept(log: seq<Word>, ws: seq<Sweep>): (r: (seq<Word>, seq<Mark>))
    requires Inside(ws, |log|)
    ensures |r.0| == |log|
    decreases |ws|
  {
    if ws == [] then (log, [])
    else
      var w, before := ws[|ws| - 1], Swept(log, ws[..|ws| - 1]);
      (Cleared(before.0, w.from, w.upTo), before.1 + Marks(w.section, DirtyPages(before.0, w.from, w.upTo)))
  }

  predicate Covers(w: Sweep, c: nat) { w.from <= c < w.upTo }

  /** The first sweep that touches a chunk. */
  function First(ws: seq<Sweep>, c: nat): (r: Option<Sweep>)
    ensures r.Some? ==> Covers(r.value, c)
    decreases |ws|
  {
    if ws == [] then None
    else
      var before, w := First(ws[..|ws| - 1], c), ws[|ws| - 1];
      if before.Some? then before else if Covers(w, c) then Some(w) else None
  }

  lemma {:induction false} SweptLog(log: seq<Word>, ws: seq<Sweep>, c: nat)
    requires Inside(ws, |log|) && c < |log|
    ensures Swept(log, ws).0[c] == if First(ws, c).Some? then {} else log[c]
    decreases |ws|
  {
    if ws != [] {
      SweptLog(log, ws[..|ws| - 1], c);
    }
  }

  lemma PageAddressInjective(c: nat, b: Bit, c': nat, b': Bit)
    requires PageAddress(c, b) == PageAddress(c', b')
    ensures c == c' && b == b'
  {
  }

  lemma DirtyBit(log: seq<Word>, from: nat, upTo: nat, c: nat, b: Bit)
    requires from <= upTo <= |log| && c < |log|
    ensures IsDirty(log, from, upTo, PageAddress(c, b)) <==> from <= c < upTo && b in log[c]
  {
    var p := PageAddress(c, b);
    if from <= c < upTo && b in log[c] {
      assert InWord(c, log[c], p);
    }
    if IsDirty(log, from, upTo, p) {
      var c': nat :| from <= c' < upTo && InWord(c', log[c'], p);
      var b': Bit :| b' in log[c'] && p == PageAddress(c', b');
      PageAddressInjective(c, b, c', b');
    }
  }

  /** A page is marked exactly when it was dirty and some sweep touches its chunk, and then for the first such sweep. */
  lemma {:induction false} SweptMarks(log: seq<Word>, ws: seq<Sweep>, c: nat, b: Bit, m: Mark)
    requires Inside(ws, |log|) && c < |log| && m.page == PageAddress(c, b)
    ensures m in Swept(log, ws).1 <==>
            b in log[c] && First(ws, c).Some? && m == MarkFor(First(ws, c).value.section, m.page)
    decreases |ws|
  {
    if ws != [] {
      var init, w := ws[..|ws| - 1], ws[|ws| - 1];
      var before := Swept(log, init);
      SweptMarks(log, init, c, b, m);
      SweptLog(log, init, c);
      MarksExactly(before.0, w.section, w.from, w.upTo, m);
      DirtyBit(before.0, w.from, w.upTo, c, b);
    }
  }

  /** Every mark is that of a bit of the log. */
  lemma {:induction false} MarksAreOfTheLog(log: seq<Word>, ws: seq<Sweep>, m: Mark) returns (c: nat, b: Bit)
    requires Inside(ws, |log|) && m in Swept(log, ws).1
    ensures c < |log| && m.page == PageAddress(c, b)
    decreases |ws|
  {
    var init, w := ws[..|ws| - 1], ws[|ws| - 1];
    var before := Swept(log, init);
    if m in before.1 {
      c, b := MarksAreOfTheLog(log, init, m);
    } else {
      MarksExactly(before.0, w.section, w.from, w.upTo, m);
      c :| w.from <= c < w.upTo && InWord(c, before.0[c], m.page);
      b :| b in before.0[c] && m.page == PageAddress(c, b);
    }
  }

  ghost predicate Distinct(ms: seq<Mark>) { forall i, j | 0 <= i < j < |ms| :: ms[i].page != ms[j].page }

  /** No page is marked twice. */
  lemma {:induction false} MarkedOnce(log: seq<Word>, ws: seq<Sweep>)
    requires Inside(ws, |log|)
    ensures Distinct(Swept(log, ws).1)
    decreases |ws|
  {
    if ws != [] {
      var init, w := ws[..|ws| - 1], ws[|ws| - 1];
      var before := Swept(log, init);
      var later := Marks(w.section, DirtyPages(before.0, w.from, w.upTo));
      var all: seq<Mark> := before.1 + later;
      MarkedOnce(log, init);
      ReportsExactly(before.0, w.from, w.upTo);
      forall i, j | 0 <= i < j < |all| ensures all[i].page != all[j].page {
        if i < |before.1| <= j {
          OldIsNotNew(log, init, w, all[i], all[j]);
        }
      }
    }
  }

  /** A page marked before has no bit left to be marked again. */
  lemma OldIsNotNew(log: seq<Word>, init: seq<Sweep>, w: Sweep, m: Mark, n: Mark)
    requires Inside(init, |log|) && w.from <= w.upTo <= |log| && m in Swept(log, init).1
    requires n in Marks(w.section, DirtyPages(Swept(log, init).0, w.from, w.upTo))
    ensures m.page != n.page
  {
    var before := Swept(log, init);
    var c, b := MarksAreOfTheLog(log, init, m);
    SweptMarks(log, init, c, b, m);
    SweptLog(log, init, c);
    MarksExactly(before.0, w.section, w.from, w.upTo, n);
    if n.page == m.page {
      DirtyBit(before.0, w.from, w.upTo, c, b);
    }
  }

  lemma SweptSnoc(log: seq<Word>, ws: seq<Sweep>, w: Sweep)
    requires Inside(ws, |log|) && w.from <= w.upTo <= |log|
    ensures Inside(ws + [w], |log|)
    ensures var before := Swept(log, ws);
      Swept(log, ws + [w]) ==
      (Cleared(before.0, w.from, w.upTo), before.1 + Marks(w.section, DirtyPages(before.0, w.from, w.upTo)))
  {
    assert (ws + [w])[..|ws|] == ws;
  }

  /** Sweeping in two parts is sweeping all of it. */
  lemma {:induction false} SweptAppend(log: seq<Word>, a: seq<Sweep>, b: seq<Sweep>)
    requires Inside(a, |log|) && Inside(b, |log|)
    ensures Inside(a + b, |log|)
    ensures Swept(log, a + b).0 == Swept(Swept(log, a).0, b).0
    ensures Swept(log, a + b).1 == Swept(log, a).1 + Swept(Swept(log, a).0, b).1
    decreases |b|
  {
    hide DirtyPages, Marks;
    var mid := Swept(log, a);
    if b == [] {
      assert a + b == a;
      assert mid.1 + [] == mid.1;
    } else {
      var init, w := b[..|b| - 1], b[|b| - 1];
      var before := Swept(mid.0, init);
      SweptAppend(log, a, init);
      assert a + b == (a + init) + [w] && b == init + [w];
      SweptSnoc(log, a + init, w);
      ConcatAssociative(mid.1, before.1, Marks(w.section, DirtyPages(before.0, w.from, w.upTo)));
    }
  }

  // ----- the sweeps of a sync -----

  /** One section against the first k ranges, limited to the addresses first..last. */
  function SectionSweeps(s: Section, first: nat, last: int, rs: seq<Range>, k: nat): (ws: seq<Sweep>)
    requires k <= |rs|
    ensures |ws| == k
  {
    if k == 0 then []
    else SectionSweeps(s, first, last, rs, k - 1) + [RangeSweep(s, first, last, rs[k - 1])]
  }

  function RangeSweep(s: Section, first: nat, last: int, r: Range): Sweep {
    SweepOf(s, Max(first, s.gpa), Min(last, SectionLast(s)), r.first, Last(r))
  }

  /** The first k sections, each against all ranges. */
  function AllSweeps(ss: seq<Section>, first: nat, last: int, rs: seq<Range>, k: nat): seq<Sweep>
    requires k <= |ss|
  {
    if k == 0 then [] else AllSweeps(ss, first, last, rs, k - 1) + SectionSweeps(ss[k - 1], first, last, rs, |rs|)
  }

  /** The log after the first k ranges of one section. */
  ghost predicate SweptSoFar(was: seq<Word>, now: seq<Word>, s: Section, first: nat, last: int, rs: seq<Range>, k: nat,
                             marked: seq<Mark>) {
    && k <= |rs| && Inside(SectionSweeps(s, first, last, rs, k), |was|)
    && (now, marked) == Swept(was, SectionSweeps(s, first, last, rs, k))
  }

  lemma SweptNext(was: seq<Word>, now: seq<Word>, next: seq<Word>, s: Section, first: nat, last: int, rs: seq<Range>,
                  k: nat, marked: seq<Mark>, more: seq<Mark>)
    requires SweptSoFar(was, now, s, first, last, rs, k, marked) && k < |rs|
    requires var w := RangeSweep(s, first, last, rs[k]);
      w.upTo <= |now| && next == Cleared(now, w.from, w.upTo) && more == Marks(s, DirtyPages(now, w.from, w.upTo))
    ensures SweptSoFar(was, next, s, first, last, rs, k + 1, marked + more)
  {
    SweptSnoc(was, SectionSweeps(s, first, last, rs, k), RangeSweep(s, first, last, rs[k]));
  }

  /** The log after the first k sections. */
  ghost predicate SyncedSoFar(was: seq<Word>, now: seq<Word>, ss: seq<Section>, first: nat, last: int, rs: seq<Range>,
                              k: nat, marked: seq<Mark>) {
    && k <= |ss| && Inside(AllSweeps(ss, first, last, rs, k), |was|)
    && (now, marked) == Swept(was, AllSweeps(ss, first, last, rs, k))
  }

  lemma SyncedNext(was: seq<Word>, now: seq<Word>, ss: seq<Section>, first: nat, last: int, rs: seq<Range>, k: nat,
                   marked: seq<Mark>)
    requires SyncedSoFar(was, now, ss, first, last, rs, k, marked) && k < |ss|
    requires Inside(SectionSweeps(ss[k], first, last, rs, |rs|), |was|)
    ensures var (next, more) := Swept(now, SectionSweeps(ss[k], first, last, rs, |rs|));
      SyncedSoFar(was, next, ss, first, last, rs, k + 1, marked + more)
  {
    SweptAppend(was, AllSweeps(ss, first, last, rs, k), SectionSweeps(ss[k], first, last, rs, |rs|));
  }

  lemma RangeSweepInside(s: Section, r: Range, n: nat)
    ensures RangeSweep(s, 0, n * CHUNK - 1, r).upTo <= n
  {
  }

  lemma {:induction false} SectionSweepsInside(s: Section, rs: seq<Range>, k: nat, n: nat)
    requires k <= |rs|
    ensures Inside(SectionSweeps(s, 0, n * CHUNK - 1, rs, k), n)
  {
    if k > 0 {
      SectionSweepsInside(s, rs, k - 1, n);
      RangeSweepInside(s, rs[k - 1], n);
    }
  }

  lemma {:induction false} AllSweepsInside(ss: seq<Section>, rs: seq<Range>, k: nat, n: nat)
    requires k <= |ss|
    ensures Inside(AllSweeps(ss, 0, n * CHUNK - 1, rs, k), n)
  {
    if k > 0 {
      AllSweepsInside(ss, rs, k - 1, n);
      SectionSweepsInside(ss[k - 1], rs, |rs|, n);
    }
  }

  /** What a sync of the whole log marks. */
  ghost function Reported(log: seq<Word>, ss: seq<Section>, rs: seq<Range>): seq<Mark> {
    AllSweepsInside(ss, rs, |ss|, |log|);
    Swept(log, AllSweeps(ss, 0, |log| * CHUNK - 1, rs, |ss|)).1
  }

  lemma NothingReported(ss: seq<Section>, rs: seq<Range>)
    ensures Reported([], ss, rs) == []
  {
    var marks := Reported([], ss, rs);
    AllSweepsInside(ss, rs, |ss|, 0);
    if marks != [] {
      var c, b := MarksAreOfTheLog([], AllSweeps(ss, 0, -1, rs, |ss|), marks[0]);
      assert false;
    }
  }

  // ----- in which region a page is marked -----

  /** The overlap of section and range touches the chunk. */
  predicate Reaches(s: Section, r: Range, c: nat) {
    var start, end := Max(s.gpa, r.first), Min(SectionLast(s), Last(r));
    start <= end && start / CHUNK <= c <= end / CHUNK
  }

  /** So does that of the section with one of the first k ranges. */
  predicate ReachesOne(s: Section, rs: seq<Range>, k: nat, c: nat)
    requires k <= |rs|
  {
    exists j | 0 <= j < k :: Reaches(s, rs[j], c)
  }

  predicate SectionReaches(s: Section, rs: seq<Range>, c: nat) { ReachesOne(s, rs, |rs|, c) }

  /** The first section, in list order, whose overlap with some range touches the chunk. */
  function FirstSection(ss: seq<Section>, rs: seq<Range>, c: nat, k: nat): (t: Option<nat>)
    requires k <= |ss|
    ensures t.Some? ==> t.value < k && SectionReaches(ss[t.value], rs, c)
    ensures forall i | 0 <= i < k && SectionReaches(ss[i], rs, c) :: t.Some? && t.value <= i
  {
    if k == 0 then None
    else
      var before := FirstSection(ss, rs, c, k - 1);
      if before.Some? then before else if SectionReaches(ss[k - 1], rs, c) then Some(k - 1) else None
  }

  /** Some byte of the page lies both in the section and in the range. */
  predicate Touches(page: nat, s: Section, r: Range) {
    var start, end := Max(s.gpa, r.first), Min(SectionLast(s), Last(r));
    start <= end && page <= end && start < page + PAGE
  }

  /** Both sections map guest addresses into one region at one offset. */
  predicate Coherent(a: Section, b: Section) { a.mr == b.mr && a.gpa - a.off == b.gpa - b.off }

  lemma TouchedIsReached(s: Section, r: Range, c: nat, b: Bit)
    requires Touches(PageAddress(c, b), s, r)
    ensures Reaches(s, r, c)
  {
    var page, start, end := PageAddress(c, b), Max(s.gpa, r.first), Min(SectionLast(s), Last(r));
    assert c * CHUNK <= page && page + PAGE <= (c + 1) * CHUNK;
    assert start < (c + 1) * CHUNK && c * CHUNK <= end;
  }

  lemma RangeSweepReaches(s: Section, r: Range, n: nat, c: nat)
    requires c < n
    ensures Covers(RangeSweep(s, 0, n * CHUNK - 1, r), c) <==> Reaches(s, r, c)
  {
    var last := n * CHUNK - 1;
    assert c <= last / CHUNK;
  }

  lemma {:induction false} FirstAppend(a: seq<Sweep>, b: seq<Sweep>, c: nat)
    ensures First(a + b, c) == if First(a, c).Some? then First(a, c) else First(b, c)
    decreases |b|
  {
    if b == [] {
      assert a + b == a;
    } else {
      FirstAppend(a, b[..|b| - 1], c);
      assert (a + b)[..|a + b| - 1] == a + b[..|b| - 1];
    }
  }

  lemma FirstSnoc(ws: seq<Sweep>, w: Sweep, c: nat)
    ensures First(ws + [w], c) == if First(ws, c).Some? then First(ws, c) else if Covers(w, c) then Some(w) else None
  {
    assert (ws + [w])[..|ws|] == ws;
  }

  lemma ReachesOneMore(s: Section, rs: seq<Range>, k: nat, c: nat)
    requires 0 < k <= |rs|
    ensures ReachesOne(s, rs, k, c) <==> ReachesOne(s, rs, k - 1, c) || Reaches(s, rs[k - 1], c)
  {
  }

  lemma {:induction false} SectionSweepsReach(s: Section, rs: seq<Range>, k: nat, n: nat, c: nat)
    requires k <= |rs| && c < n
    ensures First(SectionSweeps(s, 0, n * CHUNK - 1, rs, k), c).Some? <==> ReachesOne(s, rs, k, c)
    ensures var f := First(SectionSweeps(s, 0, n * CHUNK - 1, rs, k), c); f.Some? ==> f.value.section == s
  {
    if k > 0 {
      var ws, w := SectionSweeps(s, 0, n * CHUNK - 1, rs, k - 1), RangeSweep(s, 0, n * CHUNK - 1, rs[k - 1]);
      SectionSweepsReach(s, rs, k - 1, n, c);
      assert Covers(w, c) <==> Reaches(s, rs[k - 1], c) by { RangeSweepReaches(s, rs[k - 1], n, c); }
      ReachesOneMore(s, rs, k, c);
      FirstSnoc(ws, w, c);
    }
  }

  lemma {:induction false} AllSweepsReach(ss: seq<Section>, rs: seq<Range>, k: nat, n: nat, c: nat)
    requires k <= |ss| && c < n
    ensures var f, t := First(AllSweeps(ss, 0, n * CHUNK - 1, rs, k), c), FirstSection(ss, rs, c, k);
      (f.Some? <==> t.Some?) && (t.Some? ==> f.value.section == ss[t.value])
  {
    hide SectionSweeps, ReachesOne;
    if k > 0 {
      AllSweepsReach(ss, rs, k - 1, n, c);
      var last := n * CHUNK - 1;
      var before, here := AllSweeps(ss, 0, last, rs, k - 1), SectionSweeps(ss[k - 1], 0, last, rs, |rs|);
      assert First(before + here, c) == if First(before, c).Some? then First(before, c) else First(here, c) by {
        FirstAppend(before, here, c);
      }
      SectionSweepsReach(ss[k - 1], rs, |rs|, n, c);
    }
  }

  /** A dirty page is marked if and only if some section reaches its chunk, and then for the first section that does. */
  lemma MarkedForFirstSection(log: seq<Word>, ss: seq<Section>, rs: seq<Range>, c: nat, b: Bit, m: Mark)
    requires c < |log| && m.page == PageAddress(c, b)
    ensures var t := FirstSection(ss, rs, c, |ss|);
      m in Reported(log, ss, rs) <==> b in log[c] && t.Some? && m == MarkFor(ss[t.value], m.page)
  {
    var ws := AllSweeps(ss, 0, |log| * CHUNK - 1, rs, |ss|);
    AllSweepsInside(ss, rs, |ss|, |log|);
    AllSweepsReach(ss, rs, |ss|, |log|, c);
    SweptMarks(log, ws, c, b, m);
  }

  /**
   * A dirty page of a section is marked in that section's region, at the page's own offset, if and only if the first
   * section that reaches its chunk maps into the same region at the same offset.
   */
  lemma MarkedInOwnRegion(log: seq<Word>, ss: seq<Section>, rs: seq<Range>, c: nat, b: Bit, i: nat, j: nat)
    requires c < |log| && b in log[c] && i < |ss| && j < |rs| && Touches(PageAddress(c, b), ss[i], rs[j])
    ensures var t := FirstSection(ss, rs, c, |ss|);
      && t.Some? && t.value <= i
      && ((exists m | m in Reported(log, ss, rs) ::
             m.page == PageAddress(c, b) && m.mr == ss[i].mr && m.offset - ss[i].off == m.page - ss[i].gpa)
          <==> Coherent(ss[t.value], ss[i]))
  {
    TouchedIsReached(ss[i], rs[j], c, b);
    assert SectionReaches(ss[i], rs, c);
    MarkedForFirstSection(log, ss, rs, c, b, MarkFor(ss[i], PageAddress(c, b)));
    forall m | m in Reported(log, ss, rs) && m.page == PageAddress(c, b)
      ensures m == MarkFor(ss[FirstSection(ss, rs, c, |ss|).value], m.page)
    {
      MarkedForFirstSection(log, ss, rs, c, b, m);
    }
  }

  /** Every mark of a sync is that of a dirty page, at its place in the region of one of the sections. */
  lemma EveryMarkHasPlace(log: seq<Word>, ss: seq<Section>, rs: seq<Range>, m: Mark) returns (c: nat, b: Bit, i: nat)
    requires m in Reported(log, ss, rs)
    ensures c < |log| && b in log[c] && m.page == c * CHUNK + b * PAGE
    ensures i < |ss| && SectionReaches(ss[i], rs, c)
    ensures m.mr == ss[i].mr && m.offset - ss[i].off == m.page - ss[i].gpa
    ensures ss[i].gpa <= m.page < ss[i].gpa + ss[i].size ==> ss[i].off <= m.offset < ss[i].off + ss[i].size
  {
    AllSweepsInside(ss, rs, |ss|, |log|);
    c, b := MarksAreOfTheLog(log, AllSweeps(ss, 0, |log| * CHUNK - 1, rs, |ss|), m);
    MarkedForFirstSection(log, ss, rs, c, b, m);
    i := FirstSection(ss, rs, c, |ss|).value;
  }

  // ----- one region for each section -----

  predicate NonEmpty(ss: seq<Section>) { forall i | 0 <= i < |ss| :: ss[i].size > 0 }

  /** The region table of a section list. */
  function RangesOf(ss: seq<Section>): (rs: seq<Range>)
    requires NonEmpty(ss)
    ensures |rs| == |ss| && forall i | 0 <= i < |rs| :: rs[i] == Range(ss[i].gpa, ss[i].size)
  {
    seq(|ss|, i requires 0 <= i < |ss| => Range(ss[i].gpa, ss[i].size))
  }

  /** The section has a byte in the chunk. */
  predicate Overlaps(s: Section, c: nat) { s.gpa / CHUNK <= c <= SectionLast(s) / CHUNK }

  /** The first section, in list order, with a byte in the chunk. */
  function FirstIn(ss: seq<Section>, c: nat, k: nat): (t: Option<nat>)
    requires k <= |ss|
    ensures t.Some? ==> t.value < k && Overlaps(ss[t.value], c)
    ensures forall i | 0 <= i < k && Overlaps(ss[i], c) :: t.Some? && t.value <= i
  {
    if k == 0 then None
    else
      var before := FirstIn(ss, c, k - 1);
      if before.Some? then before else if Overlaps(ss[k - 1], c) then Some(k - 1) else None
  }

  /** A section's own region lets it reach every chunk it has a byte in, and nothing lets it reach another. */
  lemma ReachesItsChunks(ss: seq<Section>, vqs: seq<Range>, i: nat, c: nat)
    requires NonEmpty(ss) && i < |ss|
    ensures SectionReaches(ss[i], RangesOf(ss) + vqs, c) <==> Overlaps(ss[i], c)
  {
    var rs := RangesOf(ss) + vqs;
    assert rs[i] == Range(ss[i].gpa, ss[i].size);
    assert Reaches(ss[i], rs[i], c) <==> Overlaps(ss[i], c);
  }

  lemma {:induction false} FirstSectionIsFirstIn(ss: seq<Section>, vqs: seq<Range>, c: nat, k: nat)
    requires NonEmpty(ss) && k <= |ss|
    ensures FirstSection(ss, RangesOf(ss) + vqs, c, k) == FirstIn(ss, c, k)
  {
    if k > 0 {
      FirstSectionIsFirstIn(ss, vqs, c, k - 1);
      ReachesItsChunks(ss, vqs, k - 1, c);
    }
  }

  /** The first section of the map with a byte in the chunk maps into the region of `s`, at the same distance. */
  predicate AttributedTo(ss: seq<Section>, c: nat, s: Section) {
    var t := FirstIn(ss, c, |ss|);
    t.Some? && Coherent(ss[t.value], s)
  }

  /**
   * A sync by any map marks a page where the section `s`, of this map or of another one, has it if and only if the page
   * is dirty and its chunk is attributed to that place.
   */
  lemma MarkedWhereAttributed(log: seq<Word>, ss: seq<Section>, vqs: seq<Range>, s: Section, c: nat, b: Bit)
    requires NonEmpty(ss) && c < |log|
    ensures MarkFor(s, PageAddress(c, b)) in Reported(log, ss, RangesOf(ss) + vqs) <==>
            b in log[c] && AttributedTo(ss, c, s)
  {
    FirstSectionIsFirstIn(ss, vqs, c, |ss|);
    MarkedForFirstSection(log, ss, RangesOf(ss) + vqs, c, b, MarkFor(s, PageAddress(c, b)));
  }

  /** The page has a byte in the section. */
  predicate PageIn(page: nat, s: Section) { page <= SectionLast(s) && s.gpa < page + PAGE }

  lemma PageOverlaps(s: Section, c: nat, b: Bit)
    requires PageIn(PageAddress(c, b), s)
    ensures Overlaps(s, c)
  {
    var page := PageAddress(c, b);
    assert c * CHUNK <= page && page + PAGE <= (c + 1) * CHUNK;
    assert s.gpa < (c + 1) * CHUNK && c * CHUNK <= SectionLast(s);
  }

  /** Every dirty page with a byte in a section is marked in that section's own region. */
  ghost predicate PagesReported(log: seq<Word>, ss: seq<Section>, marks: seq<Mark>) {
    forall i, c: nat, b: Bit | 0 <= i < |ss| && c < |log| && b in log[c] && PageIn(PageAddress(c, b), ss[i]) ::
      MarkFor(ss[i], PageAddress(c, b)) in marks
  }

  /** The sections' chunks are attributed to them. */
  ghost predicate KeepsPlaces(ss: seq<Section>, ts: seq<Section>) {
    forall i, c: nat | 0 <= i < |ss| && Overlaps(ss[i], c) :: AttributedTo(ts, c, ss[i])
  }

  /** Sections that share a chunk belong to one region, at one distance. */
  ghost predicate ChunksUnshared(ss: seq<Section>) {
    forall i, k, c: nat | 0 <= i < k < |ss| && Overlaps(ss[i], c) && Overlaps(ss[k], c) :: Coherent(ss[i], ss[k])
  }

  lemma UnsharedKeepsPlaces(ss: seq<Section>)
    requires ChunksUnshared(ss)
    ensures KeepsPlaces(ss, ss)
  {
    forall i, c: nat | 0 <= i < |ss| && Overlaps(ss[i], c) ensures AttributedTo(ss, c, ss[i]) {
      var t := FirstIn(ss, c, |ss|);
      assert Overlaps(ss[t.value], c);
    }
  }

  /** A sync by a map that keeps the places of some sections reports all their dirty pages where they belong. */
  lemma KeptPlacesReport(log: seq<Word>, ss: seq<Section>, ts: seq<Section>, vqs: seq<Range>)
    requires NonEmpty(ts) && KeepsPlaces(ss, ts)
    ensures PagesReported(log, ss, Reported(log, ts, RangesOf(ts) + vqs))
  {
    var marks := Reported(log, ts, RangesOf(ts) + vqs);
    forall i, c: nat, b: Bit | 0 <= i < |ss| && c < |log| && b in log[c] && PageIn(PageAddress(c, b), ss[i])
      ensures MarkFor(ss[i], PageAddress(c, b)) in marks
    {
      PageOverlaps(ss[i], c, b);
      MarkedWhereAttributed(log, ts, vqs, ss[i], c, b);
    }
  }

  /** A sync of the whole log reports every dirty page of guest memory where it belongs, unless chunks are shared. */
  lemma CoveringReports(log: seq<Word>, ss: seq<Section>, vqs: seq<Range>)
    requires NonEmpty(ss) && ChunksUnshared(ss)
    ensures PagesReported(log, ss, Reported(log, ss, RangesOf(ss) + vqs))
  {
    UnsharedKeepsPlaces(ss);
    KeptPlacesReport(log, ss, ss, vqs);
  }

  /** Of the dirty pages, exactly those whose chunks the map attributes to them are marked where the sections have them. */
  ghost predicate Carried(log: seq<Word>, ss: seq<Section>, ts: seq<Section>, marks: seq<Mark>) {
    forall i, c: nat, b: Bit | 0 <= i < |ss| && c < |log| && b in log[c] ::
      MarkFor(ss[i], PageAddress(c, b)) in marks <==> AttributedTo(ts, c, ss[i])
  }

  /** That is what a sync makes of bits which were set under the sections `ss` of an earlier map. */
  lemma ReportedAcrossMaps(log: seq<Word>, ss: seq<Section>, ts: seq<Section>, vqs: seq<Range>)
    requires NonEmpty(ts)
    ensures Carried(log, ss, ts, Reported(log, ts, RangesOf(ts) + vqs))
  {
    forall i, c: nat, b: Bit | 0 <= i < |ss| && c < |log| && b in log[c]
      ensures MarkFor(ss[i], PageAddress(c, b)) in Reported(log, ts, RangesOf(ts) + vqs) <==> AttributedTo(ts, c, ss[i])
    {
      MarkedWhereAttributed(log, ts, vqs, ss[i], c, b);
    }
  }

  // ----- examples -----

  /** A section at 4 GB of guest memory, 2 GB into its region, with a dirty first page: marked 2 GB into the region. */
  lemma MarkedBehindHole(log: seq<Word>, mr: MemoryRegion)
    requires |log| == 0x4001 && 0 in log[0x4000]
    ensures var s := Section(mr, 0x1_0000_0000, 0x8000_0000, 0x1000);
      Mark(0x1_0000_0000, mr, 0x8000_0000) in Reported(log, [s], [Range(0x1_0000_0000, 0x1000)])
  {
    var s := Section(mr, 0x1_0000_0000, 0x8000_0000, 0x1000);
    assert RangesOf([s]) == [Range(0x1_0000_0000, 0x1000)] == RangesOf([s]) + [];
    assert PageAddress(0x4000, 0) == 0x1_0000_0000 && FirstIn([s], 0x4000, 1) == Some(0);
    MarkedWhereAttributed(log, [s], [], s, 0x4000, 0);
  }


  const FIRST_REGION := MemoryRegion(0, 0, PAGE)
  const SECOND_REGION := MemoryRegion(1, 0x80000, PAGE)

  /** Two regions that share a chunk: the dirty page of the second is marked in the first region, beyond its section. */
  lemma SharedChunkMisreports()
    ensures var a, b := Section(FIRST_REGION, 0, 0, 0x1000), Section(SECOND_REGION, 0x1000, 0, 0x1000);
      var marks := Reported([{1}], [a, b], [Range(0, 0x1000), Range(0x1000, 0x1000)]);
      && RangesOf([a, b]) == [Range(0, 0x1000), Range(0x1000, 0x1000)] && PageIn(0x1000, b)
      && Mark(0x1000, FIRST_REGION, 0x1000) in marks && Mark(0x1000, SECOND_REGION, 0) !in marks
  {
    var a, b := Section(FIRST_REGION, 0, 0, 0x1000), Section(SECOND_REGION, 0x1000, 0, 0x1000);
    var log: seq<Word>, ss := [{1}], [a, b];
    assert RangesOf(ss) == [Range(0, 0x1000), Range(0x1000, 0x1000)] == RangesOf(ss) + [];
    assert PageAddress(0, 1) == 0x1000 && FirstIn(ss, 0, 1) == FirstIn(ss, 0, 2) == Some(0);
    MarkedWhereAttributed(log, ss, [], a, 0, 1);
    MarkedWhereAttributed(log, ss, [], b, 0, 1);
  }

  /** A section that moves: its dirty page is not marked at all by a sync under the new map. */
  lemma MovedSectionLosesPage()
    ensures var a, b := Section(FIRST_REGION, 0, 0, 0x40000), Section(FIRST_REGION, 0x80000, 0, 0x40000);
      var marks := Reported([{3}], [b], [Range(0x80000, 0x40000)]);
      PageIn(0x3000, a) && RangesOf([b]) == [Range(0x80000, 0x40000)] && marks == []
  {
    var b := Section(FIRST_REGION, 0x80000, 0, 0x40000);
    var log: seq<Word>, ss := [{3}], [b];
    var marks := Reported(log, ss, RangesOf(ss) + []);
    assert RangesOf(ss) == [Range(0x80000, 0x40000)] == RangesOf(ss) + [];
    assert FirstIn(ss, 0, 1) == None;
    if marks != [] {
      AllSweepsInside(ss, RangesOf(ss), 1, 1);
      var c, bit := MarksAreOfTheLog(log, AllSweeps(ss, 0, CHUNK - 1, RangesOf(ss), 1), marks[0]);
      FirstSectionIsFirstIn(ss, [], c, 1);
      MarkedForFirstSection(log, ss, RangesOf(ss), c, bit, marks[0]);
      assert false;
    }
  }
}

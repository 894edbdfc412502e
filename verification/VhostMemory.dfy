/** The vhost memory map: sections in address order are merged into a table that translates guest addresses. */
module VhostMemory {
  import opened Arithmetic
  import opened Bytes
  import opened VhostSection

  /** The 64-bit result of one addition or subtraction of 64-bit values. */
  function Wrap(n: int): int {
    if n < 0 then n + TWO64 else if n < TWO64 then n else n - TWO64
  }

  /** That is arithmetic modulo 2^64. */
  lemma WrapIsModulo(n: int)
    requires -0x1_0000_0000_0000_0000 <= n < 0x2_0000_0000_0000_0000
    ensures Wrap(n) == n % 0x1_0000_0000_0000_0000
  {
  }

  datatype Region = Region(gpa: nat, size: nat, userAddr: nat)

  /** The backend's veto on a merge: new host address and size, previous host address and size. */
  type MergeTest = (int, int, int, int) -> bool

  function Host(s: Section): nat { s.mr.hostBase + s.off }
  function End(s: Section): nat { s.gpa + s.size }
  function HostEnd(s: Section): nat { Host(s) + s.size }

  /** Non-empty, and neither it nor its page hull leaves the 64-bit address spaces. */
  ghost predicate NoWrap(s: Section) {
    && s.mr.page > 0 && s.size > 0
    && Host(s) % s.mr.page <= s.gpa && End(s) + s.mr.page < TWO64 && HostEnd(s) + s.mr.page < TWO64
  }

  // ----- rounding and merging -----

  /** Bytes between the start of the host page and the section. */
  function Misaligned(s: Section): nat
    requires s.mr.page > 0
  {
    Host(s) % s.mr.page
  }

  function RoundUp(n: nat, page: nat): nat
    requires page > 0
  {
    if n % page != 0 then n + page - n % page else n
  }

  function RoundedHost(s: Section): int
    requires s.mr.page > 0
  {
    Host(s) - Misaligned(s)
  }

  function RoundedGpa(s: Section): int
    requires s.mr.page > 0
  {
    Wrap(s.gpa - Misaligned(s))
  }

  function RoundedSize(s: Section): int
    requires s.mr.page > 0
  {
    RoundUp(s.size + Misaligned(s), s.mr.page)
  }

  datatype Decision = Add | Drop | Merge(grown: Section)

  /** What happens to `s` behind `prev`, the last section so far. */
  function Decide(prev: Section, s: Section, canMerge: MergeTest): Decision
    requires s.mr.page > 0 && prev.size > 0
  {
    var host, size, gpa := RoundedHost(s), RoundedSize(s), RoundedGpa(s);
    var prevEnd := Wrap(End(prev) - 1);
    var prevHostEnd := Wrap(HostEnd(prev) - 1);
    if gpa > Wrap(prevEnd + 1) then Add
    else if gpa < prev.gpa then Drop
    else if Host(prev) + (gpa - prev.gpa) == host && s.mr == prev.mr && canMerge(host, size, Host(prev), prev.size) then
      // prevHostEnd is the last byte, host + size the byte behind the last one
      Merge(prev.(size := Max(prevHostEnd, host + size) - Host(prev)))
    else if gpa != Wrap(prevEnd + 1) then Drop
    else Add
  }

  function AddSection(tmp: seq<Section>, s: Section, canMerge: MergeTest): seq<Section>
    requires s.mr.page > 0 && forall i | 0 <= i < |tmp| :: tmp[i].size > 0
  {
    if tmp == [] then [s]
    else
      var last := |tmp| - 1;
      match Decide(tmp[last], s, canMerge)
      case Add => tmp + [s]
      case Drop => tmp
      case Merge(grown) => tmp[..last] + [grown]
  }

  predicate Accepts(tmp: seq<Section>, s: Section, canMerge: MergeTest)
    requires s.mr.page > 0 && forall i | 0 <= i < |tmp| :: tmp[i].size > 0
  {
    tmp == [] || !Decide(tmp[|tmp| - 1], s, canMerge).Drop?
  }

  // ----- what the list must satisfy -----

  /** Address-ordered without overlap. */
  ghost predicate Ordered(ss: seq<Section>) {
    forall i, j | 0 <= i < j < |ss| :: End(ss[i]) <= ss[j].gpa
  }

  /** `t` maps every address of `s` to the same host address as `s` does. */
  ghost predicate Covers(t: Section, s: Section) {
    t.mr == s.mr && t.gpa <= s.gpa && End(s) <= End(t) && Host(t) - t.gpa == Host(s) - s.gpa
  }

  ghost predicate Covered(tmp: seq<Section>, s: Section) {
    exists k | 0 <= k < |tmp| :: Covers(tmp[k], s)
  }

  /** Address `a` of `t` lies in a host page of `s`, and both map it to the same host address. */
  ghost predicate InHull(t: Section, s: Section, a: int)
    requires s.mr.page > 0
  {
    && t.mr == s.mr && Host(t) - t.gpa == Host(s) - s.gpa
    && s.gpa - Misaligned(s) <= a < s.gpa - Misaligned(s) + RoundedSize(s)
  }

  /** Nothing is mapped beyond the host pages of the accepted sections. */
  ghost predicate Justified(t: Section, accepted: seq<Section>)
    requires forall i | 0 <= i < |accepted| :: accepted[i].mr.page > 0
  {
    forall a | t.gpa <= a < End(t) :: JustifiedAt(t, accepted, a)
  }

  ghost predicate JustifiedAt(t: Section, accepted: seq<Section>, a: int)
    requires forall i | 0 <= i < |accepted| :: accepted[i].mr.page > 0
  {
    exists i | 0 <= i < |accepted| :: InHull(t, accepted[i], a)
  }

  /** The last section ends at or before `frontier`, or on the page boundary behind it. */
  ghost predicate EndsNear(t: Section, frontier: int) {
    t.mr.page > 0 && (End(t) <= frontier || (HostEnd(t) % t.mr.page == 0 && End(t) < frontier + t.mr.page))
  }

  ghost predicate Inv(tmp: seq<Section>, accepted: seq<Section>, frontier: int) {
    && (forall i | 0 <= i < |accepted| :: accepted[i].mr.page > 0)
    && (forall i | 0 <= i < |tmp| :: tmp[i].size > 0 && End(tmp[i]) < TWO64 && HostEnd(tmp[i]) < TWO64)
    && Ordered(tmp)
    && (tmp != [] ==> EndsNear(tmp[|tmp| - 1], frontier))
    && (forall i | 0 <= i < |accepted| :: Covered(tmp, accepted[i]))
    && (forall k | 0 <= k < |tmp| :: Justified(tmp[k], accepted))
  }

  lemma RoundUpIs(n: nat, page: nat)
    requires page > 0
    ensures RoundUp(n, page) % page == 0 && n <= RoundUp(n, page) < n + page
  {
    DivMod(n, page);
    if n % page != 0 {
      assert RoundUp(n, page) == page * (n / page) + page == page * (n / page + 1);
      MultipleMod(n / page + 1, page);
    }
  }

  lemma RoundDownIs(n: nat, page: nat)
    requires page > 0
    ensures n - n % page >= 0 && (n - n % page) % page == 0
  {
    DivMod(n, page);
    assert n - n % page == page * (n / page);
    MultipleMod(n / page, page);
  }

  lemma Rounding(s: Section)
    requires NoWrap(s)
    ensures RoundedGpa(s) == s.gpa - Misaligned(s) && RoundedHost(s) - RoundedGpa(s) == Host(s) - s.gpa
    ensures RoundedGpa(s) + RoundedSize(s) >= End(s)
    ensures RoundedGpa(s) + RoundedSize(s) < End(s) + s.mr.page
    ensures RoundedHost(s) % s.mr.page == 0 && (RoundedHost(s) + RoundedSize(s)) % s.mr.page == 0
  {
    RoundUpIs(s.size + Misaligned(s), s.mr.page);
    RoundDownIs(Host(s), s.mr.page);
    SumOfMultiples(RoundedHost(s), RoundedSize(s), s.mr.page);
  }

  // ----- one section -----

  /** In order and close behind, the decision is what the page hulls say. */
  lemma DecisionMeans(prev: Section, s: Section, frontier: int, canMerge: MergeTest)
    requires NoWrap(s) && prev.size > 0 && frontier <= s.gpa && EndsNear(prev, frontier)
    requires End(prev) < TWO64 && HostEnd(prev) < TWO64
    ensures match Decide(prev, s, canMerge)
            case Add => End(prev) <= RoundedGpa(s)
            case Drop => true
            case Merge(grown) =>
              && prev.mr == s.mr && prev.gpa <= RoundedGpa(s) <= End(prev)
              && Host(prev) - prev.gpa == Host(s) - s.gpa
              && grown == prev.(size := RoundedGpa(s) + RoundedSize(s) - prev.gpa)
              && End(prev) <= End(grown)
  {
    Rounding(s);
    if Decide(prev, s, canMerge).Merge? {
      MergedEnd(prev, s, frontier);
    }
  }

  /** The rounded end of the new section is never before the end of the previous one. */
  lemma MergedEnd(prev: Section, s: Section, frontier: int)
    requires NoWrap(s) && prev.size > 0 && frontier <= s.gpa && EndsNear(prev, frontier) && prev.mr == s.mr
    requires Host(prev) - prev.gpa == Host(s) - s.gpa
    ensures HostEnd(prev) <= RoundedHost(s) + RoundedSize(s)
  {
    Rounding(s);
    if End(prev) > frontier {
      NearMultiples(HostEnd(prev), RoundedHost(s) + RoundedSize(s), s.mr.page);
    }
  }

  /** Accepted sections after `s` was offered. */
  function AcceptedAfter(tmp: seq<Section>, accepted: seq<Section>, s: Section, canMerge: MergeTest): seq<Section>
    requires s.mr.page > 0 && forall i | 0 <= i < |tmp| :: tmp[i].size > 0
  {
    if Accepts(tmp, s, canMerge) then accepted + [s] else accepted
  }

  lemma JustifiedMore(t: Section, accepted: seq<Section>, s: Section)
    requires (forall i | 0 <= i < |accepted| :: accepted[i].mr.page > 0) && s.mr.page > 0 && Justified(t, accepted)
    ensures Justified(t, accepted + [s])
  {
    forall a | t.gpa <= a < End(t) ensures JustifiedAt(t, accepted + [s], a) {
      assert JustifiedAt(t, accepted, a);
      var i :| 0 <= i < |accepted| && InHull(t, accepted[i], a);
      assert InHull(t, (accepted + [s])[i], a);
    }
  }

  /** Adding behind the last section. */
  lemma AddedKeepsInv(tmp: seq<Section>, accepted: seq<Section>, frontier: int, s: Section)
    requires Inv(tmp, accepted, frontier) && NoWrap(s) && frontier <= s.gpa
    requires tmp != [] ==> End(tmp[|tmp| - 1]) <= s.gpa
    ensures Inv(tmp + [s], accepted + [s], End(s))
  {
    var tmp', accepted' := tmp + [s], accepted + [s];
    Rounding(s);
    forall i | 0 <= i < |accepted'| ensures Covered(tmp', accepted'[i]) {
      if i < |accepted| {
        assert Covered(tmp, accepted[i]);
        var k :| 0 <= k < |tmp| && Covers(tmp[k], accepted[i]);
        assert Covers(tmp'[k], accepted'[i]);
      } else {
        assert Covers(tmp'[|tmp|], accepted'[i]);
      }
    }
    forall k | 0 <= k < |tmp'| ensures Justified(tmp'[k], accepted') {
      if k < |tmp| {
        JustifiedMore(tmp[k], accepted, s);
      } else {
        forall a | s.gpa <= a < End(s) ensures JustifiedAt(s, accepted', a) {
          assert InHull(s, accepted'[|accepted|], a);
        }
      }
    }
    assert forall k | 0 <= k < |tmp| :: End(tmp[k]) <= s.gpa;
  }

  lemma GrownJustified(prev: Section, accepted: seq<Section>, s: Section, grown: Section)
    requires (forall i | 0 <= i < |accepted| :: accepted[i].mr.page > 0) && NoWrap(s) && Justified(prev, accepted)
    requires prev.mr == s.mr && Host(prev) - prev.gpa == Host(s) - s.gpa && prev.gpa <= RoundedGpa(s) <= End(prev)
    requires grown == prev.(size := RoundedGpa(s) + RoundedSize(s) - prev.gpa)
    ensures Justified(grown, accepted + [s])
  {
    var accepted' := accepted + [s];
    Rounding(s);
    JustifiedMore(prev, accepted, s);
    forall a | grown.gpa <= a < End(grown) ensures JustifiedAt(grown, accepted', a) {
      if a < End(prev) {
        assert JustifiedAt(prev, accepted', a);
        var i :| 0 <= i < |accepted'| && InHull(prev, accepted'[i], a);
        assert InHull(grown, accepted'[i], a);
      } else {
        assert InHull(grown, accepted'[|accepted|], a);
      }
    }
  }

  lemma GrownCovers(tmp: seq<Section>, accepted: seq<Section>, s: Section, grown: Section)
    requires tmp != [] && forall i | 0 <= i < |accepted| :: Covered(tmp, accepted[i])
    requires var prev := tmp[|tmp| - 1]; grown == prev.(size := grown.size) && prev.size <= grown.size
    requires Covers(grown, s)
    ensures forall i | 0 <= i < |accepted + [s]| :: Covered(tmp[..|tmp| - 1] + [grown], (accepted + [s])[i])
  {
    var tmp', accepted' := tmp[..|tmp| - 1] + [grown], accepted + [s];
    forall i | 0 <= i < |accepted'| ensures Covered(tmp', accepted'[i]) {
      if i < |accepted| {
        assert Covered(tmp, accepted[i]);
        var k :| 0 <= k < |tmp| && Covers(tmp[k], accepted[i]);
        assert Covers(tmp'[k], accepted'[i]);
      } else {
        assert Covers(tmp'[|tmp| - 1], accepted'[i]);
      }
    }
  }

  /** Growing the last section. */
  lemma MergedKeepsInv(tmp: seq<Section>, accepted: seq<Section>, frontier: int, s: Section, grown: Section)
    requires Inv(tmp, accepted, frontier) && NoWrap(s) && frontier <= s.gpa && tmp != []
    requires var prev := tmp[|tmp| - 1];
             && prev.mr == s.mr && prev.gpa <= RoundedGpa(s) <= End(prev)
             && Host(prev) - prev.gpa == Host(s) - s.gpa
             && grown == prev.(size := RoundedGpa(s) + RoundedSize(s) - prev.gpa)
             && End(prev) <= End(grown)
    ensures Inv(tmp[..|tmp| - 1] + [grown], accepted + [s], End(s))
  {
    var last := |tmp| - 1;
    var prev, tmp', accepted' := tmp[last], tmp[..last] + [grown], accepted + [s];
    Rounding(s);
    assert HostEnd(grown) == RoundedHost(s) + RoundedSize(s);
    GrownCovers(tmp, accepted, s, grown);
    forall k | 0 <= k < |tmp'| ensures Justified(tmp'[k], accepted') {
      if k < last {
        JustifiedMore(tmp[k], accepted, s);
      } else {
        GrownJustified(prev, accepted, s, grown);
      }
    }
  }

  lemma AddSectionKeepsInv(tmp: seq<Section>, accepted: seq<Section>, frontier: int, s: Section, canMerge: MergeTest)
    requires Inv(tmp, accepted, frontier) && NoWrap(s) && frontier <= s.gpa
    ensures Inv(AddSection(tmp, s, canMerge), AcceptedAfter(tmp, accepted, s, canMerge), End(s))
  {
    if tmp == [] {
      AddedKeepsInv(tmp, accepted, frontier, s);
      assert tmp + [s] == [s];
    } else {
      var prev := tmp[|tmp| - 1];
      DecisionMeans(prev, s, frontier, canMerge);
      Rounding(s);
      match Decide(prev, s, canMerge)
      case Add => AddedKeepsInv(tmp, accepted, frontier, s);
      case Drop =>
      case Merge(grown) => MergedKeepsInv(tmp, accepted, frontier, s, grown);
    }
  }

  // ----- all sections of one update -----

  datatype Build = Build(tmp: seq<Section>, accepted: seq<Section>)

  ghost predicate Sane(ss: seq<Section>) {
    forall i | 0 <= i < |ss| :: NoWrap(ss[i])
  }

  /** The listener is called with the sections in address order; some may be dropped. */
  function AddAll(ss: seq<Section>, canMerge: MergeTest): (b: Build)
    requires forall i | 0 <= i < |ss| :: ss[i].mr.page > 0 && ss[i].size > 0
    ensures forall i | 0 <= i < |b.tmp| :: b.tmp[i].size > 0
    decreases |ss|
  {
    if ss == [] then Build([], [])
    else
      var n := |ss| - 1;
      var b := AddAll(ss[..n], canMerge);
      Build(AddSection(b.tmp, ss[n], canMerge), AcceptedAfter(b.tmp, b.accepted, ss[n], canMerge))
  }

  lemma AddAllStep(ss: seq<Section>, i: nat, canMerge: MergeTest)
    requires i < |ss| && forall i | 0 <= i < |ss| :: ss[i].mr.page > 0 && ss[i].size > 0
    ensures AddAll(ss[..i + 1], canMerge).tmp == AddSection(AddAll(ss[..i], canMerge).tmp, ss[i], canMerge)
  {
    assert ss[..i + 1][..i] == ss[..i];
  }

  ghost predicate FromInput(accepted: seq<Section>, ss: seq<Section>) {
    forall i | 0 <= i < |accepted| :: accepted[i] in ss
  }

  lemma {:induction false} AcceptedFromInput(ss: seq<Section>, canMerge: MergeTest)
    requires Sane(ss)
    ensures FromInput(AddAll(ss, canMerge).accepted, ss)
    decreases |ss|
  {
    if ss != [] {
      var n := |ss| - 1;
      AcceptedFromInput(ss[..n], canMerge);
      var before, after := AddAll(ss[..n], canMerge).accepted, AddAll(ss, canMerge).accepted;
      forall i | 0 <= i < |after| ensures after[i] in ss {
        if i < |before| {
          assert before[i] in ss[..n];
        }
      }
    }
  }

  lemma {:induction false} AddAllKeepsInv(ss: seq<Section>, canMerge: MergeTest)
    requires Sane(ss) && Ordered(ss)
    ensures var b := AddAll(ss, canMerge); Inv(b.tmp, b.accepted, if ss == [] then 0 else End(ss[|ss| - 1]))
    decreases |ss|
  {
    if ss != [] {
      var n := |ss| - 1;
      var init := ss[..n];
      var b := AddAll(init, canMerge);
      assert Sane(init) && Ordered(init);
      AddAllKeepsInv(init, canMerge);
      var frontier := if init == [] then 0 else End(init[n - 1]);
      assert frontier <= ss[n].gpa;
      AddSectionKeepsInv(b.tmp, b.accepted, frontier, ss[n], canMerge);
    }
  }

  lemma AddAllInv(ss: seq<Section>, canMerge: MergeTest)
    requires Sane(ss) && Ordered(ss)
    ensures var b := AddAll(ss, canMerge);
            Inv(b.tmp, b.accepted, if ss == [] then 0 else End(ss[|ss| - 1])) && FromInput(b.accepted, ss)
  {
    AddAllKeepsInv(ss, canMerge);
    AcceptedFromInput(ss, canMerge);
  }

  // ----- translation -----

  function ToRegion(s: Section): Region { Region(s.gpa, s.size, Host(s)) }

  function Regions(ss: seq<Section>): (rs: seq<Region>)
    ensures |rs| == |ss| && forall i | 0 <= i < |rs| :: rs[i] == ToRegion(ss[i])
  {
    if ss == [] then [] else [ToRegion(ss[0])] + Regions(ss[1..])
  }

  predicate Hits(r: Region, a: nat) { r.gpa <= a < Wrap(r.gpa + r.size) }

  /** Host address and remaining length of the first region that contains guest address `a`. */
  function Lookup(rs: seq<Region>, a: nat): Option<(int, int)> {
    if rs == [] then None
    else if Hits(rs[0], a) then Some((rs[0].userAddr + a - rs[0].gpa, Wrap(rs[0].gpa + rs[0].size) - a))
    else Lookup(rs[1..], a)
  }

  lemma {:induction false} LookupAt(rs: seq<Region>, k: nat, a: nat)
    requires k < |rs| && Hits(rs[k], a) && forall i | 0 <= i < k :: !Hits(rs[i], a)
    ensures Lookup(rs, a) == Some((rs[k].userAddr + a - rs[k].gpa, Wrap(rs[k].gpa + rs[k].size) - a))
  {
    if k > 0 {
      LookupAt(rs[1..], k - 1, a);
    }
  }

  lemma {:induction false} LookupFails(rs: seq<Region>, a: nat)
    ensures Lookup(rs, a) == None <==> forall i | 0 <= i < |rs| :: !Hits(rs[i], a)
  {
    if rs != [] {
      LookupFails(rs[1..], a);
      if Lookup(rs[1..], a) == None {
        assert forall i | 1 <= i < |rs| :: rs[i] == rs[1..][i - 1];
      }
    }
  }

  /** In an ordered list the section that contains an address is the one that is found. */
  lemma LookupInOrder(tmp: seq<Section>, k: nat, a: nat)
    requires Ordered(tmp) && k < |tmp| && tmp[k].gpa <= a < End(tmp[k])
    requires forall i | 0 <= i < |tmp| :: End(tmp[i]) < TWO64
    ensures Lookup(Regions(tmp), a) == Some((Host(tmp[k]) + a - tmp[k].gpa, End(tmp[k]) - a))
  {
    forall i | 0 <= i < k ensures !Hits(Regions(tmp)[i], a) {
      assert End(tmp[i]) <= tmp[k].gpa && Regions(tmp)[i] == ToRegion(tmp[i]);
    }
    assert Regions(tmp)[k] == ToRegion(tmp[k]);
    LookupAt(Regions(tmp), k, a);
  }

  /** Every address of every accepted section translates to its original host address, at least up to its end. */
  lemma TranslatesAccepted(ss: seq<Section>, canMerge: MergeTest, s: Section, a: nat)
    requires Sane(ss) && Ordered(ss) && s in AddAll(ss, canMerge).accepted && s.gpa <= a < End(s)
    ensures match Lookup(Regions(AddAll(ss, canMerge).tmp), a)
            case None => false
            case Some(r) => r.0 == s.mr.hostBase + s.off + (a - s.gpa) && r.1 >= s.gpa + s.size - a
  {
    var b := AddAll(ss, canMerge);
    AddAllInv(ss, canMerge);
    var i :| 0 <= i < |b.accepted| && b.accepted[i] == s;
    assert Covered(b.tmp, b.accepted[i]);
    var k :| 0 <= k < |b.tmp| && Covers(b.tmp[k], s);
    LookupInOrder(b.tmp, k, a);
  }

  /** `s` itself explains that `a` translates to `h`: a lies in one of its host pages, at the same offset. */
  ghost predicate Explains(s: Section, a: int, h: int)
    requires s.mr.page > 0
  {
    s.gpa - Misaligned(s) <= a < s.gpa - Misaligned(s) + RoundedSize(s) && h == s.mr.hostBase + s.off + (a - s.gpa)
  }

  lemma HitIsExplained(tmp: seq<Section>, accepted: seq<Section>, frontier: int, k: nat, a: nat) returns (i: nat)
    requires Inv(tmp, accepted, frontier) && k < |tmp| && tmp[k].gpa <= a < End(tmp[k])
    ensures i < |accepted| && Explains(accepted[i], a, Host(tmp[k]) + (a - tmp[k].gpa))
  {
    assert Justified(tmp[k], accepted) && JustifiedAt(tmp[k], accepted, a);
    i :| 0 <= i < |accepted| && InHull(tmp[k], accepted[i], a);
  }

  lemma SomeSectionHits(tmp: seq<Section>, a: nat) returns (k: nat)
    requires Lookup(Regions(tmp), a) != None && forall i | 0 <= i < |tmp| :: End(tmp[i]) < TWO64
    ensures k < |tmp| && tmp[k].gpa <= a < End(tmp[k])
  {
    LookupFails(Regions(tmp), a);
    k :| 0 <= k < |tmp| && Hits(Regions(tmp)[k], a);
    assert Regions(tmp)[k] == ToRegion(tmp[k]);
  }

  /** Every translation is that of an accepted input section, for an address in one of its host pages. */
  lemma TranslatesOnlyAccepted(ss: seq<Section>, canMerge: MergeTest, a: nat) returns (i: nat)
    requires Sane(ss) && Ordered(ss) && Lookup(Regions(AddAll(ss, canMerge).tmp), a) != None
    ensures var b := AddAll(ss, canMerge);
            i < |b.accepted| && b.accepted[i] in ss && NoWrap(b.accepted[i])
            && Explains(b.accepted[i], a, Lookup(Regions(b.tmp), a).value.0)
  {
    var b := AddAll(ss, canMerge);
    AddAllInv(ss, canMerge);
    var k := SomeSectionHits(b.tmp, a);
    LookupInOrder(b.tmp, k, a);
    i := HitIsExplained(b.tmp, b.accepted, if ss == [] then 0 else End(ss[|ss| - 1]), k, a);
    assert b.accepted[i] in ss;
  }

  // ----- page-aligned input -----

  ghost predicate PageAligned(s: Section)
    requires s.mr.page > 0
  {
    Host(s) % s.mr.page == 0 && s.size % s.mr.page == 0
  }

  lemma AlignedHull(s: Section)
    requires NoWrap(s) && PageAligned(s)
    ensures Misaligned(s) == 0 && RoundedSize(s) == s.size && RoundedGpa(s) == s.gpa
  {
  }

  /** If everything so far was aligned and accepted, the list ends where the input ends. */
  lemma AlignedEnd(tmp: seq<Section>, accepted: seq<Section>, frontier: int)
    requires Inv(tmp, accepted, frontier) && tmp != []
    requires forall i | 0 <= i < |accepted| :: NoWrap(accepted[i]) && PageAligned(accepted[i]) && End(accepted[i]) <= frontier
    ensures End(tmp[|tmp| - 1]) <= frontier
  {
    var t := tmp[|tmp| - 1];
    var i := HitIsExplained(tmp, accepted, frontier, |tmp| - 1, End(t) - 1);
    AlignedHull(accepted[i]);
  }

  lemma AlignedAccepted(prev: Section, s: Section, canMerge: MergeTest)
    requires NoWrap(s) && PageAligned(s) && prev.size > 0 && End(prev) <= s.gpa
    ensures !Decide(prev, s, canMerge).Drop?
  {
    AlignedHull(s);
  }

  lemma AlignedNext(tmp: seq<Section>, accepted: seq<Section>, frontier: int, s: Section, canMerge: MergeTest)
    requires Inv(tmp, accepted, frontier) && NoWrap(s) && PageAligned(s) && frontier <= s.gpa
    requires forall i | 0 <= i < |accepted| :: NoWrap(accepted[i]) && PageAligned(accepted[i]) && End(accepted[i]) <= frontier
    ensures Accepts(tmp, s, canMerge)
  {
    if tmp != [] {
      AlignedEnd(tmp, accepted, frontier);
      AlignedAccepted(tmp[|tmp| - 1], s, canMerge);
    }
  }

  /** The address behind the last section. */
  function Frontier(ss: seq<Section>): nat { if ss == [] then 0 else End(ss[|ss| - 1]) }

  ghost predicate Aligned(ss: seq<Section>) {
    Sane(ss) && Ordered(ss) && forall i | 0 <= i < |ss| :: PageAligned(ss[i])
  }

  lemma EndsInside(ss: seq<Section>)
    requires Aligned(ss)
    ensures forall i | 0 <= i < |ss| :: NoWrap(ss[i]) && PageAligned(ss[i]) && End(ss[i]) <= Frontier(ss)
  {
    forall i | 0 <= i < |ss| ensures End(ss[i]) <= Frontier(ss) {
      if i < |ss| - 1 {
        assert End(ss[i]) <= ss[|ss| - 1].gpa;
      }
    }
  }

  lemma AlignedStep(init: seq<Section>, s: Section, canMerge: MergeTest)
    requires Aligned(init) && AddAll(init, canMerge).accepted == init
    requires NoWrap(s) && PageAligned(s) && Frontier(init) <= s.gpa
    ensures Accepts(AddAll(init, canMerge).tmp, s, canMerge)
  {
    AddAllInv(init, canMerge);
    EndsInside(init);
    AlignedNext(AddAll(init, canMerge).tmp, init, Frontier(init), s, canMerge);
  }

  lemma AlignedInit(ss: seq<Section>, n: nat)
    requires Aligned(ss) && n < |ss|
    ensures Aligned(ss[..n]) && Frontier(ss[..n]) <= ss[n].gpa
  {
  }

  /** Page-aligned sections are never dropped. */
  lemma {:induction false} AlignedAllAccepted(ss: seq<Section>, canMerge: MergeTest)
    requires Aligned(ss)
    ensures AddAll(ss, canMerge).accepted == ss
    decreases |ss|
  {
    if ss != [] {
      var n := |ss| - 1;
      AlignedInit(ss, n);
      AlignedAllAccepted(ss[..n], canMerge);
      AlignedStep(ss[..n], ss[n], canMerge);
      assert ss[..n] + [ss[n]] == ss;
    }
  }

  /** For page-aligned input exactly the input addresses resolve. */
  lemma AlignedResolvesExactly(ss: seq<Section>, canMerge: MergeTest, a: nat)
    requires Aligned(ss)
    ensures Lookup(Regions(AddAll(ss, canMerge).tmp), a) != None <==>
            exists i | 0 <= i < |ss| :: ss[i].gpa <= a < End(ss[i])
  {
    AlignedAllAccepted(ss, canMerge);
    if i :| 0 <= i < |ss| && ss[i].gpa <= a < End(ss[i]) {
      TranslatesAccepted(ss, canMerge, ss[i], a);
    }
    if Lookup(Regions(AddAll(ss, canMerge).tmp), a) != None {
      var i := TranslatesOnlyAccepted(ss, canMerge, a);
      AlignedHull(ss[i]);
    }
  }

  // ----- where the promises end -----

  /** Two ordered, disjoint sections of different blocks inside one page: the second is dropped. */
  lemma MisalignedIsDropped()
    ensures var a := Section(MemoryRegion(0, 0x10000, 0x1000), 0x800, 0x800, 0x400);
            var b := Section(MemoryRegion(1, 0x20000, 0x1000), 0xC00, 0xC00, 0x400);
            Sane([a, b]) && Ordered([a, b]) && forall canMerge: MergeTest :: Decide(a, b, canMerge) == Drop
  {
  }

  /** Both sections map into one block at one offset. */
  predicate Coherent(prev: Section, s: Section) {
    prev.mr == s.mr && Host(prev) - prev.gpa == Host(s) - s.gpa
  }

  /**
   * A section is dropped exactly when its first host page starts inside the previous section, and the two cannot be
   * merged: the page starts even before the previous section, they map differently, or the backend refuses.
   */
  lemma DroppedExactly(prev: Section, s: Section, canMerge: MergeTest)
    requires NoWrap(s) && prev.size > 0 && End(prev) < TWO64
    ensures Decide(prev, s, canMerge).Drop? <==>
            && s.gpa - Misaligned(s) < End(prev)
            && (s.gpa - Misaligned(s) < prev.gpa || !Coherent(prev, s)
                || !canMerge(Host(s) - Misaligned(s), RoundedSize(s), Host(prev), prev.size))
  {
    Rounding(s);
  }

  /** A merge keeps all of the previous section exactly when the new one, rounded, reaches at least as far. */
  lemma MergeKeepsPrevious(prev: Section, s: Section, canMerge: MergeTest)
    requires NoWrap(s) && prev.size > 0 && End(prev) < TWO64 && HostEnd(prev) < TWO64
    requires Decide(prev, s, canMerge).Merge?
    ensures End(prev) <= prev.gpa + Decide(prev, s, canMerge).grown.size
            <==> HostEnd(prev) <= RoundedHost(s) + RoundedSize(s)
  {
  }

  /**
   * Two sections are merged exactly when the new one's first host page starts inside the previous section or right
   * behind it, both map alike, and the backend agrees.
   */
  lemma MergedExactly(prev: Section, s: Section, canMerge: MergeTest)
    requires NoWrap(s) && prev.size > 0 && End(prev) < TWO64
    ensures Decide(prev, s, canMerge).Merge? <==>
            && prev.gpa <= s.gpa - Misaligned(s) <= End(prev) && Coherent(prev, s)
            && canMerge(Host(s) - Misaligned(s), RoundedSize(s), Host(prev), prev.size)
  {
    Rounding(s);
  }

  /** No section continues the one in front of it at the same host addresses. */
  ghost predicate Joined(tmp: seq<Section>) {
    forall i, j | 0 <= i && j == i + 1 < |tmp| :: !(End(tmp[i]) == tmp[j].gpa && Coherent(tmp[i], tmp[j]))
  }

  lemma AddSectionJoins(tmp: seq<Section>, accepted: seq<Section>, frontier: int, s: Section, canMerge: MergeTest)
    requires Inv(tmp, accepted, frontier) && NoWrap(s) && frontier <= s.gpa && Joined(tmp)
    requires forall a, b, c, d :: canMerge(a, b, c, d)
    ensures Joined(AddSection(tmp, s, canMerge))
  {
    if tmp != [] {
      var prev := tmp[|tmp| - 1];
      DecisionMeans(prev, s, frontier, canMerge);
      MergedExactly(prev, s, canMerge);
      Rounding(s);
    }
  }

  /** Unless the backend vetoes a merge, the table is as short as it can be: no two neighbours continue each other. */
  lemma {:induction false} NeighboursAreMerged(ss: seq<Section>, canMerge: MergeTest)
    requires Sane(ss) && Ordered(ss) && forall a, b, c, d :: canMerge(a, b, c, d)
    ensures Joined(AddAll(ss, canMerge).tmp)
    decreases |ss|
  {
    hide AddSection, Inv, Accepts, Decide;
    if ss != [] {
      var n := |ss| - 1;
      var init := ss[..n];
      assert Sane(init) && Ordered(init);
      NeighboursAreMerged(init, canMerge);
      AddAllKeepsInv(init, canMerge);
      var b := AddAll(init, canMerge);
      AddSectionJoins(b.tmp, b.accepted, if init == [] then 0 else End(init[n - 1]), ss[n], canMerge);
    }
  }

  // ----- the device -----

  class VhostDev {
    const canMerge: MergeTest
    var tmpSections: seq<Section>
    var memSections: seq<Section>
    var regions: seq<Region>

    /** The table always describes the committed sections. */
    ghost predicate Valid()
      reads this
    {
      && regions == Regions(memSections)
      && forall i | 0 <= i < |tmpSections| :: tmpSections[i].size > 0
    }

    constructor (canMerge: MergeTest)
      ensures Valid() && memSections == [] && tmpSections == [] && this.canMerge == canMerge
    {
      this.canMerge := canMerge;
      tmpSections, memSections, regions := [], [], [];
    }

    method Begin()
      requires Valid()
      modifies `tmpSections
      ensures Valid() && tmpSections == []
    {
      tmpSections := [];
    }

    /** Aligns the start down and the size up to host pages. */
    method RoundToPages(s: Section) returns (host: int, size: int, gpa: int)
      requires s.mr.page > 0
      ensures host == RoundedHost(s) && size == RoundedSize(s) && gpa == RoundedGpa(s)
    {
      host, size, gpa := Host(s), s.size, s.gpa;
      var alignage := host % s.mr.page;
      if alignage != 0 {
        host, size, gpa := host - alignage, size + alignage, Wrap(gpa - alignage);
      }
      alignage := size % s.mr.page;
      if alignage != 0 {
        size := size + s.mr.page - alignage;
      }
    }

    method RegionAddSection(s: Section)
      requires Valid() && s.mr.page > 0 && s.size > 0
      modifies `tmpSections
      ensures tmpSections == AddSection(old(tmpSections), s, canMerge)
    {
      var needAdd := true;
      var host, size, gpa := RoundToPages(s);
      if |tmpSections| != 0 {
        var last := |tmpSections| - 1;
        var prev := tmpSections[last];
        var prevEnd, prevHostEnd := Wrap(End(prev) - 1), Wrap(HostEnd(prev) - 1);
        if gpa <= Wrap(prevEnd + 1) {
          if gpa < prev.gpa {
            return;
          }
          var offset := gpa - prev.gpa;
          if Host(prev) + offset == host && s.mr == prev.mr && canMerge(host, size, Host(prev), prev.size) {
            needAdd := false;
            var grown := Grow(prev, gpa, host, Max(prevHostEnd, host + size));
            tmpSections := tmpSections[..last] + [grown];
          } else if gpa != Wrap(prevEnd + 1) {
            return;
          }
        }
      }
      if needAdd {
        tmpSections := tmpSections + [s];
      }
    }

    method Grow(prev: Section, gpa: int, host: int, maxEnd: int) returns (grown: Section)
      requires prev.gpa <= gpa && Host(prev) <= host <= maxEnd
      ensures grown == prev.(size := maxEnd - Host(prev))
    {
      var start := Min(Host(prev), host);
      grown := prev.(gpa := Min(prev.gpa, gpa), off := start - prev.mr.hostBase, size := maxEnd - start);
    }

    /** Replaces the table; an unchanged section list keeps the table it already has. */
    method Commit()
      requires Valid()
      modifies `memSections, `regions
      ensures Valid() && memSections == tmpSections
    {
      var oldSections := memSections;
      memSections := tmpSections;
      var changed := false;
      if |memSections| != |oldSections| {
        changed := true;
      } else {
        changed := |oldSections| != 0 && memSections != oldSections;
      }
      if !changed {
        return;
      }
      var table: seq<Region> := [];
      for i := 0 to |memSections|
        invariant memSections == tmpSections && |table| == i
        invariant forall k | 0 <= k < i :: table[k] == ToRegion(memSections[k])
      {
        table := table + [Region(memSections[i].gpa, memSections[i].size, memSections[i].mr.hostBase + memSections[i].off)];
      }
      regions := table;
    }

    /** One update of the memory listener. */
    method Update(ss: seq<Section>)
      requires Valid() && forall i | 0 <= i < |ss| :: ss[i].mr.page > 0 && ss[i].size > 0
      modifies this
      ensures Valid() && regions == Regions(AddAll(ss, canMerge).tmp)
    {
      Begin();
      for i := 0 to |ss|
        invariant Valid() && tmpSections == AddAll(ss[..i], canMerge).tmp
      {
        AddAllStep(ss, i, canMerge);
        RegionAddSection(ss[i]);
      }
      assert ss[..|ss|] == ss;
      Commit();
    }

    method RegionLookup(gpa: nat) returns (r: Option<(int, int)>)
      ensures r == Lookup(regions, gpa)
    {
      assert regions[0..] == regions;
      for i := 0 to |regions|
        invariant Lookup(regions, gpa) == Lookup(regions[i..], gpa)
      {
        var reg := regions[i];
        assert regions[i..][1..] == regions[i + 1..];
        if gpa >= reg.gpa && Wrap(reg.gpa + reg.size) > gpa {
          return Some((reg.userAddr + gpa - reg.gpa, Wrap(reg.gpa + reg.size) - gpa));
        }
      }
      return None;
    }
  }
}

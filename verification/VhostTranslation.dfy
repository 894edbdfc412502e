/** The dirty log and the memory map agree: a page is marked where its guest address translates to. */
module VhostTranslation {
  import opened VhostDirtyLog
  import opened VhostSection
  import opened VhostSync
  import M = VhostMemory

  /**
   * A page inside the section it is marked for: the host address of the mark is the one to which the device's own table
   * translates the page.
   */
  lemma MarkIsTranslation(ss: seq<Section>, canMerge: M.MergeTest, log: seq<Word>, rs: seq<Range>, m: Mark)
    returns (i: nat)
    requires M.Sane(ss) && M.Ordered(ss) && m in Reported(log, M.AddAll(ss, canMerge).tmp, rs)
    ensures var tmp := M.AddAll(ss, canMerge).tmp;
      && i < |tmp| && m.mr == tmp[i].mr
      && (tmp[i].gpa <= m.page < tmp[i].gpa + tmp[i].size ==>
            match M.Lookup(M.Regions(tmp), m.page)
            case None => false
            case Some(r) => r.0 == m.mr.hostBase + m.offset)
  {
    var tmp := M.AddAll(ss, canMerge).tmp;
    var c, b;
    c, b, i := EveryMarkHasPlace(log, tmp, rs, m);
    M.AddAllInv(ss, canMerge);
    if tmp[i].gpa <= m.page < tmp[i].gpa + tmp[i].size {
      M.LookupInOrder(tmp, i, m.page);
    }
  }

  /** So it is the page of the original section that contains it: marked and translated at the section's own distance. */
  lemma MarkIsOriginal(ss: seq<Section>, canMerge: M.MergeTest, log: seq<Word>, rs: seq<Range>, m: Mark, s: Section)
    returns (i: nat)
    requires M.Sane(ss) && M.Ordered(ss) && m in Reported(log, M.AddAll(ss, canMerge).tmp, rs)
    requires s in M.AddAll(ss, canMerge).accepted && s.gpa <= m.page < s.gpa + s.size
    ensures var tmp := M.AddAll(ss, canMerge).tmp;
      && i < |tmp| && m.mr == tmp[i].mr
      && (tmp[i].gpa <= m.page < tmp[i].gpa + tmp[i].size ==>
            m.mr.hostBase + m.offset == s.mr.hostBase + s.off + (m.page - s.gpa))
  {
    i := MarkIsTranslation(ss, canMerge, log, rs, m);
    M.TranslatesAccepted(ss, canMerge, s, m.page);
  }
}

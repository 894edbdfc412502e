/** Scatter lists over pinned user pages: filling, copying and advancing them. */
module ScatterList {
  import opened AuthLength
  import opened Bytes

  const PAGE_SIZE := 0x1000
  const EINVAL := -22
  const ENOMEM := -12
  const MAX_SRTP_AUTH_DATA_DIFF := 256

  /** One table entry; pages are numbered as the user's virtual pages, `last` is the end mark. */
  datatype Entry = Entry(page: nat, offset: nat, length: nat, last: bool)

  // ----- the bytes a list denotes -----

  /** The user addresses start, start + 1, ... */
  function Span(start: nat, len: nat): (s: seq<nat>)
    ensures |s| == len && forall i | 0 <= i < len :: s[i] == start + i
    decreases len
  {
    if len == 0 then [] else [start] + Span(start + 1, len - 1)
  }

  function Start(e: Entry): nat { e.page * PAGE_SIZE + e.offset }

  function Denote(es: seq<Entry>): seq<nat> {
    if es == [] then [] else Span(Start(es[0]), es[0].length) + Denote(es[1..])
  }

  ghost predicate Terminated(t: seq<Entry>, k: nat)
    decreases |t| - k
  {
    k < |t| && (t[k].last || Terminated(t, k + 1))
  }

  /** The list that starts at entry k of a table. */
  ghost function ListFrom(t: seq<Entry>, k: nat): (es: seq<Entry>)
    requires Terminated(t, k)
    ensures es != [] && k + |es| <= |t| && es == t[k..k + |es|]
    decreases |t| - k
  {
    if t[k].last then [t[k]] else [t[k]] + ListFrom(t, k + 1)
  }

  lemma {:induction false} ListIs(t: seq<Entry>, k: nat, n: nat)
    requires 0 < n && k + n <= |t| && t[k + n - 1].last
    requires forall i | k <= i < k + n - 1 :: !t[i].last
    ensures Terminated(t, k) && ListFrom(t, k) == t[k..k + n]
    decreases n
  {
    if n > 1 {
      ListIs(t, k + 1, n - 1);
    }
  }

  lemma SpanAppend(start: nat, a: nat, b: nat)
    ensures Span(start, a + b) == Span(start, a) + Span(start + a, b)
  {
  }

  lemma SpanSlice(start: nat, len: nat, n: nat)
    requires n <= len
    ensures Span(start, len)[..n] == Span(start, n) && Span(start, len)[n..] == Span(start + n, len - n)
  {
  }

  lemma {:induction false} DenoteAppend(a: seq<Entry>, b: seq<Entry>)
    ensures Denote(a + b) == Denote(a) + Denote(b)
  {
    if a == [] {
      assert a + b == b;
    } else {
      ConcatTail(a, b);
      DenoteAppend(a[1..], b);
      ConcatAssociative(Span(Start(a[0]), a[0].length), Denote(a[1..]), Denote(b));
    }
  }

  lemma DenoteOne(e: Entry)
    ensures Denote([e]) == Span(Start(e), e.length)
  {
    assert [e][1..] == [];
    assert Denote([e]) == Span(Start(e), e.length) + [];
  }

  // ----- pages of a buffer -----

  /** Pages touched by `len` bytes at `addr`. */
  function PageCount(addr: nat, len: nat): (n: nat)
    ensures n == 0 <==> len == 0
  {
    if len == 0 then 0 else (addr + len - 1) / PAGE_SIZE - addr / PAGE_SIZE + 1
  }

  /** The part of the buffer on its i-th page. */
  function PieceStart(addr: nat, i: nat): nat { Max(addr, (addr / PAGE_SIZE + i) * PAGE_SIZE) }
  function PieceEnd(addr: nat, len: nat, i: nat): nat { Min(addr + len, (addr / PAGE_SIZE + i + 1) * PAGE_SIZE) }

  ghost predicate IsPiece(e: Entry, addr: nat, len: nat, i: nat) {
    && e.page == addr / PAGE_SIZE + i
    && Start(e) == PieceStart(addr, i) && Start(e) + e.length == PieceEnd(addr, len, i)
    && e.offset + e.length <= PAGE_SIZE && 0 < e.length
  }

  /** End of the first n pieces. */
  function EndOf(addr: nat, len: nat, n: nat): nat { if n == 0 then addr else PieceEnd(addr, len, n - 1) }

  /** Each piece starts where the one before ends. */
  lemma PieceFollows(e: Entry, addr: nat, len: nat, i: nat)
    requires i < PageCount(addr, len) && IsPiece(e, addr, len, i)
    ensures addr <= EndOf(addr, len, i) == Start(e) && Start(e) + e.length == EndOf(addr, len, i + 1)
  {
  }

  /** The i-th entry starts at its bound and ends at the next one. */
  ghost predicate ChainAt(es: seq<Entry>, bounds: seq<nat>, i: nat)
    requires i < |es| < |bounds|
  {
    Start(es[i]) == bounds[i] && Start(es[i]) + es[i].length == bounds[i + 1]
  }

  ghost predicate Chain(es: seq<Entry>, bounds: seq<nat>) {
    |bounds| == |es| + 1 && forall i | 0 <= i < |es| :: ChainAt(es, bounds, i)
  }

  /** Entries that follow each other without a gap denote one contiguous range. */
  lemma {:induction false} ChainDenotes(es: seq<Entry>, bounds: seq<nat>, n: nat)
    requires Chain(es, bounds) && n <= |es|
    ensures bounds[0] <= bounds[n] && Denote(es[..n]) == Span(bounds[0], bounds[n] - bounds[0])
  {
    if n > 0 {
      var e := es[n - 1];
      assert ChainAt(es, bounds, n - 1);
      ChainDenotes(es, bounds, n - 1);
      assert es[..n - 1] + [e] == es[..n];
      assert Denote(es[..n]) == Denote(es[..n - 1]) + Span(Start(e), e.length) by {
        DenoteAppend(es[..n - 1], [e]);
        DenoteOne(e);
      }
      SpanAppend(bounds[0], bounds[n - 1] - bounds[0], e.length);
    }
  }

  lemma WholeChainDenotes(es: seq<Entry>, bounds: seq<nat>)
    requires Chain(es, bounds)
    ensures bounds[0] <= bounds[|es|] && Denote(es) == Span(bounds[0], bounds[|es|] - bounds[0])
  {
    hide Denote, Span, ChainAt;
    ChainDenotes(es, bounds, |es|);
    assert es[..|es|] == es;
  }

  lemma LastPieceEnds(addr: nat, len: nat)
    requires 0 < len
    ensures EndOf(addr, len, PageCount(addr, len)) == addr + len
  {
  }

  lemma PiecesChain(es: seq<Entry>, addr: nat, len: nat) returns (bounds: seq<nat>)
    requires |es| == PageCount(addr, len)
    requires forall i | 0 <= i < |es| :: IsPiece(es[i], addr, len, i)
    ensures Chain(es, bounds) && bounds[0] == addr && bounds[|es|] == EndOf(addr, len, |es|)
  {
    bounds := seq(|es| + 1, i requires 0 <= i <= |es| => EndOf(addr, len, i));
    forall i | 0 <= i < |es| ensures ChainAt(es, bounds, i) {
      PieceFollows(es[i], addr, len, i);
    }
  }

  /** Pieces page by page make up exactly the buffer. */
  lemma AllPiecesDenote(es: seq<Entry>, addr: nat, len: nat)
    requires 0 < len && |es| == PageCount(addr, len)
    requires forall i | 0 <= i < |es| :: IsPiece(es[i], addr, len, i)
    ensures Denote(es) == Span(addr, len)
  {
    var bounds := PiecesChain(es, addr, len);
    LastPieceEnds(addr, len);
    WholeChainDenotes(es, bounds);
  }

  /** Entries base..base + n of a table are the pieces of a buffer, the last one marked. */
  ghost predicate Holds(t: seq<Entry>, base: nat, addr: nat, len: nat) {
    && 0 < len && base + PageCount(addr, len) <= |t|
    && (forall k | base <= k < base + PageCount(addr, len) ::
          IsPiece(t[k], addr, len, k - base) && (t[k].last <==> k == base + PageCount(addr, len) - 1))
  }

  /** The list at entry k denotes the buffer. */
  ghost predicate Denotes(t: seq<Entry>, k: nat, addr: nat, len: nat) {
    Terminated(t, k) && Denote(ListFrom(t, k)) == Span(addr, len)
  }

  /** Such a table portion is a list of exactly that many entries, and it denotes the buffer. */
  lemma HoldsDenotes(t: seq<Entry>, base: nat, addr: nat, len: nat)
    requires Holds(t, base, addr, len)
    ensures Terminated(t, base) && |ListFrom(t, base)| == PageCount(addr, len)
    ensures Denotes(t, base, addr, len)
  {
    var n := PageCount(addr, len);
    ListIs(t, base, n);
    var es := t[base..base + n];
    forall i | 0 <= i < n ensures IsPiece(es[i], addr, len, i) {
      assert IsPiece(t[base + i], addr, len, base + i - base);
    }
    AllPiecesDenote(es, addr, len);
  }

  // ----- filling a list from user pages -----

  method InitTable(sg: array<Entry>, base: nat, n: nat)
    requires base + n <= sg.Length && n > 0
    modifies sg
    ensures forall k | base <= k < base + n :: sg[k] == Entry(0, 0, 0, k == base + n - 1)
    ensures forall k | 0 <= k < sg.Length && !(base <= k < base + n) :: sg[k] == old(sg[k])
  {
    for i := 0 to n
      invariant forall k | base <= k < base + i :: sg[k] == Entry(0, 0, 0, false)
      invariant forall k | 0 <= k < sg.Length && !(base <= k < base + n) :: sg[k] == old(sg[k])
    {
      sg[base + i] := Entry(0, 0, 0, false);
    }
    sg[base + n - 1] := sg[base + n - 1].(last := true);
  }

  /** get_user_pages: the i-th page of the buffer, if all of them can be pinned. */
  method PinPages(addr: nat, n: nat, pages: array<nat>, base: nat)
    requires base + n <= pages.Length
    modifies pages
    ensures forall k | base <= k < base + n :: pages[k] == addr / PAGE_SIZE + k - base
    ensures forall k | 0 <= k < pages.Length && !(base <= k < base + n) :: pages[k] == old(pages[k])
  {
    forall k | base <= k < base + n {
      pages[k] := addr / PAGE_SIZE + k - base;
    }
  }

  lemma FirstPiece(addr: nat, len: nat, e: Entry)
    requires 0 < len && e.page == addr / PAGE_SIZE && e.offset == addr % PAGE_SIZE
    requires e.length == Min(PAGE_SIZE - addr % PAGE_SIZE, len)
    ensures IsPiece(e, addr, len, 0) && PieceEnd(addr, len, 0) == addr + e.length
    ensures e.length < len ==> PageCount(addr, len) > 1
    ensures e.length == len ==> PageCount(addr, len) == 1
  {
  }

  lemma NextPiece(addr: nat, len: nat, e: Entry, i: nat)
    requires 0 < i < PageCount(addr, len) && e.page == addr / PAGE_SIZE + i && e.offset == 0
    requires PieceEnd(addr, len, i - 1) < addr + len
    requires e.length == Min(PAGE_SIZE, addr + len - PieceEnd(addr, len, i - 1))
    ensures IsPiece(e, addr, len, i) && PieceEnd(addr, len, i) == PieceEnd(addr, len, i - 1) + e.length
    ensures PieceEnd(addr, len, i) < addr + len ==> i + 1 < PageCount(addr, len)
    ensures PieceEnd(addr, len, i) == addr + len ==> i + 1 == PageCount(addr, len)
  {
  }

  method FillEntries(addr: nat, len: nat, pgcount: nat, pages: array<nat>, pbase: nat, sg: array<Entry>, base: nat)
    requires 0 < len && pgcount == PageCount(addr, len) && base + pgcount <= sg.Length && pbase + pgcount <= pages.Length
    requires forall k | pbase <= k < pbase + pgcount :: pages[k] == addr / PAGE_SIZE + k - pbase
    modifies sg
    ensures Holds(sg[..], base, addr, len)
    ensures forall k | 0 <= k < sg.Length && !(base <= k < base + pgcount) :: sg[k] == old(sg[k])
  {
    InitTable(sg, base, pgcount);
    var pglen := Min(PAGE_SIZE - addr % PAGE_SIZE, len);
    sg[base] := sg[base].(page := pages[pbase], length := pglen, offset := addr % PAGE_SIZE);
    FirstPiece(addr, len, sg[base]);
    var i, left := 1, len - pglen;
    while left != 0
      invariant 1 <= i <= pgcount && left == addr + len - PieceEnd(addr, len, i - 1)
      invariant if left > 0 then i < pgcount else i == pgcount
      invariant forall k | base <= k < base + i :: IsPiece(sg[k], addr, len, k - base)
      invariant forall k | base <= k < base + pgcount :: sg[k].last <==> k == base + pgcount - 1
      invariant forall k | 0 <= k < sg.Length && !(base <= k < base + pgcount) :: sg[k] == old(sg[k])
      decreases left
    {
      pglen := Min(PAGE_SIZE, left);
      var e := sg[base + i].(page := pages[pbase + i], length := pglen, offset := 0);
      NextPiece(addr, len, e, i);
      sg[base + i] := e;
      i, left := i + 1, left - pglen;
    }
    sg[base + pgcount - 1] := sg[base + pgcount - 1].(last := true);
  }

  /**
   * __get_userbuf: exactly `pgcount` entries from `base` on, denoting the buffer; nothing else is touched. Without
   * anything to pin it marks the entry at `base`, which is not checked to be one of the table: `stray` is whether it
   * is the one behind it.
   */
  method GetUserPages(addr: nat, len: nat, pgcount: nat, pinned: bool,
                      pages: array<nat>, pbase: nat, sg: array<Entry>, base: nat) returns (r: int, stray: bool)
    requires pgcount == PageCount(addr, len)
    requires base + pgcount <= sg.Length && pbase + pgcount <= pages.Length
    modifies pages, sg
    ensures stray <==> (len == 0 || addr == 0) && base == sg.Length
    ensures forall k | 0 <= k < sg.Length && !(base <= k < base + Max(pgcount, 1)) :: sg[k] == old(sg[k])
    ensures forall k | 0 <= k < pages.Length && !(pbase <= k < pbase + pgcount) :: pages[k] == old(pages[k])
    ensures if len == 0 || addr == 0
            then r == 0 && pages[..] == old(pages[..]) && (!stray ==> sg[..] == old(Marked(sg[..], base)))
            else if !pinned then r == EINVAL && sg[..] == old(sg[..])
            else
              && r == 0 && Holds(sg[..], base, addr, len)
              && forall k | pbase <= k < pbase + pgcount :: pages[k] == addr / PAGE_SIZE + k - pbase
  {
    stray := false;
    if pgcount == 0 || len == 0 || addr == 0 {
      stray := base == sg.Length;
      if !stray {
        sg[base] := sg[base].(last := true);
      }
      return 0, stray;
    }
    if !pinned {
      return EINVAL, stray;
    }
    PinPages(addr, pgcount, pages, pbase);
    FillEntries(addr, len, pgcount, pages, pbase, sg, base);
    r := 0;
  }

  /** The table with one more end mark. */
  function Marked(t: seq<Entry>, base: nat): (u: seq<Entry>)
    requires base <= |t|
    ensures |u| == |t|
  {
    if base < |t| then t[base := t[base].(last := true)] else t
  }

  // ----- copying and advancing -----

  /** The copy of `len` bytes has enough source entries and table slots. */
  predicate CopyFits(from: seq<Entry>, slots: nat, len: nat) {
    from != [] && slots > 0 &&
    (len > from[0].length ==> CopyFits(from[1..], slots - 1, len - from[0].length))
  }

  /** The entries that cover the first `len` bytes of `from`. */
  function Copied(from: seq<Entry>, len: nat): seq<Entry> {
    if from == [] then []
    else if len > from[0].length then [from[0].(last := false)] + Copied(from[1..], len - from[0].length)
    else [from[0].(length := len, last := true)]
  }

  /** The first bytes of a list, beyond its first entry or inside it. */
  lemma DenotePrefix(es: seq<Entry>, len: nat)
    requires es != [] && len <= |Denote(es)|
    ensures Denote(es)[..len] ==
            if len > es[0].length then Span(Start(es[0]), es[0].length) + Denote(es[1..])[..len - es[0].length]
            else Span(Start(es[0]), len)
  {
    if len <= es[0].length {
      SpanSlice(Start(es[0]), es[0].length, len);
    }
  }

  /** The copy denotes the first `len` bytes. */
  lemma {:induction false} CopiedDenotes(from: seq<Entry>, len: nat)
    requires len <= |Denote(from)|
    ensures Denote(Copied(from, len)) == Denote(from)[..len]
  {
    if from != [] {
      var n := from[0].length;
      DenotePrefix(from, len);
      if len > n {
        CopiedDenotes(from[1..], len - n);
        assert Copied(from, len)[1..] == Copied(from[1..], len - n);
      } else {
        DenoteOne(from[0].(length := len, last := true));
      }
    }
  }

  /** The copy fits exactly when the list has that many bytes and the copy needs no more than the slots. */
  lemma {:induction false} CopyFitsExactly(from: seq<Entry>, slots: nat, len: nat)
    ensures CopyFits(from, slots, len) <==>
            from != [] && slots > 0 && len <= |Denote(from)| && |Copied(from, len)| <= slots
  {
    if from != [] {
      assert |Denote(from)| == from[0].length + |Denote(from[1..])|;
      if len > from[0].length && slots > 0 {
        CopyFitsExactly(from[1..], slots - 1, len - from[0].length);
        assert |Copied(from, len)| == 1 + |Copied(from[1..], len - from[0].length)|;
        assert len <= |Denote(from)| ==> from[1..] != [];
        CopiedNeedsOne(from[1..], len - from[0].length);
      }
    }
  }

  lemma CopiedNeedsOne(from: seq<Entry>, len: nat)
    ensures from != [] ==> Copied(from, len) != []
    ensures |Copied(from, len)| <= |from|
  {
    if from != [] && len > from[0].length {
      CopiedNeedsOne(from[1..], len - from[0].length);
    }
  }

  /** The copy denotes the first `len` bytes, and it fits exactly when there are that many and enough slots for it. */
  lemma CopyDenotes(from: seq<Entry>, slots: nat, len: nat)
    ensures CopyFits(from, slots, len) <==>
            from != [] && slots > 0 && len <= |Denote(from)| && |Copied(from, len)| <= slots
    ensures CopyFits(from, slots, len) ==> Denote(Copied(from, len)) == Denote(from)[..len]
  {
    CopyFitsExactly(from, slots, len);
    if CopyFits(from, slots, len) {
      CopiedDenotes(from, len);
    }
  }

  /** What remains of a list after `consumed` bytes. */
  function Advanced(es: seq<Entry>, consumed: nat): seq<Entry> {
    if es == [] then []
    else if consumed >= es[0].length then Advanced(es[1..], consumed - es[0].length)
    else [Moved(es[0], consumed)] + es[1..]
  }

  /** The entry without its first n bytes; the offset stays below one page. */
  function Moved(e: Entry, n: nat): Entry
    requires n < e.length
  {
    Entry(e.page + (e.offset + n) / PAGE_SIZE, (e.offset + n) % PAGE_SIZE, e.length - n, e.last)
  }

  lemma DenoteDrop(es: seq<Entry>, consumed: nat)
    requires es != [] && consumed >= es[0].length
    ensures |Denote(es)| == es[0].length + |Denote(es[1..])|
    ensures consumed <= |Denote(es)| ==> Denote(es)[consumed..] == Denote(es[1..])[consumed - es[0].length..]
  {
  }

  lemma DropInside(a: seq<nat>, b: seq<nat>, n: nat)
    requires n <= |a|
    ensures (a + b)[n..] == a[n..] + b
  {
  }

  lemma MovedDenotes(e: Entry, n: nat)
    requires n < e.length
    ensures Denote([Moved(e, n)]) == Span(Start(e), e.length)[n..]
  {
    DenoteOne(Moved(e, n));
    MovedStart(e, n);
    SpanSlice(Start(e), e.length, n);
  }

  lemma MovedStart(e: Entry, n: nat)
    requires n < e.length
    ensures Start(Moved(e, n)) == Start(e) + n
  {
  }

  lemma AdvanceInside(es: seq<Entry>, consumed: nat)
    requires es != [] && consumed < es[0].length
    ensures consumed < |Denote(es)| && Denote([Moved(es[0], consumed)] + es[1..]) == Denote(es)[consumed..]
  {
    DenoteAppend([Moved(es[0], consumed)], es[1..]);
    MovedDenotes(es[0], consumed);
    DropInside(Span(Start(es[0]), es[0].length), Denote(es[1..]), consumed);
  }

  /** Advancing drops exactly the consumed bytes; nothing is left exactly when all of them are consumed. */
  lemma {:induction false} AdvanceDenotes(es: seq<Entry>, consumed: nat)
    ensures Advanced(es, consumed) == [] <==> consumed >= |Denote(es)|
    ensures consumed <= |Denote(es)| ==> Denote(Advanced(es, consumed)) == Denote(es)[consumed..]
  {
    if es != [] {
      if consumed >= es[0].length {
        AdvanceDenotes(es[1..], consumed - es[0].length);
        DenoteDrop(es, consumed);
      } else {
        AdvanceInside(es, consumed);
      }
    }
  }

  lemma ListHead(t: seq<Entry>, k: nat)
    requires Terminated(t, k)
    ensures ListFrom(t, k)[0] == t[k]
    ensures t[k].last ==> ListFrom(t, k)[1..] == []
    ensures !t[k].last ==> Terminated(t, k + 1) && ListFrom(t, k)[1..] == ListFrom(t, k + 1)
  {
  }

  /** Changing an entry in front of a list, or the contents of its first entry, leaves the rest of the list alone. */
  lemma {:induction false} ListOfSuffix(t: seq<Entry>, u: seq<Entry>, k: nat)
    requires Terminated(t, k) && |t| == |u| && forall i | k <= i < |t| :: t[i] == u[i]
    ensures Terminated(u, k) && ListFrom(u, k) == ListFrom(t, k)
    decreases |t| - k
  {
    if !t[k].last {
      ListOfSuffix(t, u, k + 1);
    }
  }

  lemma ListWithHead(t: seq<Entry>, k: nat, e: Entry)
    requires Terminated(t, k) && e.last == t[k].last
    ensures Terminated(t[k := e], k) && ListFrom(t[k := e], k) == [e] + ListFrom(t, k)[1..]
  {
    ListHead(t, k);
    if !t[k].last {
      ListOfSuffix(t, t[k := e], k + 1);
    }
    ListHead(t[k := e], k);
  }

  /** Entries k0..k are consumed; what is left to do at entry k leads to `goal`. */
  ghost predicate Advancing(t: seq<Entry>, k0: nat, k: nat, consumed: nat, goal: seq<Entry>)
    requires Terminated(t, k0)
  {
    && k0 <= k < k0 + |ListFrom(t, k0)| && Terminated(t, k) && k + |ListFrom(t, k)| == k0 + |ListFrom(t, k0)|
    && Advanced(ListFrom(t, k), consumed) == goal
  }

  lemma AdvancingNext(t: seq<Entry>, k0: nat, k: nat, consumed: nat, goal: seq<Entry>)
    requires Terminated(t, k0) && Advancing(t, k0, k, consumed, goal) && consumed >= t[k].length
    ensures if t[k].last then goal == [] else Advancing(t, k0, k + 1, consumed - t[k].length, goal)
  {
    var es := ListFrom(t, k);
    ListHead(t, k);
    assert Advanced(es, consumed) == Advanced(es[1..], consumed - es[0].length);
  }

  lemma AdvancingEnds(t: seq<Entry>, k0: nat, k: nat, consumed: nat, goal: seq<Entry>)
    requires Terminated(t, k0) && Advancing(t, k0, k, consumed, goal) && consumed < t[k].length
    ensures var u := t[k := Moved(t[k], consumed)];
            Terminated(u, k) && ListFrom(u, k) == goal && goal != []
  {
    ListHead(t, k);
    ListWithHead(t, k, Moved(t[k], consumed));
  }

  /** The entry after `consumed` of its bytes; only an offset beyond the page changes the page. */
  method MoveEntry(e0: Entry, consumed: nat) returns (e: Entry)
    requires consumed < e0.length
    ensures e == Moved(e0, consumed)
  {
    e := e0.(offset := e0.offset + consumed, length := e0.length - consumed);
    if e.offset >= PAGE_SIZE {
      e := e.(page := e.page + e.offset / PAGE_SIZE, offset := e.offset % PAGE_SIZE);
    }
  }

  /** sg_advance: the list without its first bytes, or None when they are all consumed. */
  method SgAdvance(sg: array<Entry>, k0: nat, consumed0: nat) returns (r: Option<nat>)
    requires Terminated(sg[..], k0)
    modifies sg
    ensures r == None <==> Advanced(old(ListFrom(sg[..], k0)), consumed0) == []
    ensures r == None ==> sg[..] == old(sg[..])
    ensures r.Some? ==>
              && k0 <= r.value < k0 + |old(ListFrom(sg[..], k0))|
              && (forall i | 0 <= i < sg.Length && i != r.value :: sg[i] == old(sg[i]))
              && Terminated(sg[..], r.value)
              && ListFrom(sg[..], r.value) == Advanced(old(ListFrom(sg[..], k0)), consumed0)
  {
    ghost var t := sg[..];
    ghost var goal := Advanced(ListFrom(t, k0), consumed0);
    var k, consumed, ends := SkipEntries(sg, k0, consumed0, goal);
    if ends {
      return None;
    }
    AdvancingEnds(t, k0, k, consumed, goal);
    sg[k] := MoveEntry(sg[k], consumed);
    assert sg[..] == t[k := Moved(t[k], consumed)];
    return Some(k);
  }

  /** The loop of sg_advance: to the entry in which the remaining bytes end, if there is one. */
  method SkipEntries(sg: array<Entry>, k0: nat, consumed0: nat, ghost goal: seq<Entry>)
    returns (k: nat, consumed: nat, ends: bool)
    requires Terminated(sg[..], k0) && Advancing(sg[..], k0, k0, consumed0, goal)
    ensures if ends then goal == [] else k < sg.Length && consumed < sg[k].length && Advancing(sg[..], k0, k, consumed, goal)
  {
    hide Advanced;
    k, consumed := k0, consumed0;
    while consumed >= sg[k].length
      invariant k < sg.Length && Advancing(sg[..], k0, k, consumed, goal)
      decreases sg.Length - k
    {
      AdvancingNext(sg[..], k0, k, consumed, goal);
      if sg[k].last {
        return k, consumed, true;
      }
      k, consumed := k + 1, consumed - sg[k].length;
    }
    ends := false;
  }

  /** The slots of a freshly initialised table portion: only the last one carries the end mark. */
  ghost predicate Slots(t: seq<Entry>, base: nat, n: nat) {
    0 < n && base + n <= |t| && forall k | base <= k < base + n :: t[k].last <==> k == base + n - 1
  }

  /** A copy from the list `source` at from0 into the slots behind it, in the table t. */
  datatype Copy = Copy(t: seq<Entry>, source: seq<Entry>, from0: nat, to0: nat, slots: nat, len: nat)
  {
    ghost predicate Valid() {
      && source != [] && from0 + |source| <= to0 && Slots(t, to0, slots)
      && (forall i | 0 <= i < |source| :: SourceAt(i))
    }

    ghost predicate SourceAt(i: nat)
      requires i < |source|
    {
      from0 + i < |t| && t[from0 + i] == source[i] && (source[i].last <==> i == |source| - 1)
    }

    /** Nothing but the slots has changed. */
    ghost predicate Outside(now: seq<Entry>) {
      |now| == |t| && forall k | 0 <= k < |t| && !(to0 <= k < to0 + slots) :: now[k] == t[k]
    }

    /** After i whole entries: the slots in front hold their copies, the rest is still to be done. */
    ghost predicate Done(now: seq<Entry>, i: nat, left: int) {
      && |now| == |t| && i < |source| && i < slots && 0 <= left <= len && from0 + |source| <= to0 && to0 + slots <= |t|
      && (forall k | 0 <= k < |t| && !(to0 <= k < to0 + i) :: now[k] == t[k])
      && (forall k | to0 <= k < to0 + i :: !now[k].last)
      && CopyFits(source, slots, len) == CopyFits(source[i..], slots - i, left)
      && Copied(source, len) == now[to0..to0 + i] + Copied(source[i..], left)
      && (left == 0 ==> len == 0)
    }
  }

  lemma CopyStarts(c: Copy)
    requires c.Valid()
    ensures c.Done(c.t, 0, c.len)
  {
    assert c.source[0..] == c.source && c.t[c.to0..c.to0 + 0] + Copied(c.source, c.len) == Copied(c.source, c.len);
  }

  /** The entry under way and the slot for it are still those of the table. */
  lemma CopyHead(c: Copy, now: seq<Entry>, i: nat, left: int)
    requires c.Valid() && c.Done(now, i, left)
    ensures now[c.from0 + i] == c.source[i] && (c.source[i].last <==> i == |c.source| - 1)
    ensures now[c.to0 + i].last <==> i == c.slots - 1
  {
    assert c.SourceAt(i);
  }

  lemma CopyNext(c: Copy, now: seq<Entry>, i: nat, left: int)
    requires c.Valid() && c.Done(now, i, left) && left > c.source[i].length
    requires i + 1 < |c.source| && i + 1 < c.slots
    ensures c.Done(now[c.to0 + i := c.source[i].(last := false)], i + 1, left - c.source[i].length)
  {
    var e := c.source[i].(last := false);
    var next, rest := now[c.to0 + i := e], Copied(c.source[i + 1..], left - c.source[i].length);
    assert c.source[i..][0] == c.source[i] && c.source[i..][1..] == c.source[i + 1..];
    assert next[c.to0..c.to0 + i + 1] == now[c.to0..c.to0 + i] + [e];
    ConcatAssociative(now[c.to0..c.to0 + i], [e], rest);
  }

  lemma CopyFails(c: Copy, now: seq<Entry>, i: nat, left: int)
    requires c.Done(now, i, left) && left > c.source[i].length && (i + 1 == |c.source| || i + 1 == c.slots)
    ensures !CopyFits(c.source, c.slots, c.len)
  {
    TailFails(c.source, c.slots, i, left);
  }

  lemma TailFails(source: seq<Entry>, slots: nat, i: nat, left: int)
    requires i < |source| && i < slots && left > source[i].length && (i + 1 == |source| || i + 1 == slots)
    ensures !CopyFits(source[i..], slots - i, left)
  {
    assert source[i..][0] == source[i] && source[i..][1..] == source[i + 1..];
  }

  lemma CopyEnds(c: Copy, now: seq<Entry>, i: nat, left: int)
    requires c.Done(now, i, left) && left <= c.source[i].length
    ensures CopyFits(c.source, c.slots, c.len)
    ensures left > 0 ==>
              var last := now[c.to0 + i := c.source[i].(length := left, last := true)];
              Terminated(last, c.to0) && ListFrom(last, c.to0) == Copied(c.source, c.len)
  {
    assert c.source[i..][0] == c.source[i];
    if left > 0 {
      var last := now[c.to0 + i := c.source[i].(length := left, last := true)];
      ListIs(last, c.to0, i + 1);
      assert last[c.to0..c.to0 + i + 1] == now[c.to0..c.to0 + i] + [last[c.to0 + i]];
    }
  }

  /** One turn of the loop of sg_copy: a whole entry is copied and a further one is found behind it on both sides. */
  method CopyEntry(sg: array<Entry>, from: nat, dst: nat, left: nat, ghost c: Copy, ghost i: nat) returns (ok: bool)
    requires c.Valid() && c.Done(sg[..], i, left) && from == c.from0 + i && dst == c.to0 + i
    requires left > sg[from].length
    modifies sg
    ensures sg[from] == old(sg[from]) && c.Outside(sg[..])
    ensures ok ==> c.Done(sg[..], i + 1, left - sg[from].length)
    ensures !ok ==> !CopyFits(c.source, c.slots, c.len) && Slots(sg[..], c.to0, c.slots)
  {
    ghost var now := sg[..];
    CopyHead(c, now, i, left);
    var rest := left - sg[from].length;
    sg[dst] := sg[from].(last := sg[dst].last);
    if rest != 0 && (sg[dst].last || sg[from].last) {
      CopyFails(c, now, i, left);
      return false;
    }
    CopyNext(c, now, i, left);
    assert sg[..] == now[dst := sg[dst]];
    return true;
  }

  method FinishCopy(sg: array<Entry>, from: nat, dst: nat, left: nat, ghost c: Copy, ghost i: nat) returns (r: int)
    requires c.Valid() && c.Done(sg[..], i, left) && from == c.from0 + i && dst == c.to0 + i
    requires left <= sg[from].length
    modifies sg
    ensures r == 0 && CopyFits(c.source, c.slots, c.len) && c.Outside(sg[..])
    ensures c.len > 0 ==> Terminated(sg[..], c.to0) && ListFrom(sg[..], c.to0) == Copied(c.source, c.len)
    ensures c.len == 0 ==> sg[c.to0] == c.t[c.to0].(last := true)
  {
    ghost var now := sg[..];
    CopyHead(c, now, i, left);
    CopyEnds(c, now, i, left);
    if left != 0 {
      sg[dst] := sg[from].(length := left, last := sg[dst].last);
    }
    sg[dst] := sg[dst].(last := true);
    assert sg[..] == now[dst := sg[dst]];
    return 0;
  }

  /** sg_copy: entries for the first `len` bytes, or -ENOMEM when source or slots do not suffice. */
  method SgCopy(sg: array<Entry>, from0: nat, to0: nat, ghost slots: nat, len: nat) returns (r: int)
    requires Terminated(sg[..], from0) && Slots(sg[..], to0, slots)
    requires from0 + |ListFrom(sg[..], from0)| <= to0
    modifies sg
    ensures forall k | 0 <= k < sg.Length && !(to0 <= k < to0 + slots) :: sg[k] == old(sg[k])
    ensures r in {0, ENOMEM} && (r == 0 <==> CopyFits(old(ListFrom(sg[..], from0)), slots, len))
    ensures r == 0 && len > 0 ==>
              Terminated(sg[..], to0) && ListFrom(sg[..], to0) == Copied(old(ListFrom(sg[..], from0)), len)
    ensures r == 0 && len == 0 ==> sg[to0] == old(sg[to0]).(last := true)
    ensures r != 0 ==> Slots(sg[..], to0, slots)
  {
    ghost var c := Copy(sg[..], ListFrom(sg[..], from0), from0, to0, slots, len);
    SourceOf(c);
    r := CopyLoop(sg, from0, to0, len, c);
  }

  method CopyLoop(sg: array<Entry>, from0: nat, to0: nat, len: nat, ghost c: Copy) returns (r: int)
    requires c.Valid() && sg[..] == c.t && from0 == c.from0 && to0 == c.to0 && len == c.len
    modifies sg
    ensures c.Outside(sg[..]) && r in {0, ENOMEM} && (r == 0 <==> CopyFits(c.source, c.slots, len))
    ensures r == 0 && len > 0 ==> Terminated(sg[..], to0) && ListFrom(sg[..], to0) == Copied(c.source, len)
    ensures r == 0 && len == 0 ==> sg[to0] == c.t[to0].(last := true)
    ensures r != 0 ==> Slots(sg[..], to0, c.slots)
  {
    ghost var i := 0;
    CopyStarts(c);
    var from, dst, left := from0, to0, len;
    while left > sg[from].length
      invariant from == from0 + i && dst == to0 + i && c.Done(sg[..], i, left)
      decreases sg.Length - from
    {
      var ok := CopyEntry(sg, from, dst, left, c, i);
      if !ok {
        return ENOMEM;
      }
      left := left - sg[from].length;
      dst, from, i := dst + 1, from + 1, i + 1;
    }
    r := FinishCopy(sg, from, dst, left, c, i);
  }

  lemma SourceOf(c: Copy)
    requires Terminated(c.t, c.from0) && c.source == ListFrom(c.t, c.from0)
    requires c.from0 + |c.source| <= c.to0 && Slots(c.t, c.to0, c.slots)
    ensures c.Valid()
  {
    LastOfList(c.t, c.from0);
    forall i | 0 <= i < |c.source| ensures c.SourceAt(i) {
      assert c.t[c.from0 + i] == c.source[i];
    }
  }

  /** Only the last entry of a list carries the end mark. */
  lemma {:induction false} LastOfList(t: seq<Entry>, k: nat)
    requires Terminated(t, k)
    ensures forall i | k <= i < k + |ListFrom(t, k)| :: t[i].last <==> i == k + |ListFrom(t, k)| - 1
    decreases |t| - k
  {
    if !t[k].last {
      LastOfList(t, k + 1);
    }
  }

  // ----- the session's tables -----

  lemma PageCountGrows(addr: nat, a: nat, b: nat)
    requires a <= b
    ensures PageCount(addr, a) <= PageCount(addr, b)
  {
  }

  /** The smallest size, doubling from the present one, that takes `pagecount` entries. */
  function Grown(size: nat, pagecount: nat): (n: nat)
    requires size > 0
    ensures n >= size && n >= pagecount
    decreases pagecount - size
  {
    if size >= pagecount then size else Grown(size * 2, pagecount)
  }

  /** The size is doubled as often as it must be, and no oftener. */
  lemma {:induction false} GrownDoubles(size: nat, pagecount: nat) returns (times: nat)
    requires size > 0
    ensures Grown(size, pagecount) == Doubled(size, times)
    ensures times > 0 ==> Doubled(size, times - 1) < pagecount
    ensures times == 0 <==> size >= pagecount
    decreases pagecount - size
  {
    times := 0;
    if size < pagecount {
      times := GrownDoubles(size * 2, pagecount);
      times := times + 1;
    }
  }

  function Doubled(size: nat, times: nat): nat
    decreases times
  {
    if times == 0 then size else Doubled(2 * size, times - 1)
  }

  /** How many entries both buffers need. */
  function Used(src: nat, srcLen: nat, dst: nat, dstLen: nat): nat {
    if src == dst then Max(PageCount(src, srcLen), PageCount(dst, dstLen))
    else PageCount(src, srcLen) + PageCount(dst, dstLen)
  }

  /** A null buffer has no bytes. */
  function Length(addr: nat, len: nat): nat { if addr == 0 then 0 else len }

  /** An entry that is empty or does not start at address 0, where nothing is ever pinned. */
  predicate NotNull(e: Entry) { e.length == 0 || Start(e) > 0 }

  class Session {
    var arraySize: nat
    var usedPages: nat
    var readonlyPages: nat
    var pages: array<nat>
    var sg: array<Entry>

    ghost predicate Valid()
      reads this, sg
    {
      0 < arraySize == sg.Length <= pages.Length && NotNull(sg[0])
    }

    constructor (prealloc: nat)
      requires prealloc > 0
      ensures Valid() && fresh(pages) && fresh(sg) && arraySize == prealloc
    {
      arraySize, usedPages, readonlyPages := prealloc, 0, 0;
      pages := new nat[prealloc](_ => 0);
      sg := new Entry[prealloc](_ => Entry(0, 0, 0, false));
    }

    /**
     * Doubles the tables until `pagecount` entries fit; `junk` is what the memory added to them holds. A failed second
     * reallocation leaves a longer page table.
     */
    method AdjustSgArray(pagecount: nat, pagesOk: bool, sgOk: bool, junk: nat -> Entry) returns (r: int)
      requires Valid()
      modifies `arraySize, `pages, `sg
      ensures Valid() && r in {0, ENOMEM} && (r == 0 <==> pagesOk && sgOk)
      ensures r == 0 ==> arraySize == Grown(old(arraySize), pagecount) && fresh(sg) && fresh(pages)
      ensures r != 0 ==> arraySize == old(arraySize) && sg == old(sg) && (pages == old(pages) || fresh(pages))
      ensures forall k | 0 <= k < old(sg.Length) :: sg[k] == old(sg[k])
      ensures forall k | 0 <= k < Min(pages.Length, old(pages.Length)) :: pages[k] == old(pages[k])
    {
      var size := arraySize;
      while size < pagecount
        invariant arraySize <= size && Grown(size, pagecount) == Grown(arraySize, pagecount)
        decreases pagecount - size
      {
        size := size * 2;
      }
      if !pagesOk {
        return ENOMEM;
      }
      GrowPages(size);
      if !sgOk {
        return ENOMEM;
      }
      var before := sg;
      sg := new Entry[size](junk);
      forall i | 0 <= i < before.Length {
        sg[i] := before[i];
      }
      arraySize := size;
      return 0;
    }

    method GrowPages(size: nat)
      requires arraySize <= size
      modifies `pages
      ensures fresh(pages) && pages.Length == size
      ensures forall k | 0 <= k < Min(size, old(pages.Length)) :: pages[k] == old(pages[k])
    {
      var was := pages;
      pages := new nat[size](_ => 0);
      forall i | 0 <= i < Min(was.Length, size) {
        pages[i] := was[i];
      }
    }

    /** Read-only pages are counted down as they are released. */
    method ReleaseUserPages()
      modifies `usedPages, `readonlyPages
      ensures usedPages == 0 && readonlyPages == Max(0, old(readonlyPages) - old(usedPages))
    {
      for i := 0 to usedPages
        invariant usedPages == old(usedPages) && readonlyPages == Max(0, old(readonlyPages) - i)
      {
        if readonlyPages != 0 {
          readonlyPages := readonlyPages - 1;
        }
      }
      usedPages := 0;
    }

    /** The tables are large enough, or are made so. */
    ghost predicate Sized(used: nat, pagesOk: bool, sgOk: bool)
      reads this
    {
      used <= arraySize || (pagesOk && sgOk)
    }

    /**
     * Source and destination tables denote their buffers; for one shared buffer, the longer of the two lengths. The
     * tables are left, by one end mark, exactly when an empty destination comes behind a source that fills them.
     */
    method GetUserbuf(src: nat, srcLen0: nat, dst: nat, dstLen0: nat,
                      pagesOk: bool, sgOk: bool, junk: nat -> Entry, srcPinned: bool, dstPinned: bool)
      returns (r: int, srcSg: Option<nat>, dstSg: Option<nat>, stray: bool)
      requires Valid()
      modifies this, pages, sg
      ensures Valid()
      ensures var used := Used(src, Length(src, srcLen0), dst, Length(dst, dstLen0));
              arraySize == if old(Sized(used, pagesOk, sgOk)) then Grown(old(arraySize), used) else old(arraySize)
      ensures stray <==>
                && src != dst && dst != 0 && dstLen0 == 0 && PageCount(src, Length(src, srcLen0)) == arraySize
                && old(Sized(PageCount(src, Length(src, srcLen0)), pagesOk, sgOk)) && srcPinned
      ensures var srcLen, dstLen := Length(src, srcLen0), Length(dst, dstLen0);
              var empty := if src == dst then srcLen == 0 && dstLen == 0 else srcLen == 0;
              && r in {0, ENOMEM, EINVAL} && (r == ENOMEM <==> !old(Sized(Used(src, srcLen, dst, dstLen), pagesOk, sgOk)))
              && (r == 0 <==>
                    && old(Sized(Used(src, srcLen, dst, dstLen), pagesOk, sgOk))
                    && (empty || srcPinned) && (src == dst || dstLen == 0 || dstPinned))
      ensures r == 0 && !stray ==>
                var srcLen, dstLen := Length(src, srcLen0), Length(dst, dstLen0);
                if src == dst then
                  && srcSg == dstSg == Some(0) && usedPages == PageCount(src, Max(srcLen, dstLen)) && readonlyPages == 0
                  && (Max(srcLen, dstLen) > 0 ==> Holds(sg[..], 0, src, Max(srcLen, dstLen)))
                else
                  && usedPages == PageCount(src, srcLen) + PageCount(dst, dstLen)
                  && readonlyPages == PageCount(src, srcLen)
                  && srcSg == (if src == 0 then None else Some(0))
                  && dstSg == (if dst == 0 then None else Some(PageCount(src, srcLen)))
                  && (srcLen > 0 ==> Holds(sg[..], 0, src, srcLen))
                  && (dstLen > 0 ==> Holds(sg[..], PageCount(src, srcLen), dst, dstLen))
    {
      var srcLen, dstLen := srcLen0, dstLen0;
      srcSg, dstSg, stray := None, None, false;
      if src == 0 && srcLen != 0 {
        srcLen := 0;
      }
      if dst == 0 && dstLen != 0 {
        dstLen := 0;
      }
      r := CountPages(src, srcLen, dst, dstLen, pagesOk, sgOk, junk);
      if r != 0 {
        return;
      }
      if src == dst {
        r := GetSharedBuffer(src, Max(srcLen, dstLen), srcLen, dstLen, srcPinned);
        if r == 0 {
          srcSg, dstSg := Some(0), Some(0);
        }
        return;
      }
      r, srcSg, dstSg, stray := GetSeparateBuffers(src, srcLen, dst, dstLen, srcPinned, dstPinned);
    }

    /** The pages of both buffers, and tables for them. */
    method CountPages(src: nat, srcLen: nat, dst: nat, dstLen: nat, pagesOk: bool, sgOk: bool, junk: nat -> Entry)
      returns (r: int)
      requires Valid()
      modifies this
      ensures Valid() && (sg == old(sg) || fresh(sg)) && (pages == old(pages) || fresh(pages))
      ensures usedPages == Used(src, srcLen, dst, dstLen) && readonlyPages == if src == dst then 0 else PageCount(src, srcLen)
      ensures r in {0, ENOMEM} && (r == 0 <==> old(Sized(Used(src, srcLen, dst, dstLen), pagesOk, sgOk)))
      ensures arraySize == if r == 0 then Grown(old(arraySize), usedPages) else old(arraySize)
    {
      var srcCount, dstCount := PageCount(src, srcLen), PageCount(dst, dstLen);
      usedPages := if src == dst then Max(srcCount, dstCount) else srcCount + dstCount;
      readonlyPages := if src == dst then 0 else srcCount;
      r := 0;
      if usedPages > arraySize {
        r := AdjustSgArray(usedPages, pagesOk, sgOk, junk);
      }
    }

    /** In place: the longer length counts. */
    method GetSharedBuffer(src: nat, len: nat, ghost srcLen: nat, ghost dstLen: nat, pinned: bool) returns (r: int)
      requires Valid() && len == Max(srcLen, dstLen) && (src == 0 ==> len == 0)
      requires usedPages == Max(PageCount(src, srcLen), PageCount(src, dstLen)) <= arraySize
      modifies pages, sg
      ensures Valid() && usedPages == PageCount(src, len)
      ensures r == if len == 0 || pinned then 0 else EINVAL
      ensures r == 0 && len > 0 ==> Holds(sg[..], 0, src, len)
    {
      PageCountGrows(src, Min(srcLen, dstLen), len);
      var stray;
      r, stray := GetUserPages(src, len, usedPages, pinned, pages, 0, sg, 0);
      PinnedIsNotNull(old(sg[..]), sg[..], src, len);
    }

    method GetSeparateBuffers(src: nat, srcLen: nat, dst: nat, dstLen: nat, srcPinned: bool, dstPinned: bool)
      returns (r: int, srcSg: Option<nat>, dstSg: Option<nat>, stray: bool)
      requires Valid() && (src == 0 ==> srcLen == 0) && (dst == 0 ==> dstLen == 0)
      requires readonlyPages == PageCount(src, srcLen) && usedPages == readonlyPages + PageCount(dst, dstLen) <= arraySize
      modifies `usedPages, `readonlyPages, pages, sg
      ensures Valid()
      ensures stray <==> dst != 0 && dstLen == 0 && PageCount(src, srcLen) == arraySize && srcPinned
      ensures r == if (srcLen == 0 || srcPinned) && (dstLen == 0 || dstPinned) then 0 else EINVAL
      ensures r == 0 && !stray ==>
                && usedPages == old(usedPages) && readonlyPages == old(readonlyPages)
                && srcSg == (if src == 0 then None else Some(0))
                && dstSg == (if dst == 0 then None else Some(readonlyPages))
                && (srcLen > 0 ==> Holds(sg[..], 0, src, srcLen))
                && (dstLen > 0 ==> Holds(sg[..], readonlyPages, dst, dstLen))
    {
      srcSg, dstSg, stray := None, None, false;
      r := 0;
      if src != 0 {
        var never;
        r, never := GetUserPages(src, srcLen, readonlyPages, srcPinned, pages, 0, sg, 0);
        PinnedIsNotNull(old(sg[..]), sg[..], src, srcLen);
        if r != 0 {
          return;
        }
        srcSg := Some(0);
      }
      if dst != 0 {
        ghost var before := sg[..];
        r, stray := GetUserPages(dst, dstLen, usedPages - readonlyPages, dstPinned, pages, readonlyPages, sg, readonlyPages);
        PinnedBehind(before, sg[..], dst, dstLen, readonlyPages);
        if r != 0 {
          ReleaseUserPages();
          return;
        }
        dstSg := Some(readonlyPages);
        HoldsElsewhere(before, sg[..], src, srcLen);
      }
    }

    /**
     * The SRTP view: the authenticated buffer, and the part of it that starts at src. With a null authenticated buffer
     * nothing is pinned, yet the call can succeed; then the tables hold what an earlier request left. The distance of
     * src is taken modulo 32 bits.
     */
    method GetUserbufSrtp(authSrc: nat, authLen: nat, src: nat, dst: nat, dstLen: nat,
                          pagesOk: bool, sgOk: bool, junk: nat -> Entry, pinned: bool)
      returns (r: int, authSg: nat, dstSg: Option<nat>)
      requires Valid()
      modifies this, pages, sg
      ensures Valid()
      ensures authSrc != 0 ==>
                (r == 0 <==>
                   && dstLen != 0 && authLen != 0 && pagesOk && sgOk && pinned
                   && 0 <= ToInt(src - authSrc) <= MAX_SRTP_AUTH_DATA_DIFF && ToInt(src - authSrc) < authLen)
      ensures r == 0 ==> Terminated(sg[..], authSg) && (Denotes(sg[..], authSg, authSrc, authLen) <==> authSrc != 0)
      ensures r == 0 && authSrc != 0 ==>
                && (forall k | 0 <= k < usedPages <= pages.Length :: pages[k] == authSrc / PAGE_SIZE + k)
                && dstSg.Some?
                && Denotes(sg[..], dstSg.value, authSrc + ToInt(src - authSrc), authLen - ToInt(src - authSrc))
      ensures r == 0 && authSrc == 0 ==>
                && 0 < usedPages == PageCount(0, authLen)
                && forall k | 0 <= k < Min(pages.Length, old(pages.Length)) :: pages[k] == old(pages[k])
    {
      authSg, dstSg := 0, None;
      var diff := SrtpDistance(authSrc, authLen, src, dst, dstLen);
      if diff == None {
        return EINVAL, authSg, dstSg;
      }
      r, dstSg := SrtpTables(authSrc, authLen, diff.value, pagesOk, sgOk, junk, pinned);
    }

    method SrtpTables(authSrc: nat, authLen: nat, diff: nat, pagesOk: bool, sgOk: bool, junk: nat -> Entry, pinned: bool)
      returns (r: int, dstSg: Option<nat>)
      requires Valid() && 0 < authLen
      modifies this, pages, sg
      ensures Valid() && (authSrc != 0 ==> (r == 0 <==> pagesOk && sgOk && pinned && diff < authLen))
      ensures r == 0 ==> Terminated(sg[..], 0) && (Denotes(sg[..], 0, authSrc, authLen) <==> authSrc != 0)
      ensures r == 0 && authSrc != 0 ==>
                && (forall k | 0 <= k < usedPages <= pages.Length :: pages[k] == authSrc / PAGE_SIZE + k)
                && dstSg.Some? && Denotes(sg[..], dstSg.value, authSrc + diff, authLen - diff)
      ensures r == 0 && authSrc == 0 ==>
                && 0 < usedPages == PageCount(0, authLen)
                && forall k | 0 <= k < Min(pages.Length, old(pages.Length)) :: pages[k] == old(pages[k])
    {
      dstSg := None;
      var count := PageCount(authSrc, authLen);
      r := AdjustSgArray(count * 2, pagesOk, sgOk, junk);
      if r != 0 {
        return;
      }
      r, dstSg := PinAndSlice(authSrc, authLen, count, diff, pinned);
    }

    /** The distance of src in the authenticated buffer, when the arguments are accepted. */
    static method SrtpDistance(authSrc: nat, authLen: nat, src: nat, dst: nat, dstLen: nat) returns (diff: Option<nat>)
      ensures diff.Some? <==>
                && (dst != 0 || authSrc != 0) && dstLen != 0 && authLen != 0
                && 0 <= ToInt(src - authSrc) <= MAX_SRTP_AUTH_DATA_DIFF
      ensures diff.Some? ==> diff.value == ToInt(src - authSrc)
    {
      if dst == 0 && authSrc == 0 {
        return None;
      }
      if dstLen == 0 || authLen == 0 {
        return None;
      }
      var distance := ToInt(src - authSrc);
      if distance > MAX_SRTP_AUTH_DATA_DIFF || distance < 0 {
        return None;
      }
      return Some(distance);
    }

    /** Both views in tables that are large enough. */
    method PinAndSlice(authSrc: nat, authLen: nat, count: nat, diff: nat, pinned: bool) returns (r: int, dstSg: Option<nat>)
      requires Valid() && 0 < authLen && count == PageCount(authSrc, authLen) && 2 * count <= arraySize
      modifies `usedPages, `readonlyPages, pages, sg
      ensures Valid() && (authSrc != 0 ==> (r == 0 <==> pinned && diff < authLen))
      ensures r == 0 ==>
                && usedPages == count && Terminated(sg[..], 0)
                && (Denotes(sg[..], 0, authSrc, authLen) <==> authSrc != 0)
      ensures r == 0 && authSrc != 0 ==>
                && (forall k | 0 <= k < count :: pages[k] == authSrc / PAGE_SIZE + k)
                && dstSg.Some? && Denotes(sg[..], dstSg.value, authSrc + diff, authLen - diff)
      ensures authSrc == 0 ==> pages[..] == old(pages[..])
    {
      dstSg := None;
      r := PinAuth(authSrc, authLen, count, pinned);
      if r != 0 {
        return;
      }
      dstSg := SliceAuth(authSrc, authLen, count, diff);
      if dstSg == None {
        ReleaseUserPages();
        return EINVAL, dstSg;
      }
    }

    /** The first view: the pages of the buffer, or, for a null buffer, one entry of an earlier request. */
    method PinAuth(authSrc: nat, authLen: nat, count: nat, pinned: bool) returns (r: int)
      requires Valid() && 0 < authLen && count == PageCount(authSrc, authLen) <= arraySize
      modifies `usedPages, `readonlyPages, pages, sg
      ensures Valid() && r in {0, EINVAL} && (r == 0 <==> authSrc == 0 || pinned)
      ensures r == 0 ==>
                && usedPages == count && Terminated(sg[..], 0) && |ListFrom(sg[..], 0)| <= count
                && (Denotes(sg[..], 0, authSrc, authLen) <==> authSrc != 0)
      ensures if authSrc == 0 then pages[..] == old(pages[..])
              else r == 0 ==> forall k | 0 <= k < count :: pages[k] == authSrc / PAGE_SIZE + k
    {
      ghost var t := sg[..];
      var stray;
      r, stray := GetUserPages(authSrc, authLen, count, pinned, pages, 0, sg, 0);
      PinnedIsNotNull(t, sg[..], authSrc, authLen);
      if r != 0 {
        return;
      }
      usedPages, readonlyPages := count, 0;
      AuthList(t, sg[..], authSrc, authLen);
    }

    /** The second view: the copied list, advanced to src. */
    method SliceAuth(addr: nat, len: nat, count: nat, diff: nat) returns (r: Option<nat>)
      requires Valid() && 0 < count == PageCount(addr, len) && 2 * count <= sg.Length && 0 < len
      requires Terminated(sg[..], 0) && |ListFrom(sg[..], 0)| <= count
      modifies sg
      ensures Valid() && forall k | 0 <= k < count :: sg[k] == old(sg[k])
      ensures Terminated(sg[..], 0) && ListFrom(sg[..], 0) == old(ListFrom(sg[..], 0))
      ensures old(Denotes(sg[..], 0, addr, len)) ==>
                && (r == None <==> diff >= len)
                && (r.Some? ==> Denotes(sg[..], r.value, addr + diff, len - diff))
    {
      ghost var t, list := sg[..], ListFrom(sg[..], 0);
      r := SliceTable(sg, len, count, diff);
      ListElsewhere(t, sg[..], 0, count);
      if Denote(list) == Span(addr, len) {
        CopiedNeedsOne(list, len);
        CopyFitsExactly(list, count, len);
        assert Span(addr, len)[..len] == Span(addr, len);
        if diff < len {
          SpanSlice(addr, len, diff);
        }
      }
    }
  }

  /** The first entry after the pages of a buffer have been entered from the start of the table on. */
  lemma PinnedIsNotNull(t: seq<Entry>, u: seq<Entry>, addr: nat, len: nat)
    requires |t| == |u| > 0 && NotNull(t[0])
    requires (Holds(u, 0, addr, len) && addr > 0) || u == Marked(t, 0) || u == t
    ensures NotNull(u[0])
  {
    if Holds(u, 0, addr, len) && addr > 0 {
      assert IsPiece(u[0], addr, len, 0);
    }
  }

  /** The same when they were entered from `base` on, or only an end mark was. */
  lemma PinnedBehind(t: seq<Entry>, u: seq<Entry>, addr: nat, len: nat, base: nat)
    requires |t| == |u| > 0 && NotNull(t[0]) && base <= |t|
    requires (Holds(u, base, addr, len) && addr > 0) || u == Marked(t, base) || u == t
    requires forall k | 0 <= k < |t| && k < base :: u[k] == t[k]
    ensures NotNull(u[0])
  {
    if base == 0 {
      PinnedIsNotNull(t, u, addr, len);
    }
  }

  lemma {:induction false} ListElsewhere(t: seq<Entry>, u: seq<Entry>, k: nat, n: nat)
    requires Terminated(t, k) && |ListFrom(t, k)| <= n && |t| == |u| && k + n <= |t|
    requires forall i | k <= i < k + n :: u[i] == t[i]
    ensures Terminated(u, k) && ListFrom(u, k) == ListFrom(t, k)
    decreases n
  {
    ListHead(t, k);
    if !t[k].last {
      ListElsewhere(t, u, k + 1, n - 1);
    }
  }

  /** The list of the authenticated buffer: its pages, or, for a null buffer, one entry of an earlier request. */
  lemma AuthList(t: seq<Entry>, u: seq<Entry>, addr: nat, len: nat)
    requires |t| == |u| > 0 && len > 0 && NotNull(t[0])
    requires if addr == 0 then u == Marked(t, 0) else Holds(u, 0, addr, len)
    ensures Terminated(u, 0) && |ListFrom(u, 0)| <= PageCount(addr, len)
    ensures Denotes(u, 0, addr, len) <==> addr != 0
  {
    if addr == 0 {
      var e := u[0];
      ListIs(u, 0, 1);
      assert ListFrom(u, 0) == [e];
      DenoteOne(e);
      assert |Denote([e])| == e.length && Span(0, len)[0] == 0;
      if e.length > 0 {
        assert Denote([e])[0] == Start(e);
      }
    } else {
      HoldsDenotes(u, 0, addr, len);
    }
  }

  lemma SlotsTerminate(t: seq<Entry>, base: nat, n: nat)
    requires Slots(t, base, n)
    ensures Terminated(t, base) && |ListFrom(t, base)| == n
  {
    ListIs(t, base, n);
  }

  /** The list at the start of the table is copied into the second half; a copy that does not fit is not noticed. */
  method CopyTable(sg: array<Entry>, len: nat, count: nat)
    requires 0 < count && 2 * count <= sg.Length && 0 < len && Terminated(sg[..], 0) && |ListFrom(sg[..], 0)| <= count
    modifies sg
    ensures forall k | 0 <= k < count :: sg[k] == old(sg[k])
    ensures Terminated(sg[..], count) && |ListFrom(sg[..], count)| <= count
    ensures CopyFits(old(ListFrom(sg[..], 0)), count, len) ==> ListFrom(sg[..], count) == Copied(old(ListFrom(sg[..], 0)), len)
  {
    ghost var t0, source := sg[..], ListFrom(sg[..], 0);
    InitTable(sg, count, count);
    ghost var t1 := sg[..];
    ListElsewhere(t0, t1, 0, count);
    var copied := SgCopy(sg, 0, count, count, len);
    if copied != 0 {
      SlotsTerminate(sg[..], count, count);
    } else {
      CopyFitsExactly(source, count, len);
    }
  }

  /** The copy advanced by `diff` bytes denotes what is behind them. */
  method SliceTable(sg: array<Entry>, len: nat, count: nat, diff: nat) returns (r: Option<nat>)
    requires 0 < count && 2 * count <= sg.Length && 0 < len && Terminated(sg[..], 0) && |ListFrom(sg[..], 0)| <= count
    modifies sg
    ensures forall k | 0 <= k < count :: sg[k] == old(sg[k])
    ensures var list := old(ListFrom(sg[..], 0));
            CopyFits(list, count, len) ==>
              && len <= |Denote(list)| && (r == None <==> diff >= len)
              && (r.Some? ==>
                    && Terminated(sg[..], r.value)
                    && Denote(ListFrom(sg[..], r.value)) == Denote(list)[..len][diff..])
  {
    ghost var list := ListFrom(sg[..], 0);
    CopyTable(sg, len, count);
    ghost var copy := ListFrom(sg[..], count);
    r := SgAdvance(sg, count, diff);
    if CopyFits(list, count, len) {
      CopyDenotes(list, count, len);
      AdvanceDenotes(copy, diff);
    }
  }

  /** Entries behind the buffer's own do not matter to it. */
  lemma HoldsElsewhere(t: seq<Entry>, u: seq<Entry>, addr: nat, len: nat)
    requires |t| == |u| && PageCount(addr, len) <= |t| && forall k | 0 <= k < PageCount(addr, len) :: t[k] == u[k]
    ensures Holds(t, 0, addr, len) ==> Holds(u, 0, addr, len)
  {
  }

  // ----- the inputs that fail -----

  const DEFAULT_PREALLOC_PAGES := 32

  /** What an encryption that is no TLS record asks get_userbuf to make available. */
  function Asked(len: nat, tagLen: nat): nat { Unsigned(DstLen(true, false, len, tagLen, 1)) }

  /** Exactly the tag lengths that complete the text to a multiple of 2^32 leave the destination without a byte. */
  lemma EmptyDestination(len: nat, tagLen: nat)
    requires 0 < len < TWO32 && tagLen < TWO32
    ensures Asked(len, tagLen) == 0 <==> tagLen == TWO32 - len
  {
  }

  /** With 32 pages of text and such a tag, the source fills the preallocated table and the end mark goes behind it. */
  lemma StrayExample()
    ensures var len := DEFAULT_PREALLOC_PAGES * PAGE_SIZE;
      && Asked(len, TWO32 - len) == 0
      && PageCount(0x10000, len) == Grown(DEFAULT_PREALLOC_PAGES, Used(0x10000, len, 0x80000, 0)) == DEFAULT_PREALLOC_PAGES
  {
  }

  /** A null authenticated buffer with src == dst == 1 is accepted; its first view is an entry of an earlier request. */
  lemma NullAuthExample(t: seq<Entry>)
    requires t != [] && NotNull(t[0])
    ensures 0 <= ToInt(1 - 0) <= MAX_SRTP_AUTH_DATA_DIFF && PageCount(0, 16) == 1
    ensures Terminated(Marked(t, 0), 0) && !Denotes(Marked(t, 0), 0, 0, 16)
  {
    AuthList(t, Marked(t, 0), 0, 16);
  }
}

/** The spapr virtual terminal: a 16-byte ring with free-running 32-bit indices. */
module SpaprVty {
  import opened Bytes

  const BUFSIZE := 16
  const WRAP := 0x1_0000_0000
  const CR: byte := 0x0D
  const NUL: byte := 0x00

  /** A 32-bit index that is incremented without bound and wraps. */
  type Index = n: nat | n < WRAP

  function Next(n: Index): Index { if n + 1 == WRAP then 0 else n + 1 }
  function Previous(n: Index): Index { if n == 0 then WRAP - 1 else n - 1 }
  function Distance(from: Index, to: Index): Index { if from <= to then to - from else to + WRAP - from }

  // ----- specification: queues of bytes -----

  function ExpandByte(b: byte): seq<byte> {
    if b == CR then [CR, NUL] else [b]
  }

  /** What the guest sees for a stream: a NUL after every CR. */
  function Expand(s: seq<byte>): seq<byte> {
    if s == [] then [] else ExpandByte(s[0]) + Expand(s[1..])
  }

  /** What an existing guest does: drop the NUL that immediately follows a CR. */
  function Strip(s: seq<byte>): seq<byte> {
    if s == [] then []
    else if s[0] == CR && |s| > 1 && s[1] == NUL then [CR] + Strip(s[2..])
    else [s[0]] + Strip(s[1..])
  }

  /** How many queued bytes fit into a reply of `max` bytes without splitting a CR from its NUL. */
  function Fitting(q: seq<byte>, max: int): (k: nat)
    ensures k <= |q|
  {
    if q == [] then 0
    else
      var width := if q[0] == CR then 2 else 1;
      if width <= max then 1 + Fitting(q[1..], max - width) else 0
  }

  /** How many bytes of `data` the ring still accepts. */
  function Accepted(q: seq<byte>, data: seq<byte>): (k: nat)
    requires |q| <= BUFSIZE
    ensures k <= |data|
  {
    Min(|data|, BUFSIZE - |q|)
  }

  lemma {:induction false} ExpandAppend(a: seq<byte>, b: seq<byte>)
    ensures Expand(a + b) == Expand(a) + Expand(b)
  {
    if a == [] {
      assert a + b == b;
    } else {
      ConcatTail(a, b);
      ExpandAppend(a[1..], b);
      ConcatAssociative(ExpandByte(a[0]), Expand(a[1..]), Expand(b));
    }
  }

  lemma ExpandSnoc(s: seq<byte>, b: byte)
    ensures Expand(s + [b]) == Expand(s) + ExpandByte(b)
  {
    ExpandAppend(s, [b]);
    assert [b][1..] == [];
    assert Expand([b]) == ExpandByte(b) + [] == ExpandByte(b);
  }

  /** The bytes on the wire. */
  lemma ExpandExample()
    ensures Expand([0x41, 0x0D, 0x0A]) == [0x41, 0x0D, 0x00, 0x0A]
  {
    assert [0x41, 0x0D, 0x0A][1..] == [0x0D, 0x0A] && [0x0D, 0x0A][1..] == [0x0A] && [0x0A][1..] == [];
    assert Expand([0x0A]) == [0x0A] + [];
    assert Expand([0x0D, 0x0A]) == [0x0D, 0x00] + [0x0A];
  }

  /** Stripping undoes the insertion, even when the stream itself has a NUL after a CR. */
  lemma {:induction false} StripExpand(s: seq<byte>)
    ensures Strip(Expand(s)) == s
  {
    if s != [] {
      StripExpand(s[1..]);
      var rest := Expand(s[1..]);
      if s[0] == CR {
        assert Expand(s) == [CR, NUL] + rest;
        assert Expand(s)[2..] == rest;
      } else {
        assert Expand(s) == [s[0]] + rest;
        assert Expand(s)[1..] == rest;
      }
    }
  }

  /** Fitting is the longest prefix whose expansion has at most `max` bytes. */
  lemma {:induction false} FittingIsLongest(q: seq<byte>, max: nat)
    ensures |Expand(q[..Fitting(q, max)])| <= max
    ensures forall k | Fitting(q, max) < k <= |q| :: |Expand(q[..k])| > max
  {
    if q != [] {
      var width := if q[0] == CR then 2 else 1;
      forall k | 1 <= k <= |q|
        ensures |Expand(q[..k])| == width + |Expand(q[1..][..k - 1])|
      {
        assert q[..k][1..] == q[1..][..k - 1];
      }
      if width <= max {
        FittingIsLongest(q[1..], max - width);
      }
    }
  }

  /** One more byte of the queue `q`, seen from its k-th. */
  lemma FittingStep(q: seq<byte>, k: nat, max: int)
    requires k < |q|
    ensures Expand(q[..k + 1]) == Expand(q[..k]) + ExpandByte(q[k])
    ensures Fitting(q[k..], max) ==
            if |ExpandByte(q[k])| <= max then 1 + Fitting(q[k + 1..], max - |ExpandByte(q[k])|) else 0
  {
    ExpandSnoc(q[..k], q[k]);
    assert q[..k] + [q[k]] == q[..k + 1];
    assert q[k..][1..] == q[k + 1..];
  }

  // ----- whole runs -----

  datatype Event = Receive(data: seq<byte>) | GetChars(max: nat)

  /** Queue content, bytes accepted so far and the replies given so far, newest last. */
  datatype History = History(queue: seq<byte>, accepted: seq<byte>, replies: seq<seq<byte>>)

  function Step(h: History, e: Event): History
    requires |h.queue| <= BUFSIZE
  {
    match e
    case Receive(data) =>
      var taken := data[..Accepted(h.queue, data)];
      History(h.queue + taken, h.accepted + taken, h.replies)
    case GetChars(max) =>
      var k := Fitting(h.queue, max);
      History(h.queue[k..], h.accepted, h.replies + [Expand(h.queue[..k])])
  }

  function Run(h: History, events: seq<Event>): (r: History)
    requires |h.queue| <= BUFSIZE
    ensures |r.queue| <= BUFSIZE
    decreases |events|
  {
    if events == [] then h else Run(Step(h, events[0]), events[1..])
  }

  /** The bytes already handed out are the accepted ones that are no longer queued. */
  ghost predicate Faithful(h: History) {
    && |h.queue| <= |h.accepted|
    && h.accepted[|h.accepted| - |h.queue|..] == h.queue
    && Flatten(h.replies) == Expand(h.accepted[..|h.accepted| - |h.queue|])
  }

  lemma ReceiveFaithful(h: History, data: seq<byte>)
    requires |h.queue| <= BUFSIZE && Faithful(h)
    ensures Faithful(Step(h, Receive(data)))
  {
    var done := |h.accepted| - |h.queue|;
    var r := Step(h, Receive(data));
    assert r.accepted[..done] == h.accepted[..done];
    assert r.accepted[done..] == h.accepted[done..] + data[..Accepted(h.queue, data)];
  }

  lemma GetCharsFaithful(h: History, max: nat)
    requires |h.queue| <= BUFSIZE && Faithful(h)
    ensures Faithful(Step(h, GetChars(max)))
  {
    var done, k := |h.accepted| - |h.queue|, Fitting(h.queue, max);
    assert h.accepted[done..][..k] == h.accepted[done..done + k];
    assert h.accepted[done..][k..] == h.accepted[done + k..];
    assert h.accepted[..done + k] == h.accepted[..done] + h.accepted[done..done + k];
    FlattenSnoc(h.replies, Expand(h.queue[..k]));
    ExpandAppend(h.accepted[..done], h.queue[..k]);
  }

  lemma StepFaithful(h: History, e: Event)
    requires |h.queue| <= BUFSIZE && Faithful(h)
    ensures Faithful(Step(h, e))
  {
    match e
    case Receive(data) => ReceiveFaithful(h, data);
    case GetChars(max) => GetCharsFaithful(h, max);
  }

  /** Over any run the replies, concatenated and stripped, are the accepted stream up to what is queued. */
  lemma {:induction false} RunFaithful(h: History, events: seq<Event>)
    requires |h.queue| <= BUFSIZE && Faithful(h)
    ensures Faithful(Run(h, events))
    ensures var r := Run(h, events); Strip(Flatten(r.replies)) + r.queue == r.accepted
    decreases |events|
  {
    if events == [] {
      StripExpand(h.accepted[..|h.accepted| - |h.queue|]);
      assert h.accepted == h.accepted[..|h.accepted| - |h.queue|] + h.queue;
    } else {
      StepFaithful(h, events[0]);
      RunFaithful(Step(h, events[0]), events[1..]);
    }
  }

  /** A reply never ends between a CR and its NUL: it expands a slice of the stream by itself. */
  lemma {:induction false} ReplyKeepsPairs(s: seq<byte>, i: nat)
    requires i < |Expand(s)| && Expand(s)[i] == CR
    ensures i + 1 < |Expand(s)| && Expand(s)[i + 1] == NUL
  {
    var width := if s[0] == CR then 2 else 1;
    if i >= width {
      assert Expand(s)[i] == Expand(s[1..])[i - width];
      ReplyKeepsPairs(s[1..], i - width);
      assert Expand(s)[i + 1] == Expand(s[1..])[i + 1 - width];
    }
  }

  // ----- the device -----

  /** The array slot of the i-th byte counted from index `n`. */
  function Slot(n: Index, i: nat): (k: nat)
    ensures k < BUFSIZE
  {
    (n + i) % BUFSIZE
  }

  lemma SlotAdvance(n: Index)
    ensures forall i: nat :: Slot(Next(n), i) == Slot(n, i + 1)
    ensures Previous(Next(n)) == n
  {
  }

  lemma SlotsDistinct(n: Index, j: nat)
    requires j < BUFSIZE
    ensures forall i: nat | i < j :: Slot(n, i) != Slot(n, j)
  {
  }

  /** The wrap of the 32-bit indices changes neither the slot they name nor the fill they imply. */
  lemma IndexArithmetic(tail: Index, head: Index)
    requires Distance(tail, head) <= BUFSIZE
    ensures Slot(tail, Distance(tail, head)) == Slot(head, 0)
    ensures Distance(tail, head) < BUFSIZE ==> Distance(tail, Next(head)) == Distance(tail, head) + 1
    ensures tail != head ==> Distance(Next(tail), head) == Distance(tail, head) - 1
    ensures (Distance(tail, head) == 0) == (tail == head)
  {
  }

  class Device {
    var head: Index  // in: next slot to fill
    var tail: Index  // out: next slot to read
    const buf: array<byte>

    ghost predicate Valid()
      reads this
    {
      buf.Length == BUFSIZE && Distance(tail, head) <= BUFSIZE
    }

    ghost function Contents(): (q: seq<byte>)
      requires Valid()
      reads this, buf
      ensures |q| == Distance(tail, head)
    {
      seq(Distance(tail, head), i requires 0 <= i < BUFSIZE reads this, buf => buf[Slot(tail, i)])
    }

    constructor ()
      ensures Valid() && Contents() == [] && fresh(buf)
    {
      buf := new byte[BUFSIZE](_ => NUL);
      head, tail := 0, 0;
    }

    method CanReceive() returns (n: int)
      requires Valid()
      ensures n == BUFSIZE - |Contents()|
    {
      n := BUFSIZE - Distance(tail, head);
    }

    /** dev->buf[dev->in++ % VTERM_BUFSIZE] = b */
    method Put(b: byte)
      requires Valid() && Distance(tail, head) < BUFSIZE
      modifies `head, buf
      ensures Valid() && Contents() == old(Contents()) + [b]
    {
      ghost var n := Distance(tail, head);
      IndexArithmetic(tail, head);
      SlotsDistinct(tail, n);
      buf[head % BUFSIZE] := b;
      head := Next(head);
    }

    /** dev->buf[dev->out++ % VTERM_BUFSIZE] */
    method Take() returns (b: byte)
      requires Valid() && tail != head
      modifies `tail
      ensures Valid() && old(Contents()) == [b] + Contents()
      ensures tail == Next(old(tail)) && b == buf[Slot(old(tail), 0)] && Distance(tail, head) < BUFSIZE
    {
      IndexArithmetic(tail, head);
      SlotAdvance(tail);
      b := buf[tail % BUFSIZE];
      assert b == Contents()[0];
      tail := Next(tail);
    }

    /** dev->out-- */
    method PutBack()
      requires Valid() && Distance(tail, head) < BUFSIZE
      modifies `tail
      ensures Valid() && tail == Previous(old(tail)) && Contents() == [buf[Slot(tail, 0)]] + old(Contents())
    {
      SlotAdvance(Previous(tail));
      IndexArithmetic(Previous(tail), head);
      tail := Previous(tail);
    }

    /** The excess over the free space is dropped; the line pulses when data arrives on an empty ring. */
    method Receive(data: seq<byte>) returns (pulse: bool)
      requires Valid()
      modifies `head, buf
      ensures Valid()
      ensures Contents() == old(Contents()) + data[..Accepted(old(Contents()), data)]
      ensures pulse == (old(Contents()) == [] && data != [])
    {
      IndexArithmetic(tail, head);
      pulse := head == tail && |data| != 0;
      var i := 0;
      while i < |data|
        invariant 0 <= i <= |data| && Valid()
        invariant i <= BUFSIZE - |old(Contents())|
        invariant Contents() == old(Contents()) + data[..i]
      {
        if Distance(tail, head) >= BUFSIZE {
          break;
        }
        Put(data[i]);
        i := i + 1;
      }
    }

    /** One turn of the fill loop: a byte with its NUL, or nothing when the pair does not fit. */
    method GetNext(dst: array<byte>, n: nat, max: int) returns (m: nat)
      requires Valid() && tail != head && n < max <= dst.Length && dst != buf
      modifies `tail, dst
      ensures Valid()
      ensures var q := old(Contents());
              if n + |ExpandByte(q[0])| <= max
              then m == n + |ExpandByte(q[0])| && Contents() == q[1..] && dst[..m] == old(dst[..n]) + ExpandByte(q[0])
              else m == n && Contents() == q && dst[..n] == old(dst[..n])
      ensures forall i | n < i < dst.Length && m <= i :: dst[i] == old(dst[i])
    {
      dst[n] := Take();
      m := n + 1;
      if dst[m - 1] == CR {
        if m < max {
          dst[m] := NUL;
          m := m + 1;
        } else {
          PutBack();
          m := m - 1;
        }
      }
    }

    /** Fills `dst` from the ring; only dst[..n] is a reply, the slot after it may hold a rolled-back CR. */
    method GetChars(dst: array<byte>, max: int) returns (n: nat)
      requires Valid() && max <= dst.Length && dst != buf
      modifies `tail, dst
      ensures Valid() && n <= dst.Length
      ensures var k := Fitting(old(Contents()), max);
              && Contents() == old(Contents())[k..]
              && dst[..n] == Expand(old(Contents())[..k])
      ensures forall i | n < i < dst.Length :: dst[i] == old(dst[i])
    {
      ghost var q := Contents();
      ghost var k, room, fit := 0, max, Fitting(q, max);
      n := 0;
      assert q[0..] == q;
      while n < max && tail != head
        invariant Valid() && 0 <= k <= |q| && n <= dst.Length && (n == 0 || n <= max)
        invariant Contents() == q[k..] && dst[..n] == Expand(q[..k])
        invariant room == max - n && fit == k + Fitting(q[k..], room)
        invariant forall i | n <= i < dst.Length :: dst[i] == old(dst[i])
        decreases |q| - k
      {
        FittingStep(q, k, room);
        var m := GetNext(dst, n, max);
        if m == n {
          break;
        }
        n := m;
        k, room := k + 1, room - |ExpandByte(q[k])|;
      }
    }
  }
}

/** Output of a virtio-serial port: throttled, resumable delivery of scatter-gather elements. */
module VirtioSerial {
  import opened Bytes

  /** The out_sg buffers of one virtqueue element. */
  type Elem = seq<seq<byte>>

  // ----- specification -----

  /** The guest's byte stream. */
  function Stream(es: seq<Elem>): seq<byte> {
    if es == [] then [] else Flatten(es[0]) + Stream(es[1..])
  }

  /** The bytes of an element in front of position (idx, off). */
  function Before(e: Elem, idx: nat, off: nat): seq<byte>
    requires (idx < |e| && off <= |e[idx]|) || (idx == |e| && off == 0)
  {
    Flatten(e[..idx]) + (if idx < |e| then e[idx][..off] else [])
  }

  datatype Answer = Answer(ret: nat, throttle: bool)

  /**
   * The character backend: what it makes of its n-th write, of the given length. It takes some of the bytes or none, or
   * answers -1.
   */
  type Backend = ans: (nat, nat) -> int | forall n, len: nat :: -1 <= ans(n, len) <= len witness (_, _) => 0

  /** Every write from the n-th on is taken in full. */
  ghost predicate TakesAll(ans: Backend, n: nat) {
    forall k, len: nat | k >= n :: ans(k, len) == len
  }

  /** Some write of no bytes is answered with an error. */
  ghost predicate RefusesEmpty(ans: Backend) {
    exists n: nat :: ans(n, 0) < 0
  }

  /** flush_buf: `rc` is what the character backend made of `len` bytes. */
  function FlushBuf(connected: bool, isConsole: bool, rc: int, len: nat): (a: Answer)
    requires rc <= len
    ensures a.ret <= len
    ensures a.throttle <==> connected && !isConsole && rc < len
    ensures a.ret == len || a.ret == rc || (rc < 0 && a.ret == 0)
    ensures !isConsole && a.ret < len ==> a.throttle
  {
    if !connected then Answer(len, false)
    else if rc < len then Answer(if rc < 0 then 0 else rc, !isConsole)
    else Answer(len, false)
  }

  /** Bytes the flush loop leaves behind after an answer: the accepted ones, or the whole buffer without throttling. */
  function PassedOver(a: Answer, len: nat): nat {
    if a.throttle then a.ret else len
  }

  /** The bytes of the buffer that a backend took. */
  function Taken(connected: bool, rc: int): nat {
    if connected && rc > 0 then rc else 0
  }

  /**
   * Nothing is passed over that no backend took exactly when there is nothing, or a connected backend that is no
   * console's or takes everything.
   */
  lemma PassedOverIsDelivered(connected: bool, isConsole: bool, rc: int, len: nat)
    requires rc <= len
    ensures Taken(connected, rc) <= PassedOver(FlushBuf(connected, isConsole, rc, len), len)
    ensures Taken(connected, rc) == PassedOver(FlushBuf(connected, isConsole, rc, len), len) <==>
            len == 0 || (connected && (!isConsole || rc == len))
  {
  }

  // ----- what was delivered of what was passed over -----

  /** Delivered bytes keep their order; `lost` counts the others. */
  ghost predicate Accounted(delivered: seq<byte>, passed: seq<byte>, lost: nat) {
    Subsequence(delivered, passed) && |passed| == |delivered| + lost
  }

  lemma AccountedNext(delivered: seq<byte>, passed: seq<byte>, lost: nat, buf: seq<byte>, taken: nat, n: nat)
    requires Accounted(delivered, passed, lost) && taken <= n <= |buf|
    ensures Accounted(delivered + buf[..taken], passed + buf[..n], lost + n - taken)
  {
    SubsequenceGrows(delivered, passed, buf, taken, n);
  }

  /** The same bytes were appended to both. */
  ghost predicate SameGrowth(delivered0: seq<byte>, passed0: seq<byte>, delivered: seq<byte>, passed: seq<byte>) {
    passed0 <= passed && delivered == delivered0 + passed[|passed0|..]
  }

  lemma GrowthJoined(d0: seq<byte>, p0: seq<byte>, d1: seq<byte>, p1: seq<byte>, d2: seq<byte>, p2: seq<byte>)
    requires SameGrowth(d0, p0, d1, p1) && SameGrowth(d1, p1, d2, p2)
    ensures SameGrowth(d0, p0, d2, p2)
  {
    assert p2[|p0|..] == p1[|p0|..] + p2[|p1|..];
  }

  lemma {:induction false} StreamAppend(a: seq<Elem>, b: seq<Elem>)
    ensures Stream(a + b) == Stream(a) + Stream(b)
  {
    if a == [] {
      assert a + b == b;
    } else {
      ConcatTail(a, b);
      StreamAppend(a[1..], b);
      ConcatAssociative(Flatten(a[0]), Stream(a[1..]), Stream(b));
    }
  }

  lemma StreamSnoc(a: seq<Elem>, e: Elem)
    ensures Stream(a + [e]) == Stream(a) + Flatten(e)
  {
    StreamAppend(a, [e]);
    assert [e][1..] == [] && Stream([]) == [];
    assert Stream([e]) == Flatten(e);
  }

  /** Advancing by n bytes inside a buffer. */
  lemma BeforeGrows(e: Elem, idx: nat, off: nat, n: nat)
    requires idx < |e| && off + n <= |e[idx]|
    ensures Before(e, idx, off + n) == Before(e, idx, off) + e[idx][off..off + n]
  {
    ConcatAssociative(Flatten(e[..idx]), e[idx][..off], e[idx][off..off + n]);
    assert e[idx][..off] + e[idx][off..off + n] == e[idx][..off + n];
  }

  /** The end of a buffer is the start of the next one. */
  lemma BeforeNext(e: Elem, idx: nat)
    requires idx < |e|
    ensures Before(e, idx, |e[idx]|) == Flatten(e[..idx + 1])
  {
    FlattenSnoc(e[..idx], e[idx]);
    assert e[..idx] + [e[idx]] == e[..idx + 1];
    assert e[idx][..|e[idx]|] == e[idx];
  }

  lemma BeforeStart(e: Elem, idx: nat)
    requires idx <= |e|
    ensures Before(e, idx, 0) == Flatten(e[..idx])
  {
    assert idx < |e| ==> e[idx][..0] == [];
  }

  lemma BeforeIsPrefix(e: Elem, idx: nat, off: nat)
    requires idx < |e| && off <= |e[idx]|
    ensures Before(e, idx, off) <= Flatten(e)
  {
    BeforeGrows(e, idx, off, |e[idx]| - off);
    BeforeNext(e, idx);
    FlattenAppend(e[..idx + 1], e[idx + 1..]);
    SplitAt(e, idx + 1);
  }

  /** Elements handed out by the guest, given back to it, being worked on, and still queued. */
  datatype Account = Account(offered: seq<Elem>, returned: seq<Elem>, elem: Option<Elem>, idx: nat, off: nat, queue: seq<Elem>)

  function InWork(elem: Option<Elem>): seq<Elem> {
    if elem.Some? then [elem.value] else []
  }

  ghost predicate PositionOk(elem: Option<Elem>, idx: nat, off: nat) {
    elem.Some? ==> idx < |elem.value| && off <= |elem.value[idx]|
  }

  ghost predicate Balanced(a: Account) {
    && a.offered == a.returned + InWork(a.elem) + a.queue
    && PositionOk(a.elem, a.idx, a.off)
  }

  /** The bytes that may have left the port: returned elements entirely, the current one up to the position. */
  ghost function Progress(a: Account): seq<byte>
    requires PositionOk(a.elem, a.idx, a.off)
  {
    Stream(a.returned) + (if a.elem.Some? then Before(a.elem.value, a.idx, a.off) else [])
  }

  /** What the port is done with is always a prefix of what the guest wrote; with nothing left to do it is everything. */
  lemma ProgressIsPrefix(a: Account)
    requires Balanced(a)
    ensures Progress(a) <= Stream(a.offered)
    ensures Stream(a.returned) <= Progress(a)
    ensures a.elem.None? && a.queue == [] ==> Progress(a) == Stream(a.offered)
  {
    StreamAppend(a.returned + InWork(a.elem), a.queue);
    if a.elem.Some? {
      StreamSnoc(a.returned, a.elem.value);
      BeforeIsPrefix(a.elem.value, a.idx, a.off);
    } else {
      assert a.returned + [] == a.returned;
    }
    if a.queue == [] {
      assert a.returned + InWork(a.elem) + a.queue == a.returned + InWork(a.elem);
    }
  }

  // ----- the port -----

  class Port {
    const isConsole: bool
    var backendConnected: bool
    var queue: seq<Elem>     // available elements of the output virtqueue
    var returned: seq<Elem>  // elements pushed back to the ring
    var elem: Option<Elem>
    var iovIdx: nat
    var iovOffset: nat
    var throttled: bool
    var writes: nat          // how many writes the backend has answered
    var bhScheduled: bool
    ghost var offered: seq<Elem>    // every element the guest ever added
    ghost var passed: seq<byte>     // bytes the flush loop is done with
    ghost var delivered: seq<byte>  // bytes a backend took
    ghost var lost: nat             // bytes the flush loop is done with that no backend took

    ghost function Books(): Account
      reads this
    {
      Account(offered, returned, elem, iovIdx, iovOffset, queue)
    }

    ghost predicate Valid()
      reads this
    {
      Balanced(Books()) && passed == Progress(Books()) && Accounted(delivered, passed, lost)
    }

    constructor (isConsole: bool, backendConnected: bool)
      ensures Valid() && offered == [] && delivered == [] && lost == 0 && !throttled
      ensures this.isConsole == isConsole && this.backendConnected == backendConnected
    {
      this.isConsole, this.backendConnected := isConsole, backendConnected;
      queue, returned, elem, iovIdx, iovOffset := [], [], None, 0, 0;
      throttled, bhScheduled, writes := false, false, 0;
      offered, passed, delivered, lost := [], [], [], 0;
    }

    /** The character backend comes or goes. */
    method SetBackend(connected: bool)
      requires Valid()
      modifies `backendConnected
      ensures Valid() && backendConnected == connected
    {
      backendConnected := connected;
    }

    /** The guest adds an element to the ring. */
    method Offer(e: Elem)
      requires Valid()
      modifies `queue, `offered
      ensures Valid() && offered == old(offered) + [e]
    {
      queue := queue + [e];
      offered := offered + [e];
      assert returned + InWork(elem) + queue == returned + InWork(elem) + old(queue) + [e];
    }

    /** Whether every byte the port is done with goes to a backend, however little of it the backend takes at a time. */
    ghost predicate Reliable()
      reads this
    {
      backendConnected && !isConsole
    }

    /** have_data: the backend, if there is one, takes some of the bytes; a short write throttles every port but a console. */
    method HaveData(buf: seq<byte>, ans: Backend) returns (ret: nat, ghost taken: nat)
      requires !throttled
      modifies `throttled, `bhScheduled, `delivered, `writes
      ensures writes == old(writes) + if backendConnected then 1 else 0
      ensures throttled <==> Reliable() && ans(old(writes), |buf|) < |buf|
      ensures ret <= |buf| && (throttled ==> taken == ret)
      ensures taken == (if backendConnected && ans(old(writes), |buf|) > 0 then ans(old(writes), |buf|) else 0)
      ensures delivered == old(delivered) + buf[..taken]
      ensures Reliable() && !throttled ==> taken == |buf|
      ensures bhScheduled == old(bhScheduled)
    {
      var rc := if backendConnected then ans(writes, |buf|) else 0;
      var a := FlushBuf(backendConnected, isConsole, rc, |buf|);
      if backendConnected {
        writes := writes + 1;
      }
      if a.throttle {
        ThrottlePort(true);
      }
      ret, taken := a.ret, Taken(backendConnected, rc);
      delivered := delivered + buf[..taken];
    }

    method ThrottlePort(throttle: bool)
      modifies `throttled, `bhScheduled
      ensures throttled == throttle && bhScheduled == (old(bhScheduled) || !throttle)
    {
      throttled := throttle;
      if throttle {
        return;
      }
      bhScheduled := true;
    }

    /** One buffer of the current element: done with entirely, or the position at which the write stopped is saved. */
    method FlushBuffer(i: nat, ans: Backend, ghost start: seq<byte>)
      requires elem.Some? && !throttled && i < |elem.value| && iovOffset <= |elem.value[i]|
      requires passed == start + Before(elem.value, i, iovOffset) && Accounted(delivered, passed, lost)
      modifies `iovIdx, `iovOffset, `throttled, `writes, `bhScheduled, `delivered, `passed, `lost
      ensures if throttled
              then iovIdx == i && iovOffset <= |elem.value[i]| && passed == start + Before(elem.value, i, iovOffset)
              else iovOffset == 0 && passed == start + Before(elem.value, i + 1, 0)
      ensures Accounted(delivered, passed, lost) && old(lost) <= lost && (Reliable() ==> lost == old(lost))
      ensures (throttled ==> Reliable()) && old(delivered) <= delivered && bhScheduled == old(bhScheduled)
      ensures var len := |elem.value[i]| - old(iovOffset);
              && (throttled <==> Reliable() && ans(old(writes), len) < len)
              && (throttled ==> iovOffset == old(iovOffset) + Max(ans(old(writes), len), 0))
      ensures throttled ==> Held(ans)
      ensures lost == old(lost) ==> SameGrowth(old(delivered), old(passed), delivered, passed)
      ensures old(writes) <= writes && (TakesAll(ans, old(writes)) && backendConnected ==> lost == old(lost))
    {
      ghost var e := elem.value;
      var buf := elem.value[i][iovOffset..];
      ghost var delivered0 := delivered;
      var ret, taken := HaveData(buf, ans);
      AccountedNext(delivered0, passed, lost, buf, taken, if throttled then ret else |buf|);
      if throttled {
        iovIdx := i;
        Advance(start, i, iovOffset, ret);
        passed := passed + buf[..ret];
        iovOffset := iovOffset + ret;
        return;
      }
      assert buf[..|buf|] == buf;
      Advance(start, i, iovOffset, |buf|);
      passed, lost := passed + buf, lost + |buf| - taken;
      iovOffset := 0;
      BeforeNext(e, i);
      BeforeStart(e, i + 1);
    }

    /** The port stopped in front of a byte that the backend did not take, unless the backend refuses to take no bytes. */
    ghost predicate Held(ans: Backend)
      reads this
    {
      elem.Some? && iovIdx < |elem.value| && (iovOffset < |elem.value[iovIdx]| || RefusesEmpty(ans))
    }

    lemma Advance(start: seq<byte>, i: nat, off: nat, n: nat)
      requires elem.Some? && i < |elem.value| && off + n <= |elem.value[i]|
      ensures start + Before(elem.value, i, off) + elem.value[i][off..][..n] == start + Before(elem.value, i, off + n)
    {
      ghost var e := elem.value;
      BeforeGrows(e, i, off, n);
      assert e[i][off..][..n] == e[i][off..off + n];
      ConcatAssociative(start, Before(e, i, off), e[i][off..off + n]);
    }

    /** The for loop over the buffers of the current element, from the saved position on. */
    method FlushElement(ans: Backend)
      requires elem.Some? && !throttled
      requires (iovIdx < |elem.value| && iovOffset <= |elem.value[iovIdx]|) || (iovIdx == |elem.value| && iovOffset == 0)
      requires passed == Stream(returned) + Before(elem.value, iovIdx, iovOffset) && Accounted(delivered, passed, lost)
      modifies `iovIdx, `iovOffset, `throttled, `writes, `bhScheduled, `delivered, `passed, `lost
      ensures if throttled then PositionOk(elem, iovIdx, iovOffset) && passed == Progress(Books())
              else passed == Stream(returned) + Flatten(elem.value)
      ensures Accounted(delivered, passed, lost) && old(lost) <= lost && (Reliable() ==> lost == old(lost))
      ensures (throttled ==> Reliable()) && old(delivered) <= delivered && bhScheduled == old(bhScheduled)
      ensures throttled ==> Held(ans) && !TakesAll(ans, old(writes))
      ensures lost == old(lost) ==> SameGrowth(old(delivered), old(passed), delivered, passed)
      ensures old(writes) <= writes && (TakesAll(ans, old(writes)) && backendConnected ==> lost == old(lost))
    {
      ghost var e, start := elem.value, Stream(returned);
      var i := iovIdx;
      while i < |elem.value|
        invariant !throttled && ((i < |e| && iovOffset <= |e[i]|) || (i == |e| && iovOffset == 0))
        invariant passed == start + Before(e, i, iovOffset) && Accounted(delivered, passed, lost)
        invariant old(lost) <= lost && (Reliable() ==> lost == old(lost))
        invariant old(delivered) <= delivered && bhScheduled == old(bhScheduled)
        invariant old(writes) <= writes && (TakesAll(ans, old(writes)) && backendConnected ==> lost == old(lost))
        invariant lost == old(lost) ==> SameGrowth(old(delivered), old(passed), delivered, passed)
      {
        ghost var d, p := delivered, passed;
        FlushBuffer(i, ans, start);
        if lost == old(lost) {
          GrowthJoined(old(delivered), old(passed), d, p, delivered, passed);
        }
        if throttled {
          return;
        }
        i := i + 1;
      }
      BeforeStart(e, |e|);
      assert e[..|e|] == e;
    }

    /**
     * do_flush_queued_data: works until the queue is empty or the backend throttles. Bytes are lost only by a console
     * or while no backend is connected, and only a connected port that is no console is throttled, in front of a byte
     * the backend did not take. A port whose backend takes every write in full gives every element back.
     */
    method DoFlushQueuedData(ans: Backend)
      requires Valid()
      modifies `queue, `returned, `elem, `iovIdx, `iovOffset, `throttled, `writes, `bhScheduled, `delivered, `passed, `lost
      ensures Valid() && (throttled || (elem.None? && queue == [] && returned == offered))
      ensures old(delivered) <= delivered && old(returned) <= returned
      ensures old(lost) <= lost && (Reliable() ==> lost == old(lost))
      ensures lost == old(lost) ==> SameGrowth(old(delivered), old(passed), delivered, passed)
      ensures !throttled ==> passed == Stream(offered)
      ensures throttled && !old(throttled) ==> Reliable() && Held(ans) && !TakesAll(ans, old(writes))
      ensures TakesAll(ans, old(writes)) && backendConnected ==> lost == old(lost)
      ensures old(throttled) ==> delivered == old(delivered) && returned == old(returned) && throttled
      ensures bhScheduled == old(bhScheduled)
    {
      while !throttled
        invariant Valid() && old(delivered) <= delivered && old(returned) <= returned && old(writes) <= writes
        invariant old(lost) <= lost && (Reliable() ==> lost == old(lost))
        invariant lost == old(lost) ==> SameGrowth(old(delivered), old(passed), delivered, passed)
        invariant throttled && !old(throttled) ==> Reliable() && Held(ans) && !TakesAll(ans, old(writes))
        invariant TakesAll(ans, old(writes)) && backendConnected ==> lost == old(lost)
        invariant bhScheduled == old(bhScheduled)
        invariant old(throttled) ==> delivered == old(delivered) && returned == old(returned) && throttled
        decreases |queue| + |InWork(elem)|, !throttled
      {
        if elem.None? && queue == [] {
          break;
        }
        ghost var d, p := delivered, passed;
        FlushNext(ans);
        if lost == old(lost) {
          GrowthJoined(old(delivered), old(passed), d, p, delivered, passed);
        }
      }
      ProgressIsPrefix(Books());
    }

    /** One turn of its loop, with an element to work on. */
    method FlushNext(ans: Backend)
      requires Valid() && !throttled && (elem.Some? || queue != [])
      modifies `queue, `returned, `elem, `iovIdx, `iovOffset, `throttled, `writes, `bhScheduled, `delivered, `passed, `lost
      ensures Valid() && old(delivered) <= delivered && bhScheduled == old(bhScheduled) && old(writes) <= writes
      ensures old(lost) <= lost && (Reliable() ==> lost == old(lost))
      ensures throttled ==> Reliable() && Held(ans) && !TakesAll(ans, old(writes))
      ensures lost == old(lost) ==> SameGrowth(old(delivered), old(passed), delivered, passed)
      ensures TakesAll(ans, old(writes)) && backendConnected ==> lost == old(lost)
      ensures if throttled then |queue| + |InWork(elem)| <= old(|queue| + |InWork(elem)|) && returned == old(returned)
              else |queue| + |InWork(elem)| < old(|queue| + |InWork(elem)|) && old(returned) < returned
    {
      if elem.None? {
        PopElement();
      }
      FlushElement(ans);
      if throttled {
        return;
      }
      PushElement();
    }

    method PopElement()
      requires Valid() && elem.None? && queue != []
      modifies `queue, `elem, `iovIdx, `iovOffset
      ensures elem == Some(old(queue)[0]) && queue == old(queue)[1..] && iovIdx == 0 && iovOffset == 0
      ensures offered == returned + InWork(elem) + queue && passed == Stream(returned) + Before(elem.value, 0, 0)
    {
      elem := Some(queue[0]);
      queue := queue[1..];
      iovIdx, iovOffset := 0, 0;
      assert offered == returned + InWork(elem) + queue;
      BeforeStart(elem.value, 0);
      assert Flatten(elem.value[..0]) == [];
    }

    method PushElement()
      requires elem.Some? && offered == returned + InWork(elem) + queue
      requires passed == Stream(returned) + Flatten(elem.value) && Accounted(delivered, passed, lost)
      modifies `returned, `elem
      ensures Valid() && elem.None? && returned == old(returned) + [old(elem).value]
    {
      StreamSnoc(returned, elem.value);
      returned := returned + [elem.value];
      elem := None;
      assert offered == returned + InWork(elem) + queue;
    }

    /** The guest kicked the queue of an open port. */
    method HandleOutput(ans: Backend)
      requires Valid()
      modifies `queue, `returned, `elem, `iovIdx, `iovOffset, `throttled, `writes, `bhScheduled, `delivered, `passed, `lost
      ensures Valid() && (throttled || (elem.None? && queue == [] && returned == offered))
      ensures old(delivered) <= delivered && old(returned) <= returned
      ensures Reliable() ==> lost == old(lost)
      ensures !throttled ==> passed == Stream(offered)
      ensures lost == old(lost) ==> SameGrowth(old(delivered), old(passed), delivered, passed)
      ensures throttled && !old(throttled) ==> Reliable() && Held(ans)
      ensures !old(throttled) && TakesAll(ans, old(writes)) ==> !throttled && (backendConnected ==> lost == old(lost))
      ensures old(throttled) ==> throttled && delivered == old(delivered) && returned == old(returned)
    {
      if !throttled {
        DoFlushQueuedData(ans);
      }
    }

    /** The bottom half scheduled by unthrottling. */
    method FlushQueuedDataBh(ans: Backend)
      requires Valid()
      modifies `queue, `returned, `elem, `iovIdx, `iovOffset, `throttled, `writes, `bhScheduled, `delivered, `passed, `lost
      ensures Valid() && (throttled || (elem.None? && queue == [] && returned == offered)) && !bhScheduled
      ensures old(delivered) <= delivered && old(returned) <= returned
      ensures Reliable() ==> lost == old(lost)
      ensures !throttled ==> passed == Stream(offered)
      ensures lost == old(lost) ==> SameGrowth(old(delivered), old(passed), delivered, passed)
      ensures throttled && !old(throttled) ==> Reliable() && Held(ans)
      ensures !old(throttled) && TakesAll(ans, old(writes)) ==> !throttled && (backendConnected ==> lost == old(lost))
      ensures old(throttled) ==> throttled && delivered == old(delivered) && returned == old(returned)
    {
      bhScheduled := false;
      DoFlushQueuedData(ans);
    }

    /**
     * In every reachable state: what backends took is in order what the guest wrote, without the lost bytes; with none
     * lost it is a prefix of it that covers the elements given back, and in the end everything.
     */
    lemma DeliveredInOrder()
      requires Valid()
      ensures Subsequence(delivered, passed) && Stream(returned) <= passed <= Stream(offered) && returned <= offered
      ensures lost == |passed| - |delivered| && (lost == 0 <==> delivered == passed)
      ensures lost == 0 ==> Stream(returned) <= delivered <= Stream(offered)
      ensures elem.None? && queue == [] ==> (lost == 0 <==> delivered == Stream(offered))
    {
      ProgressIsPrefix(Books());
      NothingLost(delivered, passed);
      assert offered == returned + (InWork(elem) + queue);
    }
  }
}

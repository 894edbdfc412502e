/** The round-robin scheduler with two priorities: a circular doubly linked list of processes. */
module Scheduler {

  datatype Task = Task(id: int, pid: int, high: bool)

  // ----- specification: the ring as a sequence that starts at the current task -----

  function CountHigh(ts: seq<Task>): nat {
    if ts == [] then 0 else (if ts[0].high then 1 else 0) + CountHigh(ts[1..])
  }

  /** With HIGH tasks around, only those may run. */
  predicate Eligible(highs: nat, t: Task) { highs == 0 || t.high }

  function Filter(highs: nat, ts: seq<Task>): seq<Task> {
    if ts == [] then []
    else (if Eligible(highs, ts[0]) then [ts[0]] else []) + Filter(highs, ts[1..])
  }

  /** One step on: the second node first, the current one last. */
  function AfterCurrent<T>(ring: seq<T>): seq<T>
    requires ring != []
  {
    ring[1..] + [ring[0]]
  }

  /** The same ring, j steps on. */
  function From<T>(ring: seq<T>, j: nat): (r: seq<T>)
    requires j <= |ring|
    ensures |r| == |ring|
    decreases j
  {
    if j == 0 then ring else From(AfterCurrent(ring), j - 1)
  }

  function Without<T>(ring: seq<T>, k: nat): seq<T>
    requires k < |ring|
  {
    ring[..k] + ring[k + 1..]
  }

  function FirstEligible(highs: nat, ts: seq<Task>): (j: nat)
    requires ts != []
    ensures j < |ts|
  {
    if |ts| == 1 || Eligible(highs, ts[0]) then 0 else 1 + FirstEligible(highs, ts[1..])
  }

  /** The ring after the current task has stopped. */
  function Stopped(ts: seq<Task>): (r: seq<Task>)
    requires ts != []
    ensures |r| == |ts|
  {
    From(AfterCurrent(ts), FirstEligible(CountHigh(ts), AfterCurrent(ts)))
  }

  function Created(ts: seq<Task>, id: int, pid: int): seq<Task>
    requires ts != []
  {
    [ts[0], Task(id, pid, false)] + ts[1..]
  }

  function Prioritised(ts: seq<Task>, id: int, high: bool): (r: seq<Task>)
    ensures |r| == |ts|
  {
    if ts == [] then []
    else if ts[0].id == id then [ts[0].(high := high)] + ts[1..]
    else [ts[0]] + Prioritised(ts[1..], id, high)
  }

  /** The scheduler would continue with a node that is no longer in the ring. */
  predicate LosesRing(ts: seq<Task>, k: nat)
    requires k < |ts|
  {
    k == 1 && ts[1].high && CountHigh(Without(ts, 1)) > 0
  }

  /** The ring after the k-th task died; the death of a LOW successor leaves the current task in place. */
  function Buried(ts: seq<Task>, k: nat): (r: seq<Task>)
    requires k < |ts| && |ts| >= 2
    ensures |r| == |ts| - 1
  {
    var rest := Without(ts, k);
    if k == 0 then From(rest, FirstEligible(CountHigh(rest), rest))
    else if k == 1 && CountHigh(rest) > 0 then rest
    else Stopped(rest)
  }

  // ----- counting and filtering over rotations -----

  lemma {:induction false} FromSlices<T>(ring: seq<T>, j: nat)
    requires j <= |ring|
    ensures From(ring, j) == ring[j..] + ring[..j]
    decreases j
  {
    if j > 0 {
      FromSlices(AfterCurrent(ring), j - 1);
    }
  }

  lemma {:induction false} FromFrom<T>(ring: seq<T>, p: nat, j: nat)
    requires p + j <= |ring|
    ensures From(From(ring, p), j) == From(ring, p + j)
    decreases p
  {
    if p > 0 {
      FromFrom(AfterCurrent(ring), p - 1, j);
    }
  }

  lemma {:induction false} CountAppend(a: seq<Task>, b: seq<Task>)
    ensures CountHigh(a + b) == CountHigh(a) + CountHigh(b)
  {
    if a == [] {
      assert a + b == b;
    } else {
      CountAppend(a[1..], b);
      assert (a + b)[1..] == a[1..] + b;
    }
  }

  lemma CountFrom(ts: seq<Task>, j: nat)
    requires j <= |ts|
    ensures CountHigh(From(ts, j)) == CountHigh(ts)
  {
    FromSlices(ts, j);
    CountAppend(ts[j..], ts[..j]);
    CountAppend(ts[..j], ts[j..]);
    assert ts[..j] + ts[j..] == ts;
  }

  lemma CountAt(ts: seq<Task>, k: nat)
    requires k < |ts|
    ensures CountHigh(ts) == CountHigh(Without(ts, k)) + (if ts[k].high then 1 else 0)
  {
    CountAppend(ts[..k], ts[k..]);
    CountAppend(ts[..k], ts[k + 1..]);
    assert ts[..k] + ts[k..] == ts && ts[k..][1..] == ts[k + 1..];
  }

  lemma {:induction false} CountPositive(ts: seq<Task>)
    ensures CountHigh(ts) > 0 <==> exists i | 0 <= i < |ts| :: ts[i].high
  {
    if ts != [] {
      CountPositive(ts[1..]);
      if CountHigh(ts[1..]) > 0 {
        var i :| 0 <= i < |ts[1..]| && ts[1..][i].high;
        assert ts[i + 1].high;
      }
      if i :| 0 <= i < |ts| && ts[i].high {
        if i > 0 {
          assert ts[i] == ts[1..][i - 1];
        }
      }
    }
  }

  lemma {:induction false} FilterLength(highs: nat, ts: seq<Task>)
    ensures |Filter(highs, ts)| == if highs == 0 then |ts| else CountHigh(ts)
    ensures highs == 0 ==> Filter(highs, ts) == ts
    ensures forall t :: t in Filter(highs, ts) <==> t in ts && Eligible(highs, t)
  {
    if ts != [] {
      FilterLength(highs, ts[1..]);
      assert ts == [ts[0]] + ts[1..];
    }
  }

  lemma {:induction false} FilterUpTo(highs: nat, ts: seq<Task>)
    requires Filter(highs, ts) != []
    ensures var j := FirstEligible(highs, ts);
            Eligible(highs, ts[j]) && Filter(highs, ts) == [ts[j]] + Filter(highs, ts[j + 1..])
  {
    if !Eligible(highs, ts[0]) {
      FilterUpTo(highs, ts[1..]);
      assert ts[1..][FirstEligible(highs, ts[1..]) + 1..] == ts[FirstEligible(highs, ts) + 1..];
    }
  }

  /** The first of the eligible tasks, when there is one. */
  lemma {:induction false} FirstEligibleIsFirst(highs: nat, ts: seq<Task>)
    requires ts != []
    ensures forall i | 0 <= i < FirstEligible(highs, ts) :: !Eligible(highs, ts[i])
    ensures (exists i | 0 <= i < |ts| :: Eligible(highs, ts[i])) ==> Eligible(highs, ts[FirstEligible(highs, ts)])
  {
    if |ts| > 1 && !Eligible(highs, ts[0]) {
      FirstEligibleIsFirst(highs, ts[1..]);
      forall i | 0 <= i < |ts| && Eligible(highs, ts[i]) ensures Eligible(highs, ts[1..][i - 1]) {
      }
    }
  }

  lemma {:induction false} FirstEligibleInPrefix(highs: nat, a: seq<Task>, b: seq<Task>)
    requires Filter(highs, a) != []
    ensures FirstEligible(highs, a + b) == FirstEligible(highs, a)
  {
    if !Eligible(highs, a[0]) {
      FirstEligibleInPrefix(highs, a[1..], b);
      assert (a + b)[1..] == a[1..] + b;
    }
  }

  /** Some task is always eligible, so a stop hands over to one. */
  lemma StoppedIsEligible(ts: seq<Task>)
    requires ts != []
    ensures Eligible(CountHigh(ts), Stopped(ts)[0])
    ensures CountHigh(Stopped(ts)) == CountHigh(ts)
  {
    var highs, ahead := CountHigh(ts), AfterCurrent(ts);
    var j := FirstEligible(highs, ahead);
    assert ahead == From(ts, 1);
    CountFrom(ts, 1);
    CountFrom(ahead, j);
    FromStart(ahead, j);
    assert exists i | 0 <= i < |ahead| :: Eligible(highs, ahead[i]) by {
      CountPositive(ahead);
      assert highs == 0 ==> Eligible(highs, ahead[0]);
    }
    FirstEligibleIsFirst(highs, ahead);
  }

  lemma {:induction false} AllLow(ts: seq<Task>)
    requires forall i | 0 <= i < |ts| :: !ts[i].high
    ensures CountHigh(ts) == 0
  {
    CountPositive(ts);
  }

  lemma CountCreated(ts: seq<Task>, id: int, pid: int)
    requires ts != []
    ensures CountHigh(Created(ts, id, pid)) == CountHigh(ts)
  {
    assert Created(ts, id, pid)[1..] == [Task(id, pid, false)] + ts[1..];
    assert ([Task(id, pid, false)] + ts[1..])[1..] == ts[1..];
  }

  lemma CountUpdated(ts: seq<Task>, k: nat, high: bool)
    requires k < |ts| && ts[k].high != high
    ensures CountHigh(ts[k := ts[k].(high := high)]) == CountHigh(ts) + (if high then 1 else -1)
  {
    var r := ts[k := ts[k].(high := high)];
    CountAt(ts, k);
    CountAt(r, k);
    assert Without(ts, k) == Without(r, k);
  }

  /** A search that finds the first HIGH task of `order` has found what a stop selects. */
  lemma HighIsSelected(order: seq<Task>, j: nat)
    requires j < |order| && order[j].high && forall i | 0 <= i < j :: !order[i].high
    ensures CountHigh(order) > 0 && FirstEligible(CountHigh(order), order) == j
  {
    CountPositive(order);
    FirstEligibleIsFirst(CountHigh(order), order);
    assert Eligible(CountHigh(order), order[j]);
  }

  /** The outcome of a search for HIGH behind the current task, as a stop sees it. */
  lemma HighFound(ahead: seq<Task>, ts: seq<Task>, j: nat, none: bool)
    requires ts != [] && ahead == AfterCurrent(ts) && CountHigh(ts) > 0
    requires none ==> forall i | 0 <= i < |ahead| :: !ahead[i].high
    requires !none ==> j < |ahead| && ahead[j].high && forall i | 0 <= i < j :: !ahead[i].high
    ensures !none && Stopped(ts) == From(ahead, j)
  {
    assert ahead == From(ts, 1);
    CountFrom(ts, 1);
    CountPositive(ahead);
    HighIsSelected(ahead, j);
    StoppedFrom(ts, ahead, j);
  }

  lemma SkipOne(ts: seq<Task>, j: nat)
    requires j < |ts|
    ensures From(AfterCurrent(ts), j) == From(ts, if j + 1 == |ts| then 0 else j + 1)
  {
    FromFrom(ts, 1, j);
    if j + 1 == |ts| {
      FromSlices(AfterCurrent(ts), j);
    }
  }

  /** Without HIGH tasks the node behind the dead or the current one continues. */
  lemma BuriedWithoutHigh(ts: seq<Task>, k: nat) returns (at: nat)
    requires k < |ts| && |ts| >= 2 && CountHigh(Without(ts, k)) == 0
    ensures !LosesRing(ts, k)
    ensures at == (if k == 0 || |ts| == 2 then 0 else 1) && Buried(ts, k) == From(Without(ts, k), at)
  {
    var rest := Without(ts, k);
    at := if k == 0 || |ts| == 2 then 0 else 1;
    if k != 0 {
      StoppedWithoutHigh(rest);
      assert |ts| == 2 ==> AfterCurrent(rest) == rest;
    }
  }

  /** Setting a priority changes the first task with that id; at index |ts| there is none. */
  lemma {:induction false} PrioritisedAt(ts: seq<Task>, id: int, high: bool, i: nat)
    requires i <= |ts| && forall k | 0 <= k < i :: ts[k].id != id
    requires i < |ts| ==> ts[i].id == id
    ensures Prioritised(ts, id, high) == if i < |ts| then ts[i := ts[i].(high := high)] else ts
  {
    if i > 0 {
      PrioritisedAt(ts[1..], id, high, i - 1);
      assert i < |ts| ==> ts[i := ts[i].(high := high)] == [ts[0]] + ts[1..][i - 1 := ts[i].(high := high)];
    } else if ts != [] {
      assert ts[0 := ts[0].(high := high)] == [ts[0].(high := high)] + ts[1..];
    }
  }

  lemma StoppedWithoutHigh(ts: seq<Task>)
    requires ts != [] && CountHigh(ts) == 0
    ensures Stopped(ts) == AfterCurrent(ts)
  {
  }

  // ----- fair rotation -----

  function StopMany(ts: seq<Task>, n: nat): (r: seq<Task>)
    requires ts != []
    ensures |r| == |ts|
    decreases n
  {
    if n == 0 then ts else StopMany(Stopped(ts), n - 1)
  }

  /** The tasks made current by n consecutive stops. */
  function Visits(ts: seq<Task>, n: nat): seq<Task>
    requires ts != []
    decreases n
  {
    if n == 0 then [] else [Stopped(ts)[0]] + Visits(Stopped(ts), n - 1)
  }

  /** The ring whose current task is the one in front of position p of `order`. */
  function RingAt(order: seq<Task>, p: nat): (ts: seq<Task>)
    requires p <= |order| && order != []
    ensures |ts| == |order|
  {
    From(order, if p == 0 then |order| - 1 else p - 1)
  }

  lemma OneStep<T>(ring: seq<T>)
    requires ring != []
    ensures From(ring, 1) == AfterCurrent(ring)
  {
  }

  lemma FromEnd<T>(ring: seq<T>)
    ensures From(ring, |ring|) == From(ring, 0) == ring
  {
    FromSlices(ring, |ring|);
  }

  lemma FromNext<T>(ring: seq<T>, q: nat)
    requires q < |ring|
    ensures AfterCurrent(From(ring, q)) == From(ring, q + 1)
  {
    FromFrom(ring, q, 1);
    OneStep(From(ring, q));
  }

  lemma RingAtLooksAhead(order: seq<Task>, p: nat)
    requires p <= |order| && order != []
    ensures AfterCurrent(RingAt(order, p)) == From(order, p)
  {
    hide From, AfterCurrent;
    if p == 0 {
      FromNext(order, |order| - 1);
      FromEnd(order);
    } else {
      FromNext(order, p - 1);
    }
  }

  lemma FromStart<T>(ring: seq<T>, j: nat)
    requires j < |ring|
    ensures From(ring, j)[0] == ring[j]
  {
    FromSlices(ring, j);
  }

  lemma StoppedFrom(ts: seq<Task>, ahead: seq<Task>, j: nat)
    requires ts != [] && ahead == AfterCurrent(ts) && j == FirstEligible(CountHigh(ts), ahead)
    ensures Stopped(ts) == From(ahead, j)
  {
  }

  /** What stands in front of position p does not hide the next eligible task behind it. */
  lemma AheadFirst(order: seq<Task>, p: nat, j: nat)
    requires p <= |order| && order != [] && Filter(CountHigh(order), order[p..]) != []
    requires j == FirstEligible(CountHigh(order), order[p..])
    ensures j < |order| - p && FirstEligible(CountHigh(order), From(order, p)) == j
  {
    FilterUpTo(CountHigh(order), order[p..]);
    FromSlices(order, p);
    FirstEligibleInPrefix(CountHigh(order), order[p..], order[..p]);
  }

  lemma RingAtIs(order: seq<Task>, p: nat, j: nat)
    requires p + j < |order|
    ensures RingAt(order, p + j + 1) == From(From(order, p), j) && RingAt(order, p + j + 1)[0] == order[p + j]
  {
    FromFrom(order, p, j);
    FromStart(order, p + j);
  }

  lemma StopLandsOn(order: seq<Task>, p: nat, j: nat)
    requires p <= |order| && order != [] && Filter(CountHigh(order), order[p..]) != []
    requires j == FirstEligible(CountHigh(order), order[p..])
    ensures j < |order| - p && Stopped(RingAt(order, p)) == From(From(order, p), j)
  {
    var ring := RingAt(order, p);
    CountFrom(order, if p == 0 then |order| - 1 else p - 1);
    RingAtLooksAhead(order, p);
    AheadFirst(order, p, j);
    StoppedFrom(ring, AfterCurrent(ring), j);
  }

  /** A stop seen from position p of the order moves to the next eligible task at or behind p. */
  lemma StopMovesOn(order: seq<Task>, p: nat, j: nat)
    requires p <= |order| && order != [] && Filter(CountHigh(order), order[p..]) != []
    requires j == FirstEligible(CountHigh(order), order[p..])
    ensures Stopped(RingAt(order, p)) == RingAt(order, p + j + 1) && RingAt(order, p + j + 1)[0] == order[p + j]
  {
    StopLandsOn(order, p, j);
    RingAtIs(order, p, j);
  }

  /** From position p on, stops visit the remaining eligible tasks of the order, one after the other. */
  lemma {:induction false} VisitsInOrder(order: seq<Task>, p: nat)
    requires p <= |order| && order != []
    ensures var left := Filter(CountHigh(order), order[p..]);
            Visits(RingAt(order, p), |left|) == left
    decreases |order| - p
  {
    var highs := CountHigh(order);
    var left := Filter(highs, order[p..]);
    if left != [] {
      var j := FirstEligible(highs, order[p..]);
      FilterUpTo(highs, order[p..]);
      StopMovesOn(order, p, j);
      assert order[p..][j + 1..] == order[p + j + 1..];
      VisitsInOrder(order, p + j + 1);
    }
  }

  lemma {:induction false} StopsComeRound(order: seq<Task>, p: nat)
    requires p <= |order| && order != [] && CountHigh(order) == 0
    ensures StopMany(RingAt(order, p), |order| - p) == RingAt(order, |order|)
    decreases |order| - p
  {
    if p < |order| {
      var left := Filter(0, order[p..]);
      assert left != [] && FirstEligible(0, order[p..]) == 0 by { FilterLength(0, order[p..]); }
      StopMovesOn(order, p, 0);
      assert StopMany(RingAt(order, p), |order| - p) == StopMany(RingAt(order, p + 1), |order| - (p + 1));
      StopsComeRound(order, p + 1);
    }
  }

  lemma WholeTurn(ts: seq<Task>)
    requires ts != []
    ensures var order := AfterCurrent(ts); RingAt(order, 0) == ts && RingAt(order, |order|) == ts
  {
    FromSlices(AfterCurrent(ts), |ts| - 1);
  }

  /**
   * Fairness. Without HIGH tasks, |ts| stops make every task current once, in ring order, and end where they began;
   * with h HIGH tasks, h stops make each HIGH task current once, in ring order, and no LOW task.
   */
  lemma FairRotation(ts: seq<Task>)
    requires ts != []
    ensures var highs := CountHigh(ts);
            if highs == 0 then Visits(ts, |ts|) == AfterCurrent(ts) && StopMany(ts, |ts|) == ts
            else Visits(ts, highs) == Filter(highs, AfterCurrent(ts)) && |Filter(highs, AfterCurrent(ts))| == highs
  {
    hide Visits, StopMany, Filter, RingAt, From, CountHigh;
    var order := AfterCurrent(ts);
    OneStep(ts);
    CountFrom(ts, 1);
    WholeTurn(ts);
    assert order[0..] == order;
    VisitsInOrder(order, 0);
    FilterLength(CountHigh(order), order);
    if CountHigh(ts) == 0 {
      StopsComeRound(order, 0);
    }
  }

  // ----- consistency of the counters -----

  ghost predicate DistinctTasks(ts: seq<Task>) {
    forall i, j | 0 <= i < j < |ts| :: ts[i].id != ts[j].id && ts[i].pid != ts[j].pid
  }

  /** The counters agree with the tasks alive; ids never exceed the number of processes ever created. */
  ghost predicate Consistent(ts: seq<Task>, hashigh: int, nproc: int, deadChildren: int) {
    && ts != [] && DistinctTasks(ts)
    && (forall i | 0 <= i < |ts| :: 0 <= ts[i].id <= nproc)
    && hashigh == CountHigh(ts)
    && |ts| == nproc + 1 - deadChildren
  }

  /** The shell with id 0, then one LOW task for each pid. */
  function Initial(shell: int, pids: seq<int>): (ts: seq<Task>)
    ensures |ts| == |pids| + 1 && ts[0] == Task(0, shell, false)
    ensures forall i | 1 <= i < |ts| :: ts[i] == Task(i, pids[i - 1], false)
    decreases |pids|
  {
    if pids == [] then [Task(0, shell, false)]
    else
      var n := |pids| - 1;
      Initial(shell, pids[..n]) + [Task(n + 1, pids[n], false)]
  }

  lemma InitialConsistent(shell: int, pids: seq<int>)
    requires (forall i, j | 0 <= i < j < |pids| :: pids[i] != pids[j]) && shell !in pids
    ensures Consistent(Initial(shell, pids), 0, |pids|, 0)
  {
    AllLow(Initial(shell, pids));
  }

  lemma ConsistentFrom(ts: seq<Task>, hashigh: int, nproc: int, deadChildren: int, j: nat)
    requires Consistent(ts, hashigh, nproc, deadChildren) && j <= |ts|
    ensures Consistent(From(ts, j), hashigh, nproc, deadChildren)
  {
    CountFrom(ts, j);
    FromSlices(ts, j);
  }

  lemma ConsistentNonEmpty(ts: seq<Task>, hashigh: int, nproc: int, deadChildren: int)
    requires Consistent(ts, hashigh, nproc, deadChildren)
    ensures ts != []
  {
  }

  lemma ConsistentCreated(ts: seq<Task>, hashigh: int, nproc: int, deadChildren: int, pid: int)
    requires Consistent(ts, hashigh, nproc, deadChildren) && forall i | 0 <= i < |ts| :: ts[i].pid != pid
    ensures Consistent(Created(ts, nproc + 1, pid), hashigh, nproc + 1, deadChildren)
  {
    CountCreated(ts, nproc + 1, pid);
  }

  lemma ConsistentUpdated(ts: seq<Task>, hashigh: int, nproc: int, deadChildren: int, i: nat, high: bool)
    requires Consistent(ts, hashigh, nproc, deadChildren) && i < |ts| && ts[i].high != high
    ensures Consistent(ts[i := ts[i].(high := high)], hashigh + (if high then 1 else -1), nproc, deadChildren)
  {
    CountUpdated(ts, i, high);
  }

  lemma ConsistentWithout(ts: seq<Task>, hashigh: int, nproc: int, deadChildren: int, k: nat)
    requires Consistent(ts, hashigh, nproc, deadChildren) && k < |ts| && |ts| >= 2
    ensures Consistent(Without(ts, k), hashigh - (if ts[k].high then 1 else 0), nproc, deadChildren + 1)
  {
    CountAt(ts, k);
  }

  lemma ConsistentPrioritised(ts: seq<Task>, hashigh: int, nproc: int, deadChildren: int, id: int, high: bool)
    requires Consistent(ts, hashigh, nproc, deadChildren)
    ensures Consistent(Prioritised(ts, id, high), CountHigh(Prioritised(ts, id, high)), nproc, deadChildren)
    ensures forall i | 0 <= i < |ts| :: Prioritised(ts, id, high)[i] == if ts[i].id == id then ts[i].(high := high) else ts[i]
  {
    PrioritisedOthers(ts, id, high);
  }

  lemma {:induction false} PrioritisedOthers(ts: seq<Task>, id: int, high: bool)
    requires DistinctTasks(ts)
    ensures forall i | 0 <= i < |ts| :: Prioritised(ts, id, high)[i] == if ts[i].id == id then ts[i].(high := high) else ts[i]
  {
    if ts != [] {
      PrioritisedOthers(ts[1..], id, high);
      forall i | 1 <= i < |ts|
        ensures Prioritised(ts, id, high)[i] == if ts[i].id == id then ts[i].(high := high) else ts[i]
      {
        assert ts[i] == ts[1..][i - 1] && ts[0].id != ts[i].id;
      }
    }
  }

  lemma ConsistentBuried(ts: seq<Task>, hashigh: int, nproc: int, deadChildren: int, k: nat)
    requires Consistent(ts, hashigh, nproc, deadChildren) && k < |ts| && |ts| >= 2
    ensures Consistent(Buried(ts, k), hashigh - (if ts[k].high then 1 else 0), nproc, deadChildren + 1)
  {
    var rest, highs := Without(ts, k), hashigh - if ts[k].high then 1 else 0;
    ConsistentWithout(ts, hashigh, nproc, deadChildren, k);
    if k == 0 {
      ConsistentFrom(rest, highs, nproc, deadChildren + 1, FirstEligible(CountHigh(rest), rest));
    } else if !(k == 1 && CountHigh(rest) > 0) {
      ConsistentStopped(rest, highs, nproc, deadChildren + 1);
    }
  }

  lemma ConsistentStopped(ts: seq<Task>, hashigh: int, nproc: int, deadChildren: int)
    requires Consistent(ts, hashigh, nproc, deadChildren)
    ensures Consistent(Stopped(ts), hashigh, nproc, deadChildren)
  {
    OneStep(ts);
    ConsistentFrom(ts, hashigh, nproc, deadChildren, 1);
    ConsistentFrom(AfterCurrent(ts), hashigh, nproc, deadChildren, FirstEligible(CountHigh(ts), AfterCurrent(ts)));
  }

  /** After a death, too, an eligible task continues, except when a LOW successor of a LOW task dies among HIGH ones. */
  lemma BuriedIsEligible(ts: seq<Task>, k: nat)
    requires k < |ts| && |ts| >= 2 && !LosesRing(ts, k)
    ensures var highs := CountHigh(Without(ts, k));
            Eligible(highs, Buried(ts, k)[0]) <==> !(k == 1 && highs > 0 && !ts[0].high)
  {
    var rest := Without(ts, k);
    var highs := CountHigh(rest);
    if k == 0 {
      CountPositive(rest);
      FirstEligibleIsFirst(highs, rest);
      FromStart(rest, FirstEligible(highs, rest));
      assert Eligible(highs, rest[0]) || exists i | 0 <= i < |rest| :: Eligible(highs, rest[i]);
    } else if k > 1 || highs == 0 {
      StoppedIsEligible(rest);
    }
  }

  /** How far to go to the first eligible task behind the current one, all the way round if there is no other. */
  ghost predicate FirstBehind(highs: nat, rest: seq<Task>, j: nat) {
    && j < |rest|
    && forall i | 1 <= i < (if j == 0 then |rest| else j) :: !Eligible(highs, rest[i])
  }

  /**
   * Which task continues after a death. The ring without the dead task turns to the first eligible one: counted from the
   * dead task's successor if it was the current one, from the current task's successor if not; it stays where it is when
   * the successor dies among HIGH tasks.
   */
  lemma NextAfterDeath(ts: seq<Task>, k: nat) returns (j: nat)
    requires k < |ts| && |ts| >= 2
    ensures var rest := Without(ts, k);
            && j < |rest| && Buried(ts, k) == rest[j..] + rest[..j]
            && (k == 0 ==> forall i | 0 <= i < j :: !Eligible(CountHigh(rest), rest[i]))
            && (k == 1 && CountHigh(rest) > 0 ==> j == 0)
            && (k > 1 || (k == 1 && CountHigh(rest) == 0) ==> FirstBehind(CountHigh(rest), rest, j))
  {
    var rest := Without(ts, k);
    var highs, ahead := CountHigh(rest), AfterCurrent(rest);
    if k == 0 {
      j := FirstEligible(highs, rest);
      FirstEligibleIsFirst(highs, rest);
    } else if k == 1 && highs > 0 {
      j := 0;
    } else {
      var f := FirstEligible(highs, ahead);
      FirstEligibleIsFirst(highs, ahead);
      SkipOne(rest, f);
      j := if f + 1 == |rest| then 0 else f + 1;
      forall i | 1 <= i < (if j == 0 then |rest| else j) ensures !Eligible(highs, rest[i]) {
        assert rest[i] == ahead[i - 1];
      }
    }
    FromSlices(rest, j);
  }

  /** A new task is LOW and next behind the current one; the others keep their order. */
  lemma CreatedIsNext(ts: seq<Task>, id: int, pid: int)
    requires ts != []
    ensures |Created(ts, id, pid)| == |ts| + 1 && Created(ts, id, pid)[1] == Task(id, pid, false)
    ensures Without(Created(ts, id, pid), 1) == ts
  {
  }

  /** With distinct ids, setting a priority changes the task with the id and no other. */
  lemma PrioritisedExactly(ts: seq<Task>, id: int, high: bool)
    requires DistinctTasks(ts)
    ensures forall i | 0 <= i < |ts| ::
              Prioritised(ts, id, high)[i] == if ts[i].id == id then ts[i].(high := high) else ts[i]
  {
    if n :| 0 <= n < |ts| && ts[n].id == id {
      PrioritisedAt(ts, id, high, n);
    } else {
      PrioritisedAt(ts, id, high, |ts|);
    }
  }

  // ----- whole runs -----

  datatype Counters = Counters(ts: seq<Task>, hashigh: int, nproc: int, deadChildren: int)

  datatype Event = Create(pid: int) | High(id: int) | Low(id: int) | Stop | Death(k: nat)

  /** The system events: a new process has a new pid; a death is not the last one and not one LosesRing describes. */
  ghost predicate CanHappen(c: Counters, e: Event) {
    match e
    case Create(pid) => forall i | 0 <= i < |c.ts| :: c.ts[i].pid != pid
    case Death(k) => k < |c.ts| && |c.ts| >= 2 && !LosesRing(c.ts, k)
    case _ => true
  }

  ghost function Happen(c: Counters, e: Event): Counters
    requires c.ts != [] && CanHappen(c, e)
  {
    match e
    case Create(pid) => c.(ts := Created(c.ts, c.nproc + 1, pid), nproc := c.nproc + 1)
    case High(id) =>
      var ts := Prioritised(c.ts, id, true);
      c.(ts := ts, hashigh := c.hashigh + CountHigh(ts) - CountHigh(c.ts))
    case Low(id) =>
      var ts := Prioritised(c.ts, id, false);
      c.(ts := ts, hashigh := c.hashigh + CountHigh(ts) - CountHigh(c.ts))
    case Stop => c.(ts := Stopped(c.ts))
    case Death(k) =>
      Counters(Buried(c.ts, k), c.hashigh - (if c.ts[k].high then 1 else 0), c.nproc, c.deadChildren + 1)
  }

  ghost predicate IsRun(cs: seq<Counters>, events: seq<Event>) {
    && |cs| == |events| + 1
    && forall i | 0 <= i < |events| ::
         cs[i].ts != [] && CanHappen(cs[i], events[i]) && cs[i + 1] == Happen(cs[i], events[i])
  }

  /** The shell and one task, both made HIGH: a run to a state in which the scheduler does not survive the task's death. */
  lemma LosesRingExample() returns (cs: seq<Counters>)
    ensures IsRun(cs, [High(0), High(1)]) && cs[0] == Counters(Initial(10, [11]), 0, 1, 0)
    ensures cs[2].ts == [Task(0, 10, true), Task(1, 11, true)] && LosesRing(cs[2].ts, 1)
  {
    var low := [Task(0, 10, false), Task(1, 11, false)];
    var mixed := [Task(0, 10, true), Task(1, 11, false)];
    var high := [Task(0, 10, true), Task(1, 11, true)];
    assert Initial(10, [11]) == low;
    var first := Counters(low, 0, 1, 0);
    assert Prioritised(low, 0, true) == mixed;
    assert Prioritised(mixed[1..], 1, true) == high[1..] && Prioritised(mixed, 1, true) == high;
    var second := Happen(first, High(0));
    cs := [first, second, Happen(second, High(1))];
    assert Without(high, 1) == [Task(0, 10, true)];
  }

  lemma EventKeepsConsistent(c: Counters, e: Event)
    requires Consistent(c.ts, c.hashigh, c.nproc, c.deadChildren) && CanHappen(c, e)
    ensures var d := Happen(c, e); Consistent(d.ts, d.hashigh, d.nproc, d.deadChildren)
  {
    match e
    case Create(pid) => ConsistentCreated(c.ts, c.hashigh, c.nproc, c.deadChildren, pid);
    case High(id) => ConsistentPrioritised(c.ts, c.hashigh, c.nproc, c.deadChildren, id, true);
    case Low(id) => ConsistentPrioritised(c.ts, c.hashigh, c.nproc, c.deadChildren, id, false);
    case Stop => ConsistentStopped(c.ts, c.hashigh, c.nproc, c.deadChildren);
    case Death(k) => ConsistentBuried(c.ts, c.hashigh, c.nproc, c.deadChildren, k);
  }

  /** In every state of every run the counters describe the ring. */
  lemma {:induction false} RunConsistent(cs: seq<Counters>, events: seq<Event>, shell: int, pids: seq<int>, i: nat)
    requires IsRun(cs, events) && i < |cs|
    requires (forall i, j | 0 <= i < j < |pids| :: pids[i] != pids[j]) && shell !in pids
    requires cs[0] == Counters(Initial(shell, pids), 0, |pids|, 0)
    ensures Consistent(cs[i].ts, cs[i].hashigh, cs[i].nproc, cs[i].deadChildren)
  {
    if i == 0 {
      InitialConsistent(shell, pids);
    } else {
      RunConsistent(cs, events, shell, pids, i - 1);
      EventKeepsConsistent(cs[i - 1], events[i - 1]);
    }
  }

  // ----- the linked ring -----

  class Node {
    var id: int
    var pid: int
    var high: bool
    var next: Node?
    var prev: Node?

    constructor (id: int, pid: int, next: Node?, prev: Node?)
      ensures this.id == id && this.pid == pid && !high && this.next == next && this.prev == prev
    {
      this.id, this.pid, this.high, this.next, this.prev := id, pid, false, next, prev;
    }
  }

  function Successor(i: nat, n: nat): nat { if i + 1 == n then 0 else i + 1 }

  function Predecessor(i: nat, n: nat): int { if i == 0 then n - 1 else i - 1 }

  /** The place in the ring of the i-th node of the ring without the k-th. */
  function Original(i: nat, k: nat): nat { if i < k then i else i + 1 }

  /** Without the k-th of n nodes, only its two neighbours get a new neighbour: each other. */
  lemma NeighboursWithout(n: nat, k: nat, i: nat)
    requires k < n && n >= 2 && i < n - 1
    ensures var a, p, s := Original(i, k), Predecessor(k, n), Successor(k, n);
      && Original(Successor(i, n - 1), k) == (if a == p then s else Successor(a, n))
      && Original(Predecessor(i, n - 1), k) == (if a == s then p else Predecessor(a, n))
  {
  }

  ghost predicate Distinct(ring: seq<Node>) {
    forall i, j | 0 <= i < j < |ring| :: ring[i] != ring[j]
  }

  /** The i-th node of `ring` points at its neighbours. */
  ghost predicate LinkedAt(ring: seq<Node>, i: nat)
    requires i < |ring|
    reads ring
  {
    ring[i].next == ring[Successor(i, |ring|)] && ring[i].prev == ring[Predecessor(i, |ring|)]
  }

  /** next and prev are inverse to each other and close a single cycle over `ring`. */
  ghost predicate Linked(ring: seq<Node>)
    reads ring
  {
    forall i | 0 <= i < |ring| :: LinkedAt(ring, i)
  }

  /** The i-th node points at its neighbours, but past the k-th node. */
  ghost predicate PastAt(ring: seq<Node>, k: nat, i: nat)
    requires i < |ring| && k < |ring| && |ring| >= 2
    reads ring
  {
    var p, s := Predecessor(k, |ring|), Successor(k, |ring|);
    && ring[i].next == ring[if i == p then s else Successor(i, |ring|)]
    && ring[i].prev == ring[if i == s then p else Predecessor(i, |ring|)]
  }

  lemma WithoutAt<T>(ring: seq<T>, k: nat, j: nat)
    requires k < |ring| && j < |ring| - 1
    ensures Without(ring, k)[j] == ring[Original(j, k)]
  {
  }

  lemma LinkedWithoutAt(ring: seq<Node>, k: nat, i: nat)
    requires k < |ring| && i < |ring| - 1 && PastAt(ring, k, Original(i, k))
    ensures LinkedAt(Without(ring, k), i)
  {
    var n := |ring|;
    NeighboursWithout(n, k, i);
    WithoutAt(ring, k, i);
    WithoutAt(ring, k, Successor(i, n - 1));
    WithoutAt(ring, k, Predecessor(i, n - 1));
  }

  lemma DistinctWithout(ring: seq<Node>, k: nat)
    requires k < |ring| && Distinct(ring)
    ensures Distinct(Without(ring, k))
  {
    forall i, j | 0 <= i < j < |ring| - 1 ensures Without(ring, k)[i] != Without(ring, k)[j] {
      WithoutAt(ring, k, i);
      WithoutAt(ring, k, j);
    }
  }

  lemma NotInWithout<T>(ring: seq<T>, k: nat)
    requires k < |ring| && forall i, j | 0 <= i < j < |ring| :: ring[i] != ring[j]
    ensures ring[k] !in Without(ring, k)
  {
  }

  lemma LinkedWithout(ring: seq<Node>, k: nat)
    requires k < |ring| && |ring| >= 2 && Distinct(ring)
    requires forall i | 0 <= i < |ring| && i != k :: PastAt(ring, k, i)
    ensures Linked(Without(ring, k)) && Distinct(Without(ring, k))
  {
    forall i | 0 <= i < |ring| - 1 ensures LinkedAt(Without(ring, k), i) {
      LinkedWithoutAt(ring, k, i);
    }
    DistinctWithout(ring, k);
  }

  ghost predicate Holds(n: Node, t: Task)
    reads n
  {
    n.id == t.id && n.pid == t.pid && n.high == t.high
  }

  ghost predicate Matches(ring: seq<Node>, ts: seq<Task>)
    reads ring
  {
    |ring| == |ts| && forall i | 0 <= i < |ring| :: Holds(ring[i], ts[i])
  }

  /** The links of a list that is not closed yet. */
  ghost predicate ChainedAt(ring: seq<Node>, i: nat)
    requires i + 1 < |ring|
    reads ring
  {
    ring[i].next == ring[i + 1] && ring[i + 1].prev == ring[i]
  }

  ghost predicate Chained(ring: seq<Node>)
    reads ring
  {
    forall i | 0 <= i < |ring| - 1 :: ChainedAt(ring, i)
  }

  lemma LinkedFrom(ring: seq<Node>, r: seq<Node>, j: nat)
    requires Linked(ring) && j < |ring| && r == ring[j..] + ring[..j]
    ensures Linked(r)
  {
    var n := |ring|;
    forall i | 0 <= i < n ensures LinkedAt(r, i) {
      var k := if i < n - j then i + j else i + j - n;
      assert LinkedAt(ring, k);
      assert r[i] == ring[k];
      assert r[Successor(i, n)] == ring[Successor(k, n)];
      assert r[Predecessor(i, n)] == ring[Predecessor(k, n)];
    }
  }

  lemma MatchesFrom(ring: seq<Node>, ts: seq<Task>, j: nat)
    requires Matches(ring, ts) && j <= |ring|
    ensures Matches(ring[j..] + ring[..j], ts[j..] + ts[..j])
  {
    var n, r := |ring|, ring[j..] + ring[..j];
    forall i | 0 <= i < n ensures Holds(r[i], (ts[j..] + ts[..j])[i]) {
      var k := if i < n - j then i + j else i + j - n;
      assert Holds(ring[k], ts[k]);
    }
  }

  lemma RingFrom(ring: seq<Node>, ts: seq<Task>, j: nat)
    requires Linked(ring) && Distinct(ring) && Matches(ring, ts) && j <= |ring|
    ensures Linked(From(ring, j)) && Distinct(From(ring, j)) && Matches(From(ring, j), From(ts, j))
  {
    FromSlices(ring, j);
    FromSlices(ts, j);
    MatchesFrom(ring, ts, j);
    if j < |ring| {
      LinkedFrom(ring, From(ring, j), j);
    } else {
      assert From(ring, j) == ring;
    }
  }

  /** Following next from the first node of `order` visits all of it and then reaches `stop`, not before. */
  ghost predicate LeadsTo(order: seq<Node>, stop: Node)
    reads order
  {
    && (forall i {:trigger order[i].next} | 0 <= i < |order| :: order[i].next == if i + 1 < |order| then order[i + 1] else stop)
    && (forall i | 1 <= i < |order| :: order[i] != stop)
  }

  lemma RingLeadsBack(ring: seq<Node>)
    requires Linked(ring) && Distinct(ring) && ring != []
    ensures LeadsTo(ring, ring[0])
  {
    forall i | 0 <= i < |ring| ensures ring[i].next == if i + 1 < |ring| then ring[i + 1] else ring[0] {
      assert LinkedAt(ring, i);
    }
  }

  class State {
    var curr: Node
    var hashigh: int
    var nproc: int
    var deadChildren: int
    ghost var ring: seq<Node>  // the nodes, from the current one on ...
    ghost var tasks: seq<Task> // ... and what they hold

    /** The ring itself and the counters are in order, wherever curr points. */
    ghost predicate Intact()
      reads this, ring
    {
      && Consistent(tasks, hashigh, nproc, deadChildren)
      && Matches(ring, tasks) && Distinct(ring) && Linked(ring)
    }

    ghost predicate Valid()
      reads this, ring
    {
      Intact() && ring[0] == curr
    }

    /** The shell with id 0, then one task for each pid, closed into a ring; the shell runs first. */
    constructor (shell: int, pids: seq<int>)
      requires forall i, j | 0 <= i < j < |pids| :: pids[i] != pids[j]
      requires shell !in pids
      ensures Valid() && fresh(ring) && nproc == |pids| && deadChildren == 0
      ensures tasks == Initial(shell, pids)
    {
      var start := new Node(0, shell, null, null);
      curr, nproc, hashigh, deadChildren, ring := start, |pids|, 0, 0, [start];
      tasks := Initial(shell, pids);
      new;
      InitialConsistent(shell, pids);
      Build(pids);
    }

    /** The list construction of main. */
    method Build(pids: seq<int>)
      requires ring == [curr] && Consistent(tasks, hashigh, nproc, deadChildren) && |tasks| == |pids| + 1
      requires Holds(curr, tasks[0]) && forall i | 1 <= i < |tasks| :: tasks[i] == Task(i, pids[i - 1], false)
      modifies `ring, curr
      ensures Valid() && forall k | 0 <= k < |ring| :: ring[k] == curr || fresh(ring[k])
    {
      ghost var ts := tasks;
      var head := curr;
      for i := 0 to |pids|
        invariant |ring| == i + 1 && ring[0] == curr && head == ring[i] && curr == old(curr)
        invariant forall k | 0 <= k < |ring| :: ring[k] == curr || fresh(ring[k])
        invariant tasks == ts && unchanged(`nproc) && unchanged(`hashigh) && unchanged(`deadChildren)
        invariant Distinct(ring) && Chained(ring) && Matches(ring, ts[..i + 1])
      {
        assert ts[..i + 2] == ts[..i + 1] + [ts[i + 1]];
        head := Append(head, i + 1, pids[i], ts[..i + 1]);
      }
      assert ts[..|pids| + 1] == ts;
      Close(head);
    }

    method Append(head: Node, id: int, pid: int, ghost ts: seq<Task>) returns (tail: Node)
      requires ring != [] && head == ring[|ring| - 1] && Distinct(ring) && Chained(ring) && Matches(ring, ts)
      modifies `ring, head
      ensures fresh(tail) && ring == old(ring) + [tail] && Distinct(ring) && Chained(ring)
      ensures Matches(ring, ts + [Task(id, pid, false)])
    {
      ghost var n := |ring|;
      tail := new Node(id, pid, null, head);
      head.next := tail;
      ring := ring + [tail];
      forall i | 0 <= i < n ensures ChainedAt(ring, i) && Holds(ring[i], ts[i]) {
        assert i + 1 < n ==> old(ChainedAt(ring, i));
        assert old(Holds(ring[i], ts[i]));
      }
    }

    method Close(head: Node)
      requires ring != [] && curr == ring[0] && head == ring[|ring| - 1] && Distinct(ring) && Chained(ring)
      requires Matches(ring, tasks)
      modifies ring
      ensures Linked(ring) && Matches(ring, tasks)
    {
      ghost var n := |ring|;
      head.next := curr;
      curr.prev := head;
      forall i | 0 <= i < n ensures LinkedAt(ring, i) {
        assert i + 1 < n ==> old(ChainedAt(ring, i));
        assert i > 0 ==> old(ChainedAt(ring, i - 1));
      }
      forall i | 0 <= i < n ensures Holds(ring[i], tasks[i]) {
        assert old(Holds(ring[i], tasks[i]));
      }
    }

    /** Links a new node behind the current one. */
    method InsertBehindCurrent(id: int, pid: int) returns (task: Node)
      requires Valid()
      modifies `ring, ring
      ensures fresh(task) && ring == [old(ring)[0], task] + old(ring)[1..] && Linked(ring) && Distinct(ring)
      ensures Matches(ring, Created(tasks, id, pid))
    {
      ghost var was, n := ring, |ring|;
      assert LinkedAt(was, 0);
      task := new Node(id, pid, curr.next, curr);
      curr.next := task;
      task.next.prev := task;
      ring := [was[0], task] + was[1..];
      forall i | 0 <= i <= n ensures LinkedAt(ring, i) {
        if i != 1 {
          assert old(LinkedAt(was, if i == 0 then 0 else i - 1));
        }
      }
      forall i | 0 <= i <= n ensures Holds(ring[i], Created(tasks, id, pid)[i]) {
        if i != 1 {
          var a := if i == 0 then 0 else i - 1;
          assert old(Holds(was[a], tasks[a]));
        }
      }
    }

    /** Inserts a new LOW task behind the current one. */
    method CreateTask(pid: int) returns (ghost task: Node)
      requires Valid() && forall i | 0 <= i < |tasks| :: tasks[i].pid != pid
      modifies `nproc, `tasks, `ring, ring
      ensures Valid() && fresh(task) && ring == [old(ring)[0], task] + old(ring)[1..]
      ensures tasks == Created(old(tasks), nproc, pid) && nproc == old(nproc) + 1
    {
      hide Consistent, Linked, Matches, Distinct, Created;
      assert tasks != [] by { ConsistentNonEmpty(tasks, hashigh, nproc, deadChildren); }
      ConsistentCreated(tasks, hashigh, nproc, deadChildren, pid);
      var node := InsertBehindCurrent(nproc + 1, pid);
      task, nproc, tasks := node, nproc + 1, Created(tasks, nproc + 1, pid);
    }

    /** Walks once around the ring. */
    method FindById(id: int) returns (found: Node?, ghost i: nat)
      requires Valid()
      ensures found == null ==> i == |ring|
      ensures found != null ==> i < |ring| && found == ring[i] && tasks[i].id == id
      ensures forall k | 0 <= k < i :: tasks[k].id != id
    {
      RingLeadsBack(ring);
      var node := curr;
      i := 0;
      while true
        invariant i < |ring| && node == ring[i] && forall k | 0 <= k < i :: tasks[k].id != id
        decreases |ring| - i
      {
        assert Holds(ring[i], tasks[i]);
        if node.id == id {
          return node, i;
        }
        node := node.next;
        i := i + 1;
        if node == curr {
          return null, i;
        }
      }
    }

    method Mark(node: Node, high: bool, ghost i: nat)
      requires Valid() && i < |ring| && node == ring[i] && node.high != high
      modifies `hashigh, `tasks, node
      ensures Valid() && tasks == old(tasks)[i := old(tasks)[i].(high := high)]
    {
      ConsistentUpdated(tasks, hashigh, nproc, deadChildren, i, high);
      ghost var was, marked := tasks, tasks[i := tasks[i].(high := high)];
      hashigh := if high then hashigh + 1 else hashigh - 1;
      node.high := high;
      tasks := marked;
      forall k | 0 <= k < |ring| ensures LinkedAt(ring, k) {
        assert old(LinkedAt(ring, k));
      }
      forall k | 0 <= k < |ring| ensures Holds(ring[k], marked[k]) {
        assert old(Holds(ring[k], was[k]));
        assert k != i ==> ring[k] != ring[i];
      }
    }

    /** sched_high_task and sched_low_task: the task with this id gets the priority, if there is one. */
    method SetPriority(id: int, high: bool)
      requires Valid()
      modifies `hashigh, `tasks, ring
      ensures Valid() && tasks == Prioritised(old(tasks), id, high)
    {
      var node, i := FindById(id);
      PrioritisedAt(tasks, id, high, i);
      if node != null {
        assert Holds(node, tasks[i]);
        if node.high != high {
          Mark(node, high, i);
        } else {
          assert tasks[i := tasks[i].(high := high)] == tasks;
        }
      }
    }

    /** First HIGH node on the way from `first` up to `stop`, which follows the last node of `order`. */
    method FirstHigh(first: Node, stop: Node, ghost order: seq<Node>, ghost ts: seq<Task>)
      returns (found: Node?, ghost j: nat)
      requires order != [] && order[0] == first && LeadsTo(order, stop) && Matches(order, ts)
      ensures found == null ==> forall i | 0 <= i < |ts| :: !ts[i].high
      ensures found != null ==> j < |order| && found == order[j] && ts[j].high
      ensures found != null ==> forall i | 0 <= i < j :: !ts[i].high
    {
      var node := first;
      j := 0;
      while true
        invariant j < |order| && node == order[j] && forall i | 0 <= i < j :: !ts[i].high
        decreases |order| - j
      {
        assert Holds(order[j], ts[j]);
        if node.high {
          return node, j;
        }
        assert order[j].next == if j + 1 < |order| then order[j + 1] else stop;
        node := node.next;
        if node == stop {
          return null, j;
        }
        j := j + 1;
      }
    }

    /** The ring seen from j nodes on is as intact as the ring itself. */
    lemma IntactFrom(j: nat)
      requires Intact() && j < |ring|
      ensures var r, ts := From(ring, j), From(tasks, j);
              && Consistent(ts, hashigh, nproc, deadChildren)
              && Matches(r, ts) && Distinct(r) && Linked(r) && r[0] == ring[j]
    {
      ConsistentFrom(tasks, hashigh, nproc, deadChildren, j);
      RingFrom(ring, tasks, j);
      FromStart(ring, j);
    }

    /** Makes the j-th node of the ring the current one, unless the scheduler has lost its ring. */
    method SwitchTo(node: Node, ghost j: nat, ghost lost: bool)
      requires Intact() && (!lost ==> j < |ring| && node == ring[j])
      modifies `curr, `ring, `tasks
      ensures curr == node
      ensures if lost then ring == old(ring) else Valid() && tasks == From(old(tasks), j)
    {
      if !lost {
        IntactFrom(j);
        ring, tasks := From(ring, j), From(tasks, j);
      }
      curr := node;
    }

    /** The current process was stopped: the next eligible one continues. */
    method Stop()
      requires Valid()
      modifies `curr, `ring, `tasks
      ensures Valid() && tasks == Stopped(old(tasks))
    {
      ghost var order, ahead := From(ring, 1), From(tasks, 1);
      RingFrom(ring, tasks, 1);
      assert order == AfterCurrent(ring) && ahead == AfterCurrent(tasks);
      assert LinkedAt(ring, 0);
      if hashigh == 0 {
        StoppedWithoutHigh(tasks);
        SwitchAhead(curr.next, 0);
      } else {
        RingLeadsBack(order);
        var found, j := FirstHigh(curr.next, curr.next, order, ahead);
        HighFound(ahead, tasks, j, found == null);
        SwitchAhead(found, j);
      }
    }

    /** The same counted from the node behind the current one. */
    method SwitchAhead(node: Node, ghost j: nat)
      requires Valid() && j < |ring| && node == AfterCurrent(ring)[j]
      modifies `curr, `ring, `tasks
      ensures Valid() && tasks == From(AfterCurrent(old(tasks)), j)
    {
      ghost var k := if j + 1 == |ring| then 0 else j + 1;
      SkipOne(tasks, j);
      SwitchTo(node, k, false);
    }

    method FindByPid(p: int, ghost k: nat) returns (node: Node)
      requires Valid() && k < |ring| && tasks[k].pid == p
      ensures node == ring[k]
    {
      node := curr;
      ghost var i := 0;
      assert Holds(ring[0], tasks[0]);
      while node.pid != p
        invariant i <= k && node == ring[i] && Holds(ring[i], tasks[i])
        decreases k - i
      {
        assert LinkedAt(ring, i);
        node := node.next;
        i := i + 1;
        assert Holds(ring[i], tasks[i]);
      }
    }

    /** Takes the k-th node out of the ring; its own links stay as they were. */
    method Unlink(node: Node, ghost k: nat)
      requires Linked(ring) && Distinct(ring) && k < |ring| && |ring| >= 2 && node == ring[k]
      modifies ring
      ensures Linked(Without(ring, k)) && Distinct(Without(ring, k))
      ensures node.next == old(node.next)
      ensures forall i | 0 <= i < |ring| ::
                ring[i].id == old(ring[i].id) && ring[i].pid == old(ring[i].pid) && ring[i].high == old(ring[i].high)
    {
      assert LinkedAt(ring, k);
      node.prev.next := node.next;
      node.next.prev := node.prev;
      forall i | 0 <= i < |ring| && i != k ensures PastAt(ring, k, i) {
        assert old(LinkedAt(ring, i));
      }
      LinkedWithout(ring, k);
    }

    /** Counts the death of the k-th node and takes it out of the ring; curr is not moved yet. */
    method Remove(dead: Node, ghost k: nat)
      requires Valid() && k < |ring| && |ring| >= 2 && dead == ring[k]
      modifies `hashigh, `deadChildren, `ring, `tasks, ring
      ensures Intact() && ring == Without(old(ring), k) && tasks == Without(old(tasks), k)
      ensures deadChildren == old(deadChildren) + 1 && dead.next == old(dead.next) && Holds(dead, old(tasks)[k])
    {
      ghost var was, ts := ring, tasks;
      ConsistentWithout(tasks, hashigh, nproc, deadChildren, k);
      assert Holds(dead, tasks[k]);
      if dead.high {
        hashigh := hashigh - 1;
      }
      Unlink(dead, k);
      deadChildren := deadChildren + 1;
      ring, tasks := Without(was, k), Without(ts, k);
      forall i | 0 <= i < |ring| ensures Holds(ring[i], tasks[i]) {
        assert old(Holds(was[if i < k then i else i + 1], ts[if i < k then i else i + 1]));
      }
    }

    /** What holds around curr once the k-th node, `dead`, is out; `next` was behind curr before. */
    ghost predicate TakenOut(dead: Node, next: Node?, k: nat, ts: seq<Task>)
      reads this, ring, dead, curr
    {
      && Intact() && k < |ts| && |ts| >= 2 && tasks == Without(ts, k) && dead !in ring
      && curr == (if k == 0 then dead else ring[0])
      && curr.next == (if k == 0 then ring[0] else ring[Successor(0, |ring|)])
      && next == (if k == 1 then dead else curr.next)
      && (k == 1 ==> Holds(dead, ts[1]) && dead.next == curr.next)
    }

    method TakeOut(p: int, ghost k: nat) returns (dead: Node, next: Node?)
      requires Valid() && k < |ring| && |ring| >= 2 && tasks[k].pid == p
      modifies `hashigh, `deadChildren, `ring, `tasks, ring
      ensures TakenOut(dead, next, k, old(tasks)) && dead == old(ring)[k] && ring == Without(old(ring), k)
      ensures deadChildren == old(deadChildren) + 1
    {
      hide Valid, Intact, Holds;
      dead, next := Locate(p, k);
      Remove(dead, k);
      HeadLinked();
    }

    lemma HeadLinked()
      requires Intact() && ring != []
      ensures LinkedAt(ring, 0)
    {
    }

    /** The dead node, and what was behind curr before it is taken out. */
    method Locate(p: int, ghost k: nat) returns (dead: Node, next: Node?)
      requires Valid() && k < |ring| && |ring| >= 2 && tasks[k].pid == p
      ensures |ring| == |tasks| && dead == ring[k] && dead !in Without(ring, k) && Holds(dead, tasks[k])
      ensures curr == ring[0] && curr.next == next == ring[Successor(0, |ring|)]
      ensures dead.next == ring[Successor(k, |ring|)]
    {
      assert LinkedAt(ring, 0) && LinkedAt(ring, k) && Holds(ring[k], tasks[k]);
      next := curr.next;
      dead := FindByPid(p, k);
      NotInWithout(ring, k);
    }

    /** The search for a HIGH task after a death. */
    method SearchAfterDeath(dead: Node, next: Node?, ghost k: nat, ghost ts: seq<Task>) returns (found: Node?, ghost at: nat)
      requires TakenOut(dead, next, k, ts) && hashigh > 0
      ensures LosesRing(ts, k) ==> found == dead
      ensures !LosesRing(ts, k) ==> at < |ring| && (if found == null then curr else found) == ring[at]
      ensures !LosesRing(ts, k) ==> Buried(ts, k) == From(tasks, at)
    {
      ghost var order, seen := ring, tasks;
      if k == 1 {
        order, seen := [dead], [ts[1]];
      } else if k >= 2 {
        order, seen := From(ring, 1), From(tasks, 1);
        RingFrom(ring, tasks, 1);
        assert order == AfterCurrent(ring) && seen == AfterCurrent(tasks);
      }
      if k != 1 {
        RingLeadsBack(order);
      }
      ghost var j;
      found, j := FirstHigh(next, curr.next, order, seen);
      at := 0;
      if k == 0 {
        CountPositive(tasks);
        HighIsSelected(tasks, j);
        at := j;
      } else if k >= 2 {
        HighFound(seen, tasks, j, found == null);
        SkipOne(tasks, j);
        at := if j + 1 == |ring| then 0 else j + 1;
      }
    }

    /** The node at which the scheduler continues after a death. */
    method AfterDeath(dead: Node, next: Node?, ghost k: nat, ghost ts: seq<Task>) returns (node: Node, ghost at: nat)
      requires TakenOut(dead, next, k, ts)
      ensures LosesRing(ts, k) ==> node == dead
      ensures !LosesRing(ts, k) ==> at < |ring| && node == ring[at] && Buried(ts, k) == From(tasks, at)
    {
      node := curr;
      if hashigh == 0 {
        node := curr.next;
        at := BuriedWithoutHigh(ts, k);
      } else {
        var found;
        found, at := SearchAfterDeath(dead, next, k, ts);
        if found != null {
          node := found;
        }
      }
    }

    /**
     * The process `p`, the k-th of the ring and not the last one alive, has died. The scheduler survives this
     * unless LosesRing; then curr is left on the node that was just removed.
     */
    method Die(p: int, ghost k: nat) returns (exiting: bool)
      requires Valid() && k < |ring| && |ring| >= 2 && tasks[k].pid == p
      modifies this, ring
      ensures deadChildren == old(deadChildren) + 1 && nproc == old(nproc) && !exiting
      ensures if LosesRing(old(tasks), k)
              then curr == old(ring)[k] && ring == Without(old(ring), k) && curr !in ring
              else Valid() && tasks == Buried(old(tasks), k)
    {
      ghost var ts := tasks;
      var dead, next := TakeOut(p, k);
      var node, at := AfterDeath(dead, next, k, ts);
      exiting := deadChildren == nproc + 1;
      SwitchTo(node, at, LosesRing(ts, k));
    }
  }

  /** The run of LosesRingExample, and the death: the scheduler is left on a node that is not in its ring. */
  method LoseRing() returns (s: State)
    ensures s.curr !in s.ring && |s.ring| == 1
  {
    s := new State(10, [11]);
    s.SetPriority(0, true);
    s.SetPriority(1, true);
    ghost var cs := LosesRingExample();
    assert s.tasks == cs[2].ts by { InitialPair(); }
    var exiting := s.Die(11, 1);
  }

  lemma InitialPair()
    ensures Prioritised(Prioritised(Initial(10, [11]), 0, true), 1, true) == [Task(0, 10, true), Task(1, 11, true)]
  {
    var low := [Task(0, 10, false), Task(1, 11, false)];
    assert Initial(10, [11]) == low;
    assert Prioritised(low, 0, true) == [Task(0, 10, true), Task(1, 11, false)];
    assert [Task(0, 10, true), Task(1, 11, false)][1..] == [Task(1, 11, false)];
    assert Prioritised([Task(1, 11, false)], 1, true) == [Task(1, 11, true)] + [];
  }
}

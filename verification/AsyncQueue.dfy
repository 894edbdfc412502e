/** The asynchronous job queue of /dev/crypto; every method is one locked (or lock-free, private) section. */
module AsyncQueue {
  import opened Bytes

  const DEF_COP_RINGSIZE := 16
  const MAX_COP_RINGSIZE := 64
  const ENOMEM := -12

  /** Address of a todo_list_item. */
  type Id = nat

  // ----- what the lists contain -----

  /** The jobs of a list of items, in list order. */
  function Jobs<Job>(list: seq<Id>, kcop: map<Id, Job>): (js: seq<Job>)
    requires forall id | id in list :: id in kcop
    ensures |js| == |list|
  {
    if list == [] then [] else [kcop[list[0]]] + Jobs(list[1..], kcop)
  }

  lemma {:induction false} JobsAppend<Job>(a: seq<Id>, b: seq<Id>, kcop: map<Id, Job>)
    requires forall id | id in a + b :: id in kcop
    ensures forall id | id in a :: id in a + b
    ensures forall id | id in b :: id in a + b
    ensures Jobs(a + b, kcop) == Jobs(a, kcop) + Jobs(b, kcop)
  {
    forall id | id in b ensures id in a + b {
      var i :| 0 <= i < |b| && b[i] == id;
      assert (a + b)[|a| + i] == id;
    }
    if a == [] {
      assert a + b == b;
    } else {
      ConcatTail(a, b);
      assert forall id | id in (a + b)[1..] :: id in a + b;
      JobsAppend(a[1..], b, kcop);
    }
  }

  /** Writing to an item outside the list does not change the list's jobs. */
  lemma {:induction false} JobsUnaffected<Job>(list: seq<Id>, kcop: map<Id, Job>, id: Id, job: Job)
    requires (forall x | x in list :: x in kcop) && id !in list
    ensures Jobs(list, kcop[id := job]) == Jobs(list, kcop)
  {
    if list != [] {
      JobsUnaffected(list[1..], kcop, id, job);
    }
  }

  /** The item carries the result of running its job. */
  predicate Finished<Job>(run: Job -> int, kcop: map<Id, Job>, result: map<Id, int>, id: Id) {
    id in kcop && id in result && result[id] == run(kcop[id])
  }

  /** In how many places an item is. */
  ghost function Places(free: seq<Id>, todo: seq<Id>, tmp: seq<Id>, done: seq<Id>,
                        submitting: set<Id>, fetching: set<Id>, id: Id): nat {
    multiset(free)[id] + multiset(todo)[id] + multiset(tmp)[id] + multiset(done)[id]
    + (if id in submitting then 1 else 0) + (if id in fetching then 1 else 0)
  }

  /** Every item is in exactly one place. */
  ghost predicate Partitioned(free: seq<Id>, todo: seq<Id>, tmp: seq<Id>, done: seq<Id>,
                              submitting: set<Id>, fetching: set<Id>, born: set<Id>) {
    forall id: Id :: Places(free, todo, tmp, done, submitting, fetching, id) == if id in born then 1 else 0
  }

  /** What was queued is what was fetched, then what is pending. */
  ghost predicate InOrder<Job>(pending: seq<Id>, kcop: map<Id, Job>, inserted: seq<Job>, fetched: seq<Job>) {
    (forall id | id in pending :: id in kcop) && inserted == fetched + Jobs(pending, kcop)
  }

  /** Done jobs, those the worker has handled, and those being fetched carry the result of their run. */
  ghost predicate AllFinished<Job>(run: Job -> int, kcop: map<Id, Job>, result: map<Id, int>, list: seq<Id>, fetching: set<Id>) {
    && (forall i | 0 <= i < |list| :: Finished(run, kcop, result, list[i]))
    && (forall id | id in fetching :: Finished(run, kcop, result, id))
  }

  lemma FirstOf(list: seq<Id>)
    requires list != []
    ensures list == [list[0]] + list[1..]
    ensures forall id: Id :: multiset(list)[id] == multiset(list[1..])[id] + (if id == list[0] then 1 else 0)
  {
    assert list == [list[0]] + list[1..];
  }

  lemma MoveFree(free: seq<Id>, todo: seq<Id>, tmp: seq<Id>, done: seq<Id>, submitting: set<Id>, fetching: set<Id>, born: set<Id>)
    requires Partitioned(free, todo, tmp, done, submitting, fetching, born) && free != []
    ensures free[0] !in submitting && free == [free[0]] + free[1..]
    ensures Partitioned(free[1..], todo, tmp, done, submitting + {free[0]}, fetching, born)
  {
    FirstOf(free);
    assert Places(free, todo, tmp, done, submitting, fetching, free[0]) <= 1;
    forall id: Id
      ensures Places(free[1..], todo, tmp, done, submitting + {free[0]}, fetching, id) == if id in born then 1 else 0
    {
      assert Places(free, todo, tmp, done, submitting, fetching, id) == if id in born then 1 else 0;
    }
  }

  lemma MoveDone(free: seq<Id>, todo: seq<Id>, tmp: seq<Id>, done: seq<Id>, submitting: set<Id>, fetching: set<Id>, born: set<Id>)
    requires Partitioned(free, todo, tmp, done, submitting, fetching, born) && done != []
    ensures done[0] !in fetching && done == [done[0]] + done[1..]
    ensures Partitioned(free, todo, tmp, done[1..], submitting, fetching + {done[0]}, born)
  {
    FirstOf(done);
    assert Places(free, todo, tmp, done, submitting, fetching, done[0]) <= 1;
    forall id: Id
      ensures Places(free, todo, tmp, done[1..], submitting, fetching + {done[0]}, id) == if id in born then 1 else 0
    {
      assert Places(free, todo, tmp, done, submitting, fetching, id) == if id in born then 1 else 0;
    }
  }

  lemma PutMoves(free: seq<Id>, todo: seq<Id>, tmp: seq<Id>, done: seq<Id>, submitting: set<Id>, fetching: set<Id>, born: set<Id>,
                 id: Id)
    requires Partitioned(free, todo, tmp, done, submitting, fetching, born) && id in submitting
    ensures Partitioned(free, todo + [id], tmp, done, submitting - {id}, fetching, born)
  {
    forall x: Id ensures Places(free, todo + [id], tmp, done, submitting - {id}, fetching, x) == if x in born then 1 else 0 {
      assert Places(free, todo, tmp, done, submitting, fetching, x) == if x in born then 1 else 0;
    }
  }

  lemma MoveTodo(free: seq<Id>, todo: seq<Id>, done: seq<Id>, submitting: set<Id>, fetching: set<Id>, born: set<Id>)
    requires Partitioned(free, todo, [], done, submitting, fetching, born)
    ensures Partitioned(free, [], todo, done, submitting, fetching, born)
  {
    forall id: Id ensures Places(free, [], todo, done, submitting, fetching, id) == if id in born then 1 else 0 {
      assert Places(free, todo, [], done, submitting, fetching, id) == if id in born then 1 else 0;
    }
  }

  lemma NewFree(free: seq<Id>, born: set<Id>, id: Id)
    requires Partitioned(free, [], [], [], {}, {}, born) && id !in born
    ensures Partitioned([id] + free, [], [], [], {}, {}, born + {id})
  {
    FirstOf([id] + free);
    assert ([id] + free)[1..] == free;
    forall x: Id ensures Places([id] + free, [], [], [], {}, {}, x) == if x in born + {id} then 1 else 0 {
      assert Places(free, [], [], [], {}, {}, x) == if x in born then 1 else 0;
    }
  }

  /** The oldest pending job is the first of the done list. */
  lemma OldestFirst<Job>(done: seq<Id>, rest: seq<Id>, kcop: map<Id, Job>)
    requires done != [] && forall id | id in done + rest :: id in kcop
    ensures forall id | id in done[1..] + rest :: id in done + rest
    ensures done[0] in done && done[0] in done + rest
    ensures Jobs(done + rest, kcop) == [kcop[done[0]]] + Jobs(done[1..] + rest, kcop)
  {
    ConcatTail(done, rest);
    assert (done + rest)[1..] == done[1..] + rest;
    forall id | id in done[1..] + rest ensures id in done + rest {
      var i :| 0 <= i < |done[1..] + rest| && (done[1..] + rest)[i] == id;
      assert (done + rest)[i + 1] == id;
    }
  }

  /** Taking the oldest job keeps the order. */
  lemma TakeKeepsOrder<Job>(done: seq<Id>, tmp: seq<Id>, todo: seq<Id>, kcop: map<Id, Job>,
                            inserted: seq<Job>, fetched: seq<Job>)
    requires done != [] && InOrder(done + tmp + todo, kcop, inserted, fetched)
    ensures done[0] in kcop && InOrder(done[1..] + tmp + todo, kcop, inserted, fetched + [kcop[done[0]]])
    ensures |fetched| < |inserted| && kcop[done[0]] == inserted[|fetched|]
  {
    ConcatAssociative(done, tmp, todo);
    ConcatAssociative(done[1..], tmp, todo);
    OldestFirst(done, tmp + todo, kcop);
    ConcatAssociative(fetched, [kcop[done[0]]], Jobs(done[1..] + (tmp + todo), kcop));
  }

  /** So does queueing a new one. */
  lemma PutKeepsOrder<Job>(pending: seq<Id>, kcop: map<Id, Job>, inserted: seq<Job>, fetched: seq<Job>, id: Id, job: Job)
    requires InOrder(pending, kcop, inserted, fetched) && id !in pending
    ensures InOrder(pending + [id], kcop[id := job], inserted + [job], fetched)
  {
    var next := kcop[id := job];
    JobsUnaffected(pending, kcop, id, job);
    assert forall x | x in pending + [id] :: x in next;
    JobsAppend(pending, [id], next);
    assert Jobs([id], next) == [job];
    ConcatAssociative(fetched, Jobs(pending, next), [job]);
  }

  /** A finished list stays finished when its first item is taken. */
  lemma TakeKeepsFinished<Job>(run: Job -> int, kcop: map<Id, Job>, result: map<Id, int>, done: seq<Id>, more: seq<Id>,
                               fetching: set<Id>)
    requires done != [] && AllFinished(run, kcop, result, done + more, fetching)
    ensures Finished(run, kcop, result, done[0])
    ensures AllFinished(run, kcop, result, done[1..] + more, fetching + {done[0]})
  {
    ConcatTail(done, more);
    assert Finished(run, kcop, result, (done + more)[0]);
    forall i | 0 <= i < |done[1..] + more| ensures Finished(run, kcop, result, (done[1..] + more)[i]) {
      assert (done[1..] + more)[i] == (done + more)[i + 1];
    }
  }

  /** Writing to an unfinished item leaves the finished ones alone. */
  lemma PutKeepsFinished<Job>(run: Job -> int, kcop: map<Id, Job>, result: map<Id, int>, list: seq<Id>, fetching: set<Id>,
                              id: Id, job: Job)
    requires AllFinished(run, kcop, result, list, fetching) && id !in list && id !in fetching
    ensures AllFinished(run, kcop[id := job], result, list, fetching)
  {
    forall i | 0 <= i < |list| ensures Finished(run, kcop[id := job], result, list[i]) {
      assert Finished(run, kcop, result, list[i]);
    }
  }

  lemma NothingTaken(done: seq<Id>, tmp: seq<Id>, todo: seq<Id>, handled: nat)
    requires tmp == [] && handled == 0
    ensures done + tmp[..handled] == done + todo[..0] && done + tmp + todo == done + todo + []
  {
  }

  lemma DuplicateCounts(s: seq<Id>, i: nat, j: nat)
    requires i < j < |s| && s[i] == s[j]
    ensures multiset(s)[s[i]] >= 2
  {
    SplitAt(s, j);
    assert s[..j][i] == s[i] && s[j..][0] == s[i];
  }

  datatype Submission = Got(id: Id) | Allocate | Busy | Invalid

  class CryptPriv<Job(!new)> {
    const run: Job -> int  // crypto_run
    var free: seq<Id>
    var todo: seq<Id>
    var done: seq<Id>
    var itemcount: int
    var kcop: map<Id, Job>
    var result: map<Id, int>
    // private to the threads between their locked sections
    var tmp: seq<Id>               // the worker's list ...
    var handled: nat               // ... and how many of its jobs it has run
    ghost var submitting: set<Id>  // items taken by submitters and not queued yet
    ghost var fetching: set<Id>    // items taken by fetchers and not freed yet
    ghost var growing: nat         // submitters that counted a new item and have not allocated it yet
    ghost var lost: nat            // counted items whose allocation failed
    // history
    ghost var born: set<Id>        // items ever allocated
    ghost var inserted: seq<Job>   // jobs in the order in which they entered the todo list
    ghost var fetched: seq<Job>    // jobs in the order in which they left the done list

    /** Jobs on their way, in the order in which they will be fetched. */
    ghost function Pending(): seq<Id>
      reads this
    {
      done + tmp + todo
    }

    ghost predicate Valid()
      reads this
    {
      && Partitioned(free, todo, tmp, done, submitting, fetching, born)
      && itemcount == |born| + growing + lost <= MAX_COP_RINGSIZE
      && InOrder(Pending(), kcop, inserted, fetched)
      && handled <= |tmp|
      && AllFinished(run, kcop, result, done + tmp[..handled], fetching)
    }

    /** Nothing allocated yet. */
    constructor (run: Job -> int)
      ensures this.run == run && Valid() && itemcount == 0 && free == [] && born == {} && inserted == [] && lost == 0
    {
      this.run := run;
      free, todo, done, tmp, handled, itemcount := [], [], [], [], 0, 0;
      kcop, result := map[], map[];
      submitting, fetching, growing, lost, born, inserted, fetched := {}, {}, 0, 0, {}, [], [];
    }

    /**
     * The allocation loop of cryptodev_open: each new item goes to the front of the free list. `ok(i)` is whether the
     * i-th allocation succeeds; when one fails, the items allocated before are freed again.
     */
    method Open(ok: nat -> bool) returns (r: int)
      requires Valid() && itemcount == 0 && free == [] && born == {} && inserted == [] && growing == lost == 0
      modifies `free, `itemcount, `born
      ensures r == 0 <==> forall i | 0 <= i < DEF_COP_RINGSIZE :: ok(i)
      ensures r == 0 ==> Valid() && itemcount == |free| == DEF_COP_RINGSIZE
      ensures r != 0 ==> r == ENOMEM && free == [] && born == {}
    {
      r := AllocateItems(ok);
      assert |done + tmp[..handled]| == 0 && fetching == {} by { assert AllEmpty(); }
    }

    method AllocateItems(ok: nat -> bool) returns (r: int)
      requires free == [] && itemcount == 0 && born == {}
      modifies `free, `itemcount, `born
      ensures r == 0 <==> forall i | 0 <= i < DEF_COP_RINGSIZE :: ok(i)
      ensures r == 0 ==> itemcount == |free| == |born| == DEF_COP_RINGSIZE && Partitioned(free, [], [], [], {}, {}, born)
      ensures r != 0 ==> r == ENOMEM && free == [] && born == {}
    {
      for i := 0 to DEF_COP_RINGSIZE
        invariant itemcount == i == |free| == |born| && Partitioned(free, [], [], [], {}, {}, born)
        invariant forall id | id in born :: id < i
        invariant forall k | 0 <= k < i :: ok(k)
      {
        if !ok(i) {
          FreeAll();
          return ENOMEM;
        }
        itemcount := itemcount + 1;
        NewFree(free, born, i);
        free := [i] + free;
        born := born + {i};
      }
      r := 0;
    }

    /** Before anything is allocated every list is empty. */
    ghost predicate AllEmpty()
      reads this
    {
      todo == [] && tmp == [] && done == [] && submitting == {} && fetching == {}
    }

    /** The error path of cryptodev_open. */
    method FreeAll()
      modifies `free, `born
      ensures free == [] && born == {}
    {
      while free != []
        decreases |free|
      {
        free := free[1..];
      }
      born := {};
    }

    /** An item is in one place only, so it is in no other. */
    lemma OnePlace(id: Id)
      requires Partitioned(free, todo, tmp, done, submitting, fetching, born)
      ensures Places(free, todo, tmp, done, submitting, fetching, id) <= 1
      ensures Places(free, todo, tmp, done, submitting, fetching, id) == 0 <==> id !in born
    {
    }

    /** The first free item changes hands. */
    method TakeFree() returns (id: Id)
      requires Valid() && free != []
      modifies `free, `submitting
      ensures Valid() && old(free) == [id] + free && submitting == old(submitting) + {id} && id !in old(submitting)
    {
      MoveFree(free, todo, tmp, done, submitting, fetching, born);
      id := free[0];
      free, submitting := free[1..], submitting + {id};
    }

    /** crypto_async_run up to the first unlock. */
    method SubmitTake(noZeroCopy: bool) returns (r: Submission)
      requires Valid()
      modifies `free, `itemcount, `submitting, `growing
      ensures Valid() && lost == old(lost) && born == old(born)
      ensures r == Invalid <==> noZeroCopy
      ensures !noZeroCopy ==> (r == Busy <==> old(free) == [] && old(itemcount) == MAX_COP_RINGSIZE)
      ensures match r
              case Got(id) => old(free) == [id] + free && submitting == old(submitting) + {id} && id !in old(submitting)
                              && growing == old(growing)
              case Allocate => old(free) == [] && growing == old(growing) + 1 && submitting == old(submitting)
              case _ => free == old(free) && growing == old(growing) && submitting == old(submitting)
    {
      if noZeroCopy {
        return Invalid;
      }
      if free != [] {
        var id := TakeFree();
        return Got(id);
      } else if itemcount < MAX_COP_RINGSIZE {
        itemcount := itemcount + 1;
        growing := growing + 1;
        return Allocate;
      }
      return Busy;
    }

    /** The allocation outside the lock: a new item, or one that is counted but never exists. */
    method SubmitAllocate(newId: Id, ok: bool)
      requires Valid() && growing > 0 && newId !in born
      modifies `submitting, `growing, `lost, `born
      ensures Valid() && growing == old(growing) - 1
      ensures ok ==> submitting == old(submitting) + {newId} && lost == old(lost)
      ensures !ok ==> submitting == old(submitting) && lost == old(lost) + 1
    {
      hide InOrder, AllFinished, Jobs;
      OnePlace(newId);
      growing := growing - 1;
      if !ok {
        lost := lost + 1;
        return;
      }
      submitting := submitting + {newId};
      born := born + {newId};
    }

    /** Fills the item and appends it to the todo list. */
    method SubmitPut(id: Id, job: Job)
      requires Valid() && id in submitting
      modifies `todo, `kcop, `submitting, `inserted
      ensures Valid() && inserted == old(inserted) + [job] && todo == old(todo) + [id]
    {
      NotPending(id);
      PutKeepsOrder(Pending(), kcop, inserted, fetched, id, job);
      PutKeepsFinished(run, kcop, result, done + tmp[..handled], fetching, id, job);
      assert Pending() + [id] == done + tmp + (todo + [id]);
      PutMoves(free, todo, tmp, done, submitting, fetching, born, id);
      kcop := kcop[id := job];
      todo := todo + [id];
      submitting := submitting - {id};
      inserted := inserted + [job];
    }

    lemma NotPending(id: Id)
      requires Partitioned(free, todo, tmp, done, submitting, fetching, born) && (id in submitting || id in fetching)
      ensures id !in Pending() && id !in free && (id in submitting ==> id !in fetching)
      ensures forall n: nat | n <= |tmp| :: id !in done + tmp[..n]
    {
      OnePlace(id);
    }

    /** cryptask_routine, first section: takes over the whole todo list. */
    method WorkerTake()
      requires Valid() && tmp == []
      modifies `todo, `tmp, `handled
      ensures Valid() && tmp == old(todo) && todo == [] && handled == 0
    {
      NothingTaken(done, tmp, todo, handled);
      MoveTodo(free, todo, done, submitting, fetching, born);
      tmp, todo, handled := todo, [], 0;
    }

    /** One turn of the lock-free loop. */
    method WorkerHandle()
      requires Valid() && handled < |tmp|
      modifies `result, `handled
      ensures Valid() && handled == old(handled) + 1 && Finished(run, kcop, result, tmp[handled - 1])
    {
      var id := tmp[handled];
      OnePlace(id);
      assert id in Pending();
      result := result[id := run(kcop[id])];
      handled := handled + 1;
      assert done + tmp[..handled] == done + tmp[..handled - 1] + [id];
    }

    /** The last section: appends the handled jobs to the done list at once. */
    method WorkerSplice()
      requires Valid() && handled == |tmp|
      modifies `done, `tmp, `handled
      ensures Valid() && done == old(done) + old(tmp) && tmp == []
    {
      ghost var pending := Pending();
      assert tmp[..handled] == tmp;
      done := done + tmp;
      tmp := [];
      handled := 0;
      assert done + tmp[..handled] == done;
      assert Pending() == pending;
    }

    /** crypto_async_fetch, first section: the oldest completed job, or None for -EBUSY. */
    method FetchTake() returns (r: Option<Id>)
      requires Valid()
      modifies `done, `fetching, `fetched
      ensures Valid() && (r == None <==> old(done) == [])
      ensures r == None ==> fetched == old(fetched)
      ensures r.Some? ==>
                && old(done) == [r.value] + done && fetching == old(fetching) + {r.value} && Finished(run, kcop, result, r.value)
                && fetched == old(fetched) + [kcop[r.value]]
                && |old(fetched)| < |inserted| && kcop[r.value] == inserted[|old(fetched)|]
    {
      if done == [] {
        return None;
      }
      var id := done[0];
      TakeKeepsOrder(done, tmp, todo, kcop, inserted, fetched);
      TakeKeepsFinished(run, kcop, result, done, tmp[..handled], fetching);
      MoveDone(free, todo, tmp, done, submitting, fetching, born);
      done := done[1..];
      fetching := fetching + {id};
      fetched := fetched + [kcop[id]];
      return Some(id);
    }

    /** Copies the job out and gives the item back to the free list. */
    method FetchReturn(id: Id) returns (job: Job, retval: int)
      requires Valid() && id in fetching
      modifies `free, `fetching
      ensures Valid() && free == old(free) + [id]
      ensures id in kcop && job == kcop[id] && retval == run(job)
    {
      OnePlace(id);
      assert Finished(run, kcop, result, id);
      job, retval := kcop[id], result[id];
      free := free + [id];
      fetching := fetching - {id};
    }

    /** Jobs leave in the order in which they were queued; none is lost and none comes out twice. */
    lemma FetchedInOrder()
      requires Valid()
      ensures fetched <= inserted && |inserted| == |fetched| + |done| + |tmp| + |todo|
    {
    }

    /** No item is twice on the lists, nor on a list while a submitter or a fetcher works on it. */
    lemma NoItemTwice()
      requires Valid()
      ensures var all := free + todo + tmp + done;
        && (forall i, j | 0 <= i < j < |all| :: all[i] != all[j])
        && forall i | 0 <= i < |all| :: all[i] !in submitting && all[i] !in fetching
      ensures submitting !! fetching
    {
      var all := free + todo + tmp + done;
      forall i, j | 0 <= i < j < |all| ensures all[i] != all[j] {
        OnePlace(all[i]);
        if all[i] == all[j] {
          DuplicateCounts(all, i, j);
        }
      }
      forall i | 0 <= i < |all| ensures all[i] !in submitting && all[i] !in fetching {
        OnePlace(all[i]);
        assert all[i] in multiset(all);
      }
      forall id | id in submitting ensures id !in fetching { OnePlace(id); }
    }

    /** The counter is exact up to allocations that are under way or have failed; it is exact when there are none. */
    lemma CountIsExact()
      requires Valid()
      ensures itemcount == |free| + |todo| + |tmp| + |done| + |submitting| + |fetching| + growing + lost
      ensures itemcount <= MAX_COP_RINGSIZE
    {
      var all := multiset(free) + multiset(todo) + multiset(tmp) + multiset(done) + multiset(submitting) + multiset(fetching);
      forall id: Id ensures all[id] == multiset(born)[id] {
        assert all[id] == Places(free, todo, tmp, done, submitting, fetching, id);
      }
      assert all == multiset(born);
      assert |all| == |free| + |todo| + |tmp| + |done| + |submitting| + |fetching|;
    }
  }
}

/**
 The scheduler of kernel/tasks/sched.c and the mutexes of kernel/tasks/mutex.c.

 Every method runs with interrupts disabled in the kernel, so it is one step of
 the machine.  A thread that is being moved from one place to another is "in
 hand".  `owner` records who took each locked mutex.  Memory for a new queue is
 assumed to be available.
 */
module Scheduler {
  import opened Basics
  import opened SchedQueues
  import opened WaitList

  type Mid = nat

  const BOOT_THREAD_PRIORITY: int := 20

  datatype Thread = Thread(priority: int, shutdown: bool, waiting: Option<Mid>)

  // ------------------------------------------------------------ the queued threads

  ghost function Queued(queues: seq<Queue>): multiset<Tid>
  {
    if queues == [] then multiset{} else Queued(queues[..|queues| - 1]) + multiset(queues[|queues| - 1].threads)
  }

  lemma {:induction false} QueuedSame(a: seq<Queue>, b: seq<Queue>)
    requires |a| == |b| && forall k :: 0 <= k < |a| ==> a[k].threads == b[k].threads
    ensures Queued(a) == Queued(b)
  {
    if a != [] {
      QueuedSame(a[..|a| - 1], b[..|b| - 1]);
    }
  }

  lemma {:induction false} QueuedUpdate(queues: seq<Queue>, i: nat, q: Queue)
    requires i < |queues|
    ensures Queued(queues[i := q]) + multiset(queues[i].threads) == Queued(queues) + multiset(q.threads)
  {
    var n := |queues| - 1;
    var r := queues[i := q];
    if i < n {
      assert r[..n] == queues[..n][i := q];
      QueuedUpdate(queues[..n], i, q);
      Regroup(Queued(r[..n]), multiset(queues[n].threads), multiset(queues[i].threads),
              Queued(queues[..n]), multiset(q.threads));
    } else {
      assert r[..n] == queues[..n];
    }
  }

  lemma Regroup(a: multiset<Tid>, last: multiset<Tid>, x: multiset<Tid>, b: multiset<Tid>, y: multiset<Tid>)
    requires a + x == b + y
    ensures (a + last) + x == (b + last) + y
  {
    assert (a + last) + x == (a + x) + last;
    assert (b + last) + y == (b + y) + last;
  }

  lemma {:induction false} QueuedJoin(a: seq<Queue>, b: seq<Queue>)
    ensures Queued(a + b) == Queued(a) + Queued(b)
  {
    hide Queued;
    if b == [] {
      QueuedNone();
      assert a + b == a;
    } else {
      var n := |b| - 1;
      QueuedJoin(a, b[..n]);
      assert (a + b)[..|a| + n] == a + b[..n] && (a + b)[|a| + n] == b[n];
      QueuedLast(a + b);
      QueuedLast(b);
    }
  }

  lemma QueuedNone()
    ensures Queued([]) == multiset{}
  {}

  lemma QueuedLast(queues: seq<Queue>)
    requires queues != []
    ensures Queued(queues) == Queued(queues[..|queues| - 1]) + multiset(queues[|queues| - 1].threads)
  {}

  lemma QueuedInsert(queues: seq<Queue>, i: nat, q: Queue)
    requires i <= |queues| && q.threads == []
    ensures Queued(queues[..i] + [q] + queues[i..]) == Queued(queues)
  {
    hide Queued;
    QueuedOne(q);
    QueuedJoin(queues[..i], [q]);
    QueuedJoin(queues[..i] + [q], queues[i..]);
    QueuedJoin(queues[..i], queues[i..]);
    assert queues[..i] + queues[i..] == queues;
  }

  lemma QueuedOne(q: Queue)
    ensures Queued([q]) == multiset(q.threads)
  {
    assert [q][..0] == [];
  }

  ghost predicate Sorted(queues: seq<Queue>)
  {
    forall i, j :: 0 <= i < j < |queues| ==> queues[i].priority < queues[j].priority
  }

  /** Queued threads are live, wait for nothing, and are in the queue of their priority. */
  ghost predicate QueuesOk(queues: seq<Queue>, current: int, threads: map<Tid, Thread>)
  {
    Sorted(queues) && Budgeted(queues, current) && MembersOk(queues, threads)
  }

  ghost predicate MembersOk(queues: seq<Queue>, threads: map<Tid, Thread>)
  {
    forall i, t :: 0 <= i < |queues| && t in queues[i].threads ==>
      t in threads && threads[t].waiting.None? && threads[t].priority == queues[i].priority
  }

  ghost function Inserted(queues: seq<Queue>, at: nat, q: Queue): (r: seq<Queue>)
    requires at <= |queues|
  {
    queues[..at] + [q] + queues[at..]
  }

  lemma InsertedIndex(queues: seq<Queue>, at: nat, q: Queue, r: seq<Queue>)
    requires at <= |queues| && r == Inserted(queues, at, q)
    ensures |r| == |queues| + 1
    ensures forall k :: 0 <= k < |r| ==> r[k] == if k < at then queues[k] else if k == at then q else queues[k - 1]
  {}

  /** Waiting threads are live and wait for an existing mutex; the running thread waits for nothing. */
  ghost predicate WaitersOk(waiters: seq<Tid>, running: Option<Tid>, threads: map<Tid, Thread>, locked: map<Mid, bool>)
  {
    && (forall t :: t in waiters ==> t in threads && threads[t].waiting.Some? && threads[t].waiting.value in locked)
    && (running.Some? ==> running.value in threads && threads[running.value].waiting.None?)
  }

  /** A mutex is locked exactly when it has an owner; being a map, `owner` gives it at most one. */
  ghost predicate ExclusiveOk(locked: map<Mid, bool>, owner: map<Mid, Tid>)
  {
    && owner.Keys <= locked.Keys
    && forall m :: m in locked ==> (locked[m] <==> m in owner)
  }

  ghost function One(t: Option<Tid>): multiset<Tid>
  {
    if t.Some? then multiset{t.value} else multiset{}
  }

  /** Every live thread is in exactly one place: queued, waiting, running or in hand. */
  ghost predicate Partition(queues: seq<Queue>, waiters: seq<Tid>, running: Option<Tid>, hand: multiset<Tid>, threads: map<Tid, Thread>)
  {
    Queued(queues) + multiset(waiters) + One(running) + hand == multiset(threads.Keys)
  }

  /** Threads in hand are live and wait for nothing. */
  ghost predicate HandOk(hand: multiset<Tid>, threads: map<Tid, Thread>)
  {
    forall t :: t in hand ==> t in threads && threads[t].waiting.None?
  }

  // ------------------------------------------------------------ effects on the invariant

  lemma FirstUnique(queues: seq<Queue>, current: int, from: nat, j: nat)
    requires from <= j <= |queues|
    requires j < |queues| ==> Eligible(queues, current, j)
    requires forall k :: from <= k < j ==> !Eligible(queues, current, k)
    ensures j == FirstEligible(queues, current, from)
  {}

  /** In sorted queues there is one place for a priority. */
  lemma PlaceUnique(queues: seq<Queue>, current: int, threads: map<Tid, Thread>, p: int, at: nat)
    requires QueuesOk(queues, current, threads) && at <= |queues|
    requires at < |queues| ==> queues[at].priority >= p
    requires at > 0 ==> queues[at - 1].priority < p || (at < |queues| && queues[at].priority == p)
    ensures at == PlaceOf(queues, p)
  {
    var i := PlaceOf(queues, p);
    assert Sorted(queues);
  }

  lemma InsertedIs(queues: seq<Queue>, at: nat, q: Queue)
    requires at <= |queues|
    ensures Inserted(queues, at, q) == queues[..at] + [q] + queues[at..]
  {}

  /** An empty queue inserted at its place. */
  lemma InsertKeepsOk(queues: seq<Queue>, current: int, threads: map<Tid, Thread>, at: nat, p: int)
    requires QueuesOk(queues, current, threads) && at <= |queues|
    requires at > 0 ==> queues[at - 1].priority < p
    requires at < |queues| ==> p < queues[at].priority
    ensures QueuesOk(Inserted(queues, at, Queue(p, 0, [])), if at <= current then current + 1 else current, threads)
  {
    InsertedIndex(queues, at, Queue(p, 0, []), Inserted(queues, at, Queue(p, 0, [])));
    InsertKeepsSorted(queues, at, Queue(p, 0, []));
    InsertKeepsMembers(queues, threads, at, Queue(p, 0, []));
  }

  lemma InsertKeepsSorted(queues: seq<Queue>, at: nat, q: Queue)
    requires Sorted(queues) && at <= |queues|
    requires at > 0 ==> queues[at - 1].priority < q.priority
    requires at < |queues| ==> q.priority < queues[at].priority
    ensures Sorted(Inserted(queues, at, q))
  {
    var r := Inserted(queues, at, q);
    InsertedIndex(queues, at, q, r);
    forall i, j | 0 <= i < j < |r|
      ensures r[i].priority < r[j].priority
    {
      if i == at {
        assert at < |queues|;
      } else if j == at {
        assert at > 0;
      }
    }
  }

  lemma InsertKeepsMembers(queues: seq<Queue>, threads: map<Tid, Thread>, at: nat, q: Queue)
    requires MembersOk(queues, threads) && at <= |queues| && q.threads == []
    ensures MembersOk(Inserted(queues, at, q), threads)
  {
    InsertedIndex(queues, at, q, Inserted(queues, at, q));
  }

  /** Only opportunities change. */
  lemma SpendKeepsOk(queues: seq<Queue>, threads: map<Tid, Thread>, current: int, queues': seq<Queue>, current': int)
    requires QueuesOk(queues, current, threads) && Budgeted(queues', current')
    requires |queues'| == |queues|
    requires forall k :: 0 <= k < |queues| ==> queues'[k].priority == queues[k].priority && queues'[k].threads == queues[k].threads
    ensures QueuesOk(queues', current', threads)
  {}

  /** The threads of queue i change, to threads that belong there. */
  lemma RefillKeepsOk(queues: seq<Queue>, current: int, threads: map<Tid, Thread>, i: nat, ts: seq<Tid>)
    requires QueuesOk(queues, current, threads) && i < |queues|
    requires forall t :: t in ts ==> t in threads && threads[t].waiting.None? && threads[t].priority == queues[i].priority
    ensures QueuesOk(queues[i := queues[i].(threads := ts)], current, threads)
  {}

  /** A thread in hand goes to the front of queue i. */
  lemma PushKeepsOk(queues: seq<Queue>, current: int, threads: map<Tid, Thread>, i: nat, t: Tid)
    requires QueuesOk(queues, current, threads) && i < |queues|
    requires t in threads && threads[t].waiting.None? && threads[t].priority == queues[i].priority
    ensures QueuesOk(queues[i := queues[i].(threads := [t] + queues[i].threads)], current, threads)
    ensures Queued(queues[i := queues[i].(threads := [t] + queues[i].threads)]) == Queued(queues) + multiset{t}
  {
    hide Queued;
    var ts := [t] + queues[i].threads;
    RefillKeepsOk(queues, current, threads, i, ts);
    QueuedUpdate(queues, i, queues[i].(threads := ts));
    assert multiset(ts) == multiset{t} + multiset(queues[i].threads);
    Exchange(Queued(queues[i := queues[i].(threads := ts)]), Queued(queues), multiset{t}, multiset(queues[i].threads));
  }

  /** The oldest thread of queue i is taken. */
  lemma PopKeepsOk(queues: seq<Queue>, current: int, threads: map<Tid, Thread>, i: nat)
    requires QueuesOk(queues, current, threads) && i < |queues| && queues[i].threads != []
    ensures var ts := queues[i].threads;
            var r := queues[i := queues[i].(threads := ts[..|ts| - 1])];
            QueuesOk(r, current, threads) && Queued(queues) == Queued(r) + multiset{ts[|ts| - 1]}
  {
    hide Queued;
    var ts := queues[i].threads;
    var rest, last := ts[..|ts| - 1], ts[|ts| - 1];
    RefillKeepsOk(queues, current, threads, i, rest);
    QueuedUpdate(queues, i, queues[i].(threads := rest));
    assert ts == rest + [last];
    assert multiset(ts) == multiset{last} + multiset(rest);
    Exchange(Queued(queues), Queued(queues[i := queues[i].(threads := rest)]), multiset{last}, multiset(rest));
  }

  lemma Exchange(a: multiset<Tid>, b: multiset<Tid>, x: multiset<Tid>, c: multiset<Tid>)
    requires a + c == b + (x + c)
    ensures a == b + x
  {
    assert b + (x + c) == (b + x) + c;
    Cancel(a, b + x, c);
  }

  lemma Cancel(a: multiset<Tid>, b: multiset<Tid>, c: multiset<Tid>)
    requires a + c == b + c
    ensures a == b
  {
    forall t
      ensures a[t] == b[t]
    {
      assert (a + c)[t] == (b + c)[t];
    }
  }

  lemma RemovedWaiter(waiters: seq<Tid>, i: nat)
    requires i < |waiters|
    ensures multiset(waiters) == multiset(waiters[..i] + waiters[i + 1..]) + multiset{waiters[i]}
  {
    assert waiters == waiters[..i] + [waiters[i]] + waiters[i + 1..];
  }

  /** In a partition nobody is in two places. */
  lemma OnePlace(queues: seq<Queue>, waiters: seq<Tid>, running: Option<Tid>, hand: multiset<Tid>, threads: map<Tid, Thread>, t: Tid)
    requires Partition(queues, waiters, running, hand, threads)
    ensures Queued(queues)[t] + multiset(waiters)[t] + One(running)[t] + hand[t] == if t in threads then 1 else 0
  {
    assert (Queued(queues) + multiset(waiters) + One(running) + hand)[t] == multiset(threads.Keys)[t];
  }

  /** A waiter that got its mutex leaves the list and waits for nothing any more. */
  lemma TakeWaiter(queues: seq<Queue>, current: int, waiters: seq<Tid>, running: Option<Tid>, hand: multiset<Tid>,
                   threads: map<Tid, Thread>, locked: map<Mid, bool>, i: nat)
    requires Partition(queues, waiters, running, hand, threads) && QueuesOk(queues, current, threads)
    requires WaitersOk(waiters, running, threads, locked) && HandOk(hand, threads) && i < |waiters|
    ensures waiters[i] in threads
    ensures var t := waiters[i];
            var waiters' := waiters[..i] + waiters[i + 1..];
            var threads' := threads[t := threads[t].(waiting := None)];
            && Partition(queues, waiters', running, hand + multiset{t}, threads')
            && QueuesOk(queues, current, threads') && WaitersOk(waiters', running, threads', locked)
            && HandOk(hand + multiset{t}, threads')
  {
    var t := waiters[i];
    assert t in waiters;
    var waiters' := waiters[..i] + waiters[i + 1..];
    var threads' := threads[t := threads[t].(waiting := None)];
    RemovedWaiter(waiters, i);
    OnePlace(queues, waiters, running, hand, threads, t);
    assert threads'.Keys == threads.Keys;
    assert Queued(queues) + multiset(waiters) + One(running) + hand
        == Queued(queues) + multiset(waiters') + One(running) + (hand + multiset{t});
    assert t !in multiset(waiters');
    forall u | u in waiters'
      ensures u in threads' && threads'[u].waiting.Some? && threads'[u].waiting.value in locked
    {
      assert u in multiset(waiters');
      assert u in waiters;
    }
  }

  /** The last thread in hand is deleted. */
  lemma DeleteFromHand(queues: seq<Queue>, current: int, waiters: seq<Tid>, running: Option<Tid>, t: Tid,
                       threads: map<Tid, Thread>, locked: map<Mid, bool>)
    requires Partition(queues, waiters, running, multiset{t}, threads) && QueuesOk(queues, current, threads)
    requires WaitersOk(waiters, running, threads, locked)
    ensures t in threads && running != Some(t)
    ensures Partition(queues, waiters, running, multiset{}, threads - {t}) && QueuesOk(queues, current, threads - {t})
    ensures WaitersOk(waiters, running, threads - {t}, locked)
  {
    OnePlace(queues, waiters, running, multiset{t}, threads, t);
    assert (threads - {t}).Keys == threads.Keys - {t};
    assert multiset(threads.Keys) == multiset((threads - {t}).Keys) + multiset{t};
    Cancel(Queued(queues) + multiset(waiters) + One(running) + multiset{}, multiset((threads - {t}).Keys), multiset{t});
    forall i, u | 0 <= i < |queues| && u in queues[i].threads
      ensures u in threads - {t}
    {
      InQueued(queues, i, u);
    }
    forall u | u in waiters
      ensures u in threads - {t}
    {
      assert u in multiset(waiters);
    }
  }

  lemma {:induction false} InQueued(queues: seq<Queue>, i: nat, t: Tid)
    requires i < |queues| && t in queues[i].threads
    ensures Queued(queues)[t] > 0
  {
    var n := |queues| - 1;
    if i < n {
      InQueued(queues[..n], i, t);
    } else {
      assert t in multiset(queues[n].threads);
    }
  }

  lemma SamePartition(a: seq<Queue>, b: seq<Queue>, waiters: seq<Tid>, running: Option<Tid>, hand: multiset<Tid>, threads: map<Tid, Thread>)
    requires Queued(a) == Queued(b) && Partition(a, waiters, running, hand, threads)
    ensures Partition(b, waiters, running, hand, threads)
  {}

  lemma InHand(t: Tid, threads: map<Tid, Thread>)
    requires HandOk(multiset{t}, threads)
    ensures t in threads && threads[t].waiting.None?
  {
    assert t in multiset{t};
  }

  /** The running thread has been queued; the thread in hand takes its place. */
  lemma Dispatch(a: seq<Queue>, b: seq<Queue>, waiters: seq<Tid>, was: Tid, next: Tid, threads: map<Tid, Thread>, locked: map<Mid, bool>)
    requires Partition(a, waiters, Some(was), multiset{next}, threads) && Queued(b) == Queued(a) + multiset{was}
    requires WaitersOk(waiters, Some(was), threads, locked) && HandOk(multiset{next}, threads)
    ensures Partition(b, waiters, Some(next), multiset{}, threads) && WaitersOk(waiters, Some(next), threads, locked)
    ensures next in threads && next != was
  {
    InHand(next, threads);
    OnePlace(a, waiters, Some(was), multiset{next}, threads, next);
    assert Queued(b) + multiset(waiters) + One(Some(next)) + multiset{}
        == Queued(a) + multiset(waiters) + One(Some(was)) + multiset{next};
  }

  /** The running thread goes to the front of the wait list; the thread in hand takes its place. */
  lemma Park(queues: seq<Queue>, current: int, waiters: seq<Tid>, was: Tid, next: Tid,
             threads: map<Tid, Thread>, locked: map<Mid, bool>, m: Mid)
    requires Partition(queues, waiters, Some(was), multiset{next}, threads) && QueuesOk(queues, current, threads)
    requires WaitersOk(waiters, Some(was), threads, locked) && HandOk(multiset{next}, threads) && m in locked
    ensures was in threads && next in threads && next != was
    ensures var threads' := threads[was := threads[was].(waiting := Some(m))];
            && Partition(queues, [was] + waiters, Some(next), multiset{}, threads')
            && QueuesOk(queues, current, threads')
            && WaitersOk([was] + waiters, Some(next), threads', locked)
  {
    var threads' := threads[was := threads[was].(waiting := Some(m))];
    InHand(next, threads);
    OnePlace(queues, waiters, Some(was), multiset{next}, threads, next);
    OnePlace(queues, waiters, Some(was), multiset{next}, threads, was);
    assert threads'.Keys == threads.Keys;
    assert multiset([was] + waiters) == multiset{was} + multiset(waiters);
    assert Queued(queues) + multiset([was] + waiters) + One(Some(next)) + multiset{}
        == Queued(queues) + multiset(waiters) + One(Some(was)) + multiset{next};
    forall i, t | 0 <= i < |queues| && t in queues[i].threads
      ensures t in threads' && threads'[t].waiting.None? && threads'[t].priority == queues[i].priority
    {
      InQueued(queues, i, t);
    }
    forall t | t in [was] + waiters
      ensures t in threads' && threads'[t].waiting.Some? && threads'[t].waiting.value in locked
    {
      if t != was {
        assert t in waiters;
      }
    }
  }

  lemma SameKeys(waiters: seq<Tid>, running: Option<Tid>, threads: map<Tid, Thread>, a: map<Mid, bool>, b: map<Mid, bool>)
    requires WaitersOk(waiters, running, threads, a) && a.Keys == b.Keys
    ensures WaitersOk(waiters, running, threads, b)
  {}

  /** A new thread starts in hand. */
  lemma Born(queues: seq<Queue>, current: int, waiters: seq<Tid>, running: Option<Tid>, threads: map<Tid, Thread>,
             locked: map<Mid, bool>, t: Tid, info: Thread)
    requires Partition(queues, waiters, running, multiset{}, threads) && QueuesOk(queues, current, threads)
    requires WaitersOk(waiters, running, threads, locked) && t !in threads && info.waiting.None?
    ensures Partition(queues, waiters, running, multiset{t}, threads[t := info])
    ensures QueuesOk(queues, current, threads[t := info]) && WaitersOk(waiters, running, threads[t := info], locked)
  {
    hide Queued, Sorted, Budgeted;
    BornOk(queues, waiters, running, threads, locked, t, info);
    hide MembersOk, WaitersOk;
    assert threads[t := info].Keys == threads.Keys + {t};
    assert multiset(threads[t := info].Keys) == multiset(threads.Keys) + multiset{t};
    assert Queued(queues) + multiset(waiters) + One(running) + multiset{t}
        == (Queued(queues) + multiset(waiters) + One(running) + multiset{}) + multiset{t};
  }

  lemma BornOk(queues: seq<Queue>, waiters: seq<Tid>, running: Option<Tid>, threads: map<Tid, Thread>,
               locked: map<Mid, bool>, t: Tid, info: Thread)
    requires MembersOk(queues, threads) && WaitersOk(waiters, running, threads, locked) && t !in threads
    ensures MembersOk(queues, threads[t := info]) && WaitersOk(waiters, running, threads[t := info], locked)
  {}

  lemma Settle(a: seq<Queue>, b: seq<Queue>, waiters: seq<Tid>, running: Option<Tid>, t: Tid, threads: map<Tid, Thread>)
    requires Partition(a, waiters, running, multiset{t}, threads) && Queued(b) == Queued(a) + multiset{t}
    ensures Partition(b, waiters, running, multiset{}, threads)
  {
    assert Queued(b) + multiset(waiters) + One(running) + multiset{}
        == Queued(a) + multiset(waiters) + One(running) + multiset{t};
  }

  lemma MarkKeepsOk(queues: seq<Queue>, current: int, waiters: seq<Tid>, running: Option<Tid>, threads: map<Tid, Thread>,
                    locked: map<Mid, bool>, t: Tid)
    requires Partition(queues, waiters, running, multiset{}, threads) && QueuesOk(queues, current, threads)
    requires WaitersOk(waiters, running, threads, locked) && t in threads
    ensures var threads' := threads[t := threads[t].(shutdown := true)];
            && Partition(queues, waiters, running, multiset{}, threads')
            && QueuesOk(queues, current, threads') && WaitersOk(waiters, running, threads', locked)
  {
    hide Queued;
    var threads' := threads[t := threads[t].(shutdown := true)];
    assert threads'.Keys == threads.Keys;
  }

  /** The live threads after a pick: threads that were shutting down may be gone, and `taker` waits for nothing. */
  ghost predicate Reaped(was: map<Tid, Thread>, now: map<Tid, Thread>, taker: Option<Tid>)
  {
    && now.Keys <= was.Keys
    && (forall t :: t in was && t !in now ==> was[t].shutdown)
    && (forall t :: t in now ==> now[t] == if taker == Some(t) then was[t].(waiting := None) else was[t])
  }

  /** The threads once `taker` waits for nothing. */
  ghost function Stopped(threads: map<Tid, Thread>, taker: Option<Tid>): map<Tid, Thread>
  {
    if taker.Some? && taker.value in threads then threads[taker.value := threads[taker.value].(waiting := None)] else threads
  }

  /** If nobody shuts down, nobody is deleted. */
  lemma AllStay(was: map<Tid, Thread>, now: map<Tid, Thread>, taker: Option<Tid>)
    requires Reaped(was, now, taker)
    ensures NobodyEnds(was) ==> now == Stopped(was, taker) && NobodyEnds(now)
  {}

  /** These threads were alive and shutting down. */
  ghost predicate Ended(was: map<Tid, Thread>, dead: set<Tid>)
  {
    forall t :: t in dead ==> t in was && was[t].shutdown
  }

  lemma ReapedBy(was: map<Tid, Thread>, dead: set<Tid>, taker: Option<Tid>)
    requires forall t :: t in dead ==> t in was && was[t].shutdown
    ensures Reaped(was, was - dead, None)
    ensures taker.Some? && taker.value in was - dead ==>
              Reaped(was, (was - dead)[taker.value := was[taker.value].(waiting := None)], taker)
  {}

  /** The owners once `taker` has the mutex it waits for. */
  ghost function Granted(owner: map<Mid, Tid>, threads: map<Tid, Thread>, taker: Option<Tid>): map<Mid, Tid>
  {
    if taker.Some? && taker.value in threads && threads[taker.value].waiting.Some?
    then owner[threads[taker.value].waiting.value := taker.value] else owner
  }

  /** The owners `now` are those of `was`, with `taker` given exactly the mutex it waited for, if any, which was free. */
  ghost predicate TookFor(now: map<Mid, Tid>, was: map<Mid, Tid>, threads: map<Tid, Thread>, taker: Option<Tid>)
  {
    && now == Granted(was, threads, taker)
    && (taker.Some? ==> taker.value in threads)
    && (taker.Some? && threads[taker.value].waiting.Some? ==> threads[taker.value].waiting.value !in was)
  }

  /** Threads that are gone do not matter for the taker. */
  lemma TookDespite(now: map<Mid, Tid>, was: map<Mid, Tid>, threads: map<Tid, Thread>, dead: set<Tid>, taker: Option<Tid>)
    requires TookFor(now, was, threads - dead, taker)
    ensures TookFor(now, was, threads, taker)
  {}

  lemma EmptyHand(threads: map<Tid, Thread>)
    ensures HandOk(multiset{}, threads)
  {}

  /** The waiters with the mutexes they wait for. */
  ghost function WaitView(waiters: seq<Tid>, threads: map<Tid, Thread>): (v: seq<Waiter>)
    ensures |v| == |waiters|
  {
    seq(|waiters|, i requires 0 <= i < |waiters| => Waiter(waiters[i], MutexOf(waiters[i], threads)))
  }

  ghost function MutexOf(t: Tid, threads: map<Tid, Thread>): Mid
  {
    if t in threads && threads[t].waiting.Some? then threads[t].waiting.value else 0
  }

  lemma FirstFreeUnique(waiters: seq<Tid>, threads: map<Tid, Thread>, held: set<Mid>, i: nat)
    requires i <= |waiters| && (i < |waiters| ==> MutexOf(waiters[i], threads) !in held)
    requires forall k :: 0 <= k < i ==> MutexOf(waiters[k], threads) in held
    ensures FirstFree(WaitView(waiters, threads), held) == i
  {
    var v := WaitView(waiters, threads);
    var j := FirstFree(v, held);
    assert j < |v| ==> v[j].mutex == MutexOf(waiters[j], threads);
    assert i < |v| ==> v[i].mutex == MutexOf(waiters[i], threads);
  }

  datatype Choice = Choice(queues: seq<Queue>, current: int, waiters: seq<Tid>, taken: Option<Tid>)

  /** One pick: the first waiter whose mutex is free, or else the oldest thread of the queue picked next, if it has one. */
  ghost function Choose(queues: seq<Queue>, current: int, waiters: seq<Tid>, threads: map<Tid, Thread>, held: set<Mid>): Choice
    requires queues == [] || -1 <= current < |queues|
  {
    var i := FirstFree(WaitView(waiters, threads), held);
    if i < |waiters| then Choice(queues, current, Without(waiters, i), Some(waiters[i]))
    else
      var p := TakeNext(queues, current);
      Choice(p.queues, p.current, waiters, p.taken)
  }

  lemma ChosenInRange(queues: seq<Queue>, current: int, waiters: seq<Tid>, threads: map<Tid, Thread>, held: set<Mid>)
    requires queues == [] || -1 <= current < |queues|
    ensures var c := Choose(queues, current, waiters, threads, held);
            c.queues == [] || -1 <= c.current < |c.queues|
  {}

  /** What pick_next_task comes to: its choice, and the threads that are left. */
  datatype Outcome = Outcome(choice: Choice, threads: map<Tid, Thread>)

  /** t is live and has been asked to shut down. */
  ghost predicate Ending(threads: map<Tid, Thread>, t: Option<Tid>)
  {
    t.Some? && t.value in threads && threads[t.value].shutdown
  }

  /** Picks are repeated, each deleting the thread it finds, until one finds a thread that is not shutting down, or nothing. */
  ghost function PickLive(queues: seq<Queue>, current: int, waiters: seq<Tid>, threads: map<Tid, Thread>, held: set<Mid>): Outcome
    requires queues == [] || -1 <= current < |queues|
    decreases |threads|
  {
    var c := Choose(queues, current, waiters, threads, held);
    if Ending(threads, c.taken) then
      ChosenInRange(queues, current, waiters, threads, held);
      Fewer(threads, c.taken.value);
      PickLive(c.queues, c.current, c.waiters, threads - {c.taken.value}, held)
    else
      Outcome(c, threads)
  }

  lemma Fewer(threads: map<Tid, Thread>, t: Tid)
    requires t in threads
    ensures |threads - {t}| < |threads|
  {
    assert (threads - {t}).Keys == threads.Keys - {t};
    assert |(threads - {t}).Keys| < |threads.Keys|;
  }

  /** The choice never is a thread that is shutting down; only such threads are gone, and without them it is one pick. */
  lemma {:induction false} PickLiveMeans(queues: seq<Queue>, current: int, waiters: seq<Tid>, threads: map<Tid, Thread>, held: set<Mid>)
    requires queues == [] || -1 <= current < |queues|
    ensures var o := PickLive(queues, current, waiters, threads, held);
            && !Ending(o.threads, o.choice.taken)
            && o.threads.Keys <= threads.Keys
            && (forall t :: t in threads ==> if t in o.threads then o.threads[t] == threads[t] else threads[t].shutdown)
            && (NobodyEnds(threads) ==> o == Outcome(Choose(queues, current, waiters, threads, held), threads))
    decreases |threads|
  {
    hide Choose;
    var c := Choose(queues, current, waiters, threads, held);
    if Ending(threads, c.taken) {
      ChosenInRange(queues, current, waiters, threads, held);
      Fewer(threads, c.taken.value);
      PickLiveMeans(c.queues, c.current, c.waiters, threads - {c.taken.value}, held);
    }
  }

  /** Of the waiters that could have their mutex, those that shut down are deleted, and the first other one is taken. */
  lemma {:induction false} FirstLiveWaiter(queues: seq<Queue>, current: int, waiters: seq<Tid>, threads: map<Tid, Thread>, held: set<Mid>, i: nat)
    requires queues == [] || -1 <= current < |queues|
    requires i < |waiters| && MayHave(waiters[i], threads, held) && !threads[waiters[i]].shutdown
    requires forall j, k :: 0 <= j < k < |waiters| ==> waiters[j] != waiters[k]
    requires forall k :: 0 <= k < i ==> waiters[k] in threads && (MayHave(waiters[k], threads, held) ==> threads[waiters[k]].shutdown)
    ensures PickLive(queues, current, waiters, threads, held).choice.taken == Some(waiters[i])
    decreases |threads|
  {
    var f := FirstFree(WaitView(waiters, threads), held);
    FirstFreeIs(waiters, threads, held, i);
    if f < i {
      var t, rest := waiters[f], threads - {waiters[f]};
      Fewer(threads, t);
      forall k | 0 <= k < i - 1
        ensures Without(waiters, f)[k] in rest && MayHave(Without(waiters, f)[k], rest, held) == MayHave(Without(waiters, f)[k], threads, held)
      {
        assert Without(waiters, f)[k] == waiters[if k < f then k else k + 1];
      }
      FirstLiveWaiter(queues, current, Without(waiters, f), rest, held, i - 1);
    }
  }

  /** The mutex that t waits for is free. */
  ghost predicate MayHave(t: Tid, threads: map<Tid, Thread>, held: set<Mid>)
  {
    t in threads && MutexOf(t, threads) !in held
  }

  lemma FirstFreeIs(waiters: seq<Tid>, threads: map<Tid, Thread>, held: set<Mid>, i: nat)
    requires i < |waiters| && MayHave(waiters[i], threads, held)
    requires forall k :: 0 <= k < i ==> waiters[k] in threads
    ensures var f := FirstFree(WaitView(waiters, threads), held);
            f <= i && MayHave(waiters[f], threads, held)
  {
    var v := WaitView(waiters, threads);
    assert v[i].mutex == MutexOf(waiters[i], threads);
    var f := FirstFree(v, held);
    assert v[f].mutex == MutexOf(waiters[f], threads);
  }

  /** No live thread has been asked to shut down. */
  ghost predicate NobodyEnds(threads: map<Tid, Thread>)
  {
    forall t :: t in threads ==> !threads[t].shutdown
  }

  // ------------------------------------------------------------ the machine

  class Machine {
    var queues: seq<Queue>
    var current: int
    var running: Option<Tid>
    var waiters: seq<Tid>
    /** The fields of every live thread. */
    var threads: map<Tid, Thread>
    /** The lock flag of every mutex. */
    var locked: map<Mid, bool>
    ghost var owner: map<Mid, Tid>

    ghost predicate Inv(hand: multiset<Tid>)
      reads this
    {
      && Partition(queues, waiters, running, hand, threads)
      && QueuesOk(queues, current, threads)
      && WaitersOk(waiters, running, threads, locked)
      && ExclusiveOk(locked, owner)
      && HandOk(hand, threads)
    }

    /** Between steps nothing is in hand. */
    ghost predicate Valid()
      reads this
    {
      Inv(multiset{})
    }

    /** sched_init_boot_thread, with the mutexes of the system all unlocked. */
    constructor (boot: Tid, mutexes: set<Mid>)
      ensures Valid() && running == Some(boot) && threads == map[boot := Thread(BOOT_THREAD_PRIORITY, false, None)]
      ensures locked.Keys == mutexes && owner == map[] && queues == [] && current == -1 && waiters == []
    {
      queues, current, waiters := [], -1, [];
      running := Some(boot);
      threads := map[boot := Thread(BOOT_THREAD_PRIORITY, false, None)];
      locked := map m | m in mutexes :: false;
      owner := map[];
      new;
      assert threads.Keys == {boot};
    }

    // ---------------------------------------------------------- queues

    /** get_queue with alloc_queue */
    method GetQueue(priority: int) returns (i: nat)
      requires QueuesOk(queues, current, threads)
      modifies this`queues, this`current
      ensures QueuesOk(queues, current, threads) && Queued(queues) == Queued(old(queues))
      ensures i < |queues| && queues[i].priority == priority
      ensures i == PlaceOf(old(queues), priority) && Line(queues, current) == Opened(old(queues), old(current), priority)
    {
      hide QueuesOk, Queued, Inserted;
      var at := 0;
      if |queues| > 0 && queues[0].priority <= priority {
        while true
          invariant 0 <= at < |queues| && queues[at].priority <= priority
          decreases |queues| - at
        {
          if queues[at].priority == priority {
            PlaceUnique(queues, current, threads, priority, at);
            return at;
          }
          if at + 1 == |queues| {
            at := at + 1;
            break;
          }
          if queues[at].priority < priority < queues[at + 1].priority {
            at := at + 1;
            break;
          }
          at := at + 1;
        }
      }
      PlaceUnique(queues, current, threads, priority, at);
      QueuedInsert(queues, at, Queue(priority, 0, []));
      InsertKeepsOk(queues, current, threads, at, priority);
      InsertedIs(queues, at, Queue(priority, 0, []));
      InsertedIndex(queues, at, Queue(priority, 0, []), queues[..at] + [Queue(priority, 0, [])] + queues[at..]);
      queues := queues[..at] + [Queue(priority, 0, [])] + queues[at..];
      if at <= current {
        current := current + 1;
      }
      return at;
    }

    /** sched_queue: the thread in hand goes to the front of the queue of its priority. */
    method Enqueue(t: Tid) returns (ghost i: nat)
      requires QueuesOk(queues, current, threads)
      requires t in threads && threads[t].waiting.None?
      modifies this`queues, this`current
      ensures QueuesOk(queues, current, threads)
      ensures Queued(queues) == Queued(old(queues)) + multiset{t}
      ensures i < |queues| && queues[i].priority == threads[t].priority
      ensures |queues[i].threads| > 0 && queues[i].threads[0] == t
      ensures Line(queues, current) == Enqueued(old(queues), old(current), threads[t].priority, t)
    {
      hide QueuesOk, Queued;
      var k := GetQueue(threads[t].priority);
      PushKeepsOk(queues, current, threads, k, t);
      queues := queues[k := queues[k].(threads := [t] + queues[k].threads)];
      i := k;
    }

    /** pick_next_queue; -1 when there are no queues. */
    method PickNextQueue() returns (r: int)
      requires QueuesOk(queues, current, threads)
      modifies this`queues, this`current
      ensures QueuesOk(queues, current, threads) && Queued(queues) == Queued(old(queues))
      ensures |queues| == |old(queues)| && r >= -1 && (r == -1 <==> |queues| == 0)
      ensures r == -1 ==> queues == old(queues) && current == old(current)
      ensures r >= 0 ==> r == current && NextPick(old(queues), old(current)).queues == queues
                         && NextPick(old(queues), old(current)).picked == r
    {
      hide QueuesOk, Queued;
      ghost var was, start := queues, current;
      OkBudgeted(queues, current, threads);
      var node := FindNode();
      if node == |queues| {
        node := 0;
        if node == |queues| {
          return -1;
        }
        ResetQueues();
      }
      var q := queues[node];
      queues := queues[node := q.(opportunities := q.opportunities - 1)];
      current := node;
      r := node;
      PickKeepsBudget(was, start);
      QueuedSame(was, queues);
      SpendKeepsOk(was, threads, start, queues, current);
    }

    lemma OkBudgeted(queues: seq<Queue>, current: int, threads: map<Tid, Thread>)
      requires QueuesOk(queues, current, threads)
      ensures Budgeted(queues, current)
    {}

    /** The two scans of pick_next_queue; a null node is the index |queues|. */
    method FindNode() returns (node: nat)
      requires -1 <= current < |queues| || queues == []
      ensures node == (var after := if current >= 0 && |queues| > 0 then FirstEligible(queues, current, current) else |queues|;
                       if after < |queues| then after else FirstEligible(queues, current, 0))
    {
      ghost var after := if current >= 0 && |queues| > 0 then FirstEligible(queues, current, current) else |queues|;
      ghost var found := if after < |queues| then after else FirstEligible(queues, current, 0);
      node := |queues|;
      if current >= 0 && |queues| > 0 {
        node := current;
      }
      for i := 0 to 2
        invariant node <= |queues|
        invariant i == 0 ==> node == if current >= 0 && |queues| > 0 then current else |queues|
        invariant i == 1 ==> node == if after < |queues| then after else 0
        invariant i == 2 ==> node == found
      {
        ghost var from := node;
        while node < |queues|
          invariant from <= node <= |queues|
          invariant forall k :: from <= k < node ==> !Eligible(queues, current, k)
        {
          if current >= 0 && current == node {
            node := node + 1;
            continue;
          }
          if queues[node].opportunities != 0 && queues[node].threads != [] {
            break;
          }
          node := node + 1;
        }
        FirstUnique(queues, current, from, node);
        if node == |queues| && i == 0 {
          node := 0;
        }
      }
    }

    /** reset_queues */
    method ResetQueues()
      modifies this`queues
      ensures queues == Reset(old(queues))
    {
      ghost var was := queues;
      var opportunities := 1;
      for i := 0 to |queues|
        invariant |queues| == |was| && opportunities == i + 1
        invariant forall k :: 0 <= k < |was| ==> queues[k] == if k < i then was[k].(opportunities := k + 1) else was[k]
      {
        queues := queues[i := queues[i].(opportunities := opportunities)];
        opportunities := opportunities + 1;
      }
    }

    // ---------------------------------------------------------- mutexes

    /** __mutex_try_lock on behalf of thread t */
    method TryLock(m: Mid, t: Tid) returns (ok: bool)
      requires m in locked && ExclusiveOk(locked, owner)
      modifies this`locked, this`owner
      ensures ExclusiveOk(locked, owner) && locked.Keys == old(locked.Keys)
      ensures ok <==> m !in old(owner)
      ensures owner == if ok then old(owner)[m := t] else old(owner)
      ensures !ok ==> locked == old(locked)
    {
      if locked[m] {
        return false;
      }
      locked := locked[m := true];
      owner := owner[m := t];
      return true;
    }

    /** mutex_unlock */
    method Unlock(m: Mid)
      requires m in locked && ExclusiveOk(locked, owner)
      modifies this`locked, this`owner
      ensures ExclusiveOk(locked, owner) && locked.Keys == old(locked.Keys)
      ensures owner == old(owner) - {m}
    {
      locked := locked[m := false];
      owner := owner - {m};
    }
  
    /** Every mutex somebody waits for is taken. */
    ghost predicate AllBlocked(upto: nat)
      reads this`waiters, this`threads, this`owner
    {
      forall k :: 0 <= k < upto && k < |waiters| ==>
        waiters[k] in threads && threads[waiters[k]].waiting.Some? && threads[waiters[k]].waiting.value in owner
    }

    /**
     pick_next_task_from_mutex_waitlist: the first waiter whose mutex is free gets
     it and leaves the list; a thread about to shut down gives it up at once.
     */
    method PickFromWaitlist() returns (r: Option<Tid>)
      requires Inv(multiset{})
      modifies this`waiters, this`threads, this`locked, this`owner
      ensures r.None? <==> old(AllBlocked(|waiters|))
      ensures locked.Keys == old(locked).Keys
      ensures r.None? ==> Inv(multiset{}) && AllBlocked(|waiters|)
      ensures r.None? ==> waiters == old(waiters) && threads == old(threads) && owner == old(owner)
      ensures r.Some? ==> Inv(multiset{r.value}) && r.value in old(waiters)
                          && r.value in old(threads) && old(threads)[r.value].waiting.Some?
                          && threads == old(threads)[r.value := old(threads)[r.value].(waiting := None)]
      ensures r.Some? ==> var m := old(threads)[r.value].waiting.value;
                          m !in old(owner)
                          && owner == if threads[r.value].shutdown then old(owner) else old(owner)[m := r.value]
      // searched from the front
      ensures var i := FirstFree(old(WaitView(waiters, threads)), old(owner).Keys);
              i <= |old(waiters)| && r == (if i == |old(waiters)| then None else Some(old(waiters)[i]))
              && waiters == if i == |old(waiters)| then old(waiters) else Without(old(waiters), i)
    {
      hide Partition, QueuesOk, HandOk, WaitersOk, ExclusiveOk;
      for i := 0 to |waiters|
        invariant Inv(multiset{}) && AllBlocked(i) && locked.Keys == old(locked).Keys
        invariant waiters == old(waiters) && threads == old(threads) && owner == old(owner)
      {
        WaiterFacts(i);
        var t := waiters[i];
        var ok := Grant(i);
        if ok {
          FirstFreeUnique(old(waiters), old(threads), old(owner).Keys, i);
          return Some(t);
        }
      }
      FirstFreeUnique(old(waiters), old(threads), old(owner).Keys, |waiters|);
      return None;
    }

    lemma WaiterFacts(i: nat)
      requires Inv(multiset{}) && i < |waiters|
      ensures waiters[i] in threads && threads[waiters[i]].waiting.Some? && threads[waiters[i]].waiting.value in locked
    {
      assert waiters[i] in waiters;
    }

    /** The body of the loop over the wait list. */
    method Grant(i: nat) returns (ok: bool)
      requires Inv(multiset{}) && i < |waiters|
      requires waiters[i] in threads && threads[waiters[i]].waiting.Some? && threads[waiters[i]].waiting.value in locked
      modifies this`waiters, this`threads, this`locked, this`owner
      ensures ok <==> old(threads[waiters[i]].waiting.value !in owner)
      ensures locked.Keys == old(locked).Keys
      ensures !ok ==> Inv(multiset{}) && waiters == old(waiters) && threads == old(threads) && owner == old(owner)
      ensures var t := old(waiters[i]);
              ok ==> Inv(multiset{t})
                     && threads == old(threads)[t := old(threads[t]).(waiting := None)]
                     && owner == (if old(threads[t].shutdown) then old(owner) else old(owner)[old(threads[t].waiting.value) := t])
                     && waiters == Without(old(waiters), i)
    {
      hide Partition, QueuesOk, HandOk, ExclusiveOk;
      var t := waiters[i];
      var m := threads[t].waiting.value;
      TakeWaiter(queues, current, waiters, running, multiset{}, threads, locked, i);
      assert multiset{} + multiset{t} == multiset{t};
      ok := TryLock(m, t);
      if ok {
        waiters := waiters[..i] + waiters[i + 1..];
        if threads[t].shutdown {
          Unlock(m);
          assert owner == old(owner);
        }
        threads := threads[t := threads[t].(waiting := None)];
      }
    }

    /** list_remove_back on the queue that was picked, with its result in hand. */
    method PopQueue(k: nat) returns (r: Option<Tid>)
      requires Inv(multiset{}) && k < |queues|
      modifies this`queues
      ensures r.None? ==> Inv(multiset{}) && queues == old(queues) && queues[k].threads == []
      ensures r.Some? ==> Inv(multiset{r.value}) && |old(queues)[k].threads| > 0
                          && r.value == old(queues)[k].threads[|old(queues)[k].threads| - 1]
                          && queues == old(queues)[k := old(queues)[k].(threads := old(queues)[k].threads[..|old(queues)[k].threads| - 1])]
    {
      hide Queued, ExclusiveOk, WaitersOk;
      var ts := queues[k].threads;
      if ts == [] {
        return None;
      }
      var t := ts[|ts| - 1];
      PopKeepsOk(queues, current, threads, k);
      ghost var was := queues;
      assert t in queues[k].threads;
      queues := queues[k := queues[k].(threads := ts[..|ts| - 1])];
      assert Queued(was) + multiset(waiters) + One(running) + multiset{}
          == Queued(queues) + multiset(waiters) + One(running) + multiset{t};
      return Some(t);
    }

    /** The queue that would be picked next has no thread: the next pick comes up empty. */
    ghost predicate EmptyPickNext()
      requires -1 <= current < |queues| || queues == []
      reads this`queues, this`current
    {
      queues == [] || (var p := NextPick(queues, current); p.queues[p.picked].threads == [])
    }

    /** Nobody loses a mutex, and `taker` gains exactly the one it was waiting for, if any, which was free. */
    twostate predicate Takes(taker: Option<Tid>)
      reads this`owner
    {
      TookFor(owner, old(owner), old(threads), taker)
    }

    /** One round of pick_next_task: a waiter that can have its mutex, or else the oldest thread of the next queue. */
    method PickOnce() returns (r: Option<Tid>)
      requires Valid()
      modifies this`queues, this`current, this`waiters, this`threads, this`locked, this`owner
      ensures r.None? <==> old(AllBlocked(|waiters|) && EmptyPickNext())
      ensures locked.Keys == old(locked).Keys
      ensures r.None? ==> Valid() && AllBlocked(|waiters|) && (queues == [] || (0 <= current < |queues| && queues[current].threads == []))
      ensures r.None? ==> threads == old(threads) && owner == old(owner)
      ensures r.Some? ==> Inv(multiset{r.value}) && r.value in old(threads)
                          && threads == old(threads)[r.value := old(threads)[r.value].(waiting := None)]
      ensures r.Some? ==> if threads[r.value].shutdown then owner == old(owner) else Takes(r)
      ensures old(queues) == [] || -1 <= old(current) < |old(queues)|
      ensures Choice(queues, current, waiters, r) == Choose(old(queues), old(current), old(waiters), old(threads), old(owner).Keys)
    {
      hide Inv, EmptyPickNext, AllBlocked, TakeNext, FirstFree, WaitView, Without;
      CurrentInRange();
      ViewLength(waiters, threads, owner.Keys);
      r := PickFromWaitlist();
      if r.None? {
        r := PickFromQueues();
      }
    }

    lemma ViewLength(waiters: seq<Tid>, threads: map<Tid, Thread>, held: set<Mid>)
      ensures FirstFree(WaitView(waiters, threads), held) <= |waiters|
    {}

    lemma CurrentInRange()
      requires Valid()
      ensures queues == [] || -1 <= current < |queues|
    {}

    /** The queue half of pick_next_task. */
    method PickFromQueues() returns (r: Option<Tid>)
      requires Valid()
      modifies this`queues, this`current
      ensures r.None? <==> old(EmptyPickNext())
      ensures (old(queues) == [] || -1 <= old(current) < |old(queues)|) && Pop(queues, current, r) == TakeNext(old(queues), old(current))
      ensures r.None? ==> Valid() && (queues == [] || (0 <= current < |queues| && queues[current].threads == []))
      ensures r.Some? ==> Inv(multiset{r.value}) && r.value in threads && threads[r.value].waiting.None?
    {
      hide Partition, QueuesOk, HandOk, WaitersOk, ExclusiveOk, SchedQueues.NextPick;
      OkBudgeted(queues, current, threads);
      r := None;
      var k := PickNextQueue();
      SamePartition(old(queues), queues, waiters, running, multiset{}, threads);
      if k >= 0 {
        r := PopQueue(k);
        if r.Some? {
          InHand(r.value, threads);
        }
      } else {
        assert queues == [] && old(queues) == [];
      }
    }
  
    /** pick_next_task */
    method PickNextTask() returns (r: Option<Tid>)
      requires Valid()
      modifies this`queues, this`current, this`waiters, this`threads, this`locked, this`owner
      ensures r.None? ==> Valid() && AllBlocked(|waiters|)
                          && (queues == [] || (0 <= current < |queues| && queues[current].threads == []))
      ensures r.Some? ==> Inv(multiset{r.value}) && r.value in threads && !threads[r.value].shutdown && running != r
      ensures Takes(r) && Reaped(old(threads), threads, r) && locked.Keys == old(locked).Keys
      // it comes to the choice of the first pick that does not find a thread that shuts down
      ensures old(queues) == [] || -1 <= old(current) < |old(queues)|
      ensures var o := PickLive(old(queues), old(current), old(waiters), old(threads), old(owner).Keys);
              Choice(queues, current, waiters, r) == o.choice && threads == Stopped(o.threads, r)
      // without such threads it is one pick, and finds nothing exactly if that pick does
      ensures NobodyEnds(old(threads)) ==>
                && Choice(queues, current, waiters, r) == Choose(old(queues), old(current), old(waiters), old(threads), old(owner).Keys)
                && (r.None? <==> old(AllBlocked(|waiters|) && EmptyPickNext()))
    {
      hide EmptyPickNext, AllBlocked, Inv, Reaped, Choose, TookFor, NobodyEnds, PickLive;
      CurrentInRange();
      ghost var dead: set<Tid> := {};
      assert threads == threads - {};
      while true
        invariant NobodyEnds(old(threads)) ==>
                    dead == {} && queues == old(queues) && current == old(current) && waiters == old(waiters) && threads == old(threads)
        invariant Valid() && owner == old(owner) && locked.Keys == old(locked).Keys
        invariant queues == [] || -1 <= current < |queues|
        invariant PickLive(queues, current, waiters, threads, owner.Keys)
               == PickLive(old(queues), old(current), old(waiters), old(threads), old(owner).Keys)
        invariant threads == old(threads) - dead && Ended(old(threads), dead)
        decreases |threads|
      {
        var done;
        r, done, dead := PickRound(old(threads), dead);
        if done {
          return;
        }
      }
    }

    /** One round of the loop of pick_next_task; a thread that shuts down is deleted and the loop goes on. */
    method PickRound(ghost was: map<Tid, Thread>, ghost dead: set<Tid>) returns (r: Option<Tid>, done: bool, ghost dead': set<Tid>)
      requires Valid() && threads == was - dead && Ended(was, dead)
      modifies this`queues, this`current, this`waiters, this`threads, this`locked, this`owner
      ensures locked.Keys == old(locked).Keys && (old(queues) == [] || -1 <= old(current) < |old(queues)|)
      ensures done && r.None? ==> Valid() && AllBlocked(|waiters|)
                                  && (queues == [] || (0 <= current < |queues| && queues[current].threads == []))
      ensures done && r.Some? ==> Inv(multiset{r.value}) && r.value in threads && !threads[r.value].shutdown && running != r
      ensures done ==> TookFor(owner, old(owner), was, r) && Reaped(was, threads, r)
      ensures done ==> Choice(queues, current, waiters, r) == Choose(old(queues), old(current), old(waiters), old(threads), old(owner).Keys)
      ensures done ==> (r.None? <==> old(AllBlocked(|waiters|) && EmptyPickNext()))
      ensures done ==> threads == Stopped(old(threads), r)
                       && PickLive(old(queues), old(current), old(waiters), old(threads), old(owner).Keys)
                          == Outcome(Choice(queues, current, waiters, r), old(threads))
      ensures !done ==> (queues == [] || -1 <= current < |queues|)
                        && PickLive(queues, current, waiters, threads, owner.Keys)
                           == PickLive(old(queues), old(current), old(waiters), old(threads), old(owner).Keys)
      ensures !done ==> Valid() && owner == old(owner) && threads == was - dead' && Ended(was, dead')
                        && |threads| < |old(threads)| && !NobodyEnds(was)
    {
      hide EmptyPickNext, AllBlocked, Inv, Reaped, Choose;
      r := PickOnce();
      dead' := dead;
      done := true;
      ReapedBy(was, dead, r);
      if r.None? {
        TookDespite(owner, old(owner), was, dead, r);
        return;
      }
      RunningElsewhere(r.value);
      if !threads[r.value].shutdown {
        TookDespite(owner, old(owner), was, dead, r);
        return;
      }
      Reap(r.value);
      assert threads == old(threads) - {r.value};
      ChosenInRange(old(queues), old(current), old(waiters), old(threads), old(owner).Keys);
      assert was[r.value].shutdown && threads.Keys == old(threads).Keys - {r.value};
      done, dead' := false, dead + {r.value};
    }

    /** thread_delete of the thread in hand */
    method Reap(t: Tid)
      requires Inv(multiset{t})
      modifies this`threads
      ensures Valid() && t in old(threads) && threads == old(threads) - {t}
    {
      hide Partition, QueuesOk, HandOk, WaitersOk, ExclusiveOk;
      DeleteFromHand(queues, current, waiters, running, t, threads, locked);
      EmptyHand(threads - {t});
      threads := threads - {t};
    }

    lemma RunningElsewhere(t: Tid)
      requires Inv(multiset{t})
      ensures t in threads && threads[t].waiting.None? && running != Some(t)
    {
      InHand(t, threads);
      OnePlace(queues, waiters, running, multiset{t}, threads, t);
    }

    /** sched_schedule: the running thread goes to the end of its queue and the next one runs. */
    method Schedule()
      requires Valid() && running.Some?
      modifies this
      ensures Valid() && running.Some? && running.value in threads
      ensures running != old(running) ==> old(running.value) in threads
      ensures Takes(if running == old(running) then None else running)
      ensures Reaped(old(threads), threads, if running == old(running) then None else running) && locked.Keys == old(locked).Keys
      // the old thread goes to its queue if something was picked
      ensures old(queues) == [] || -1 <= old(current) < |old(queues)|
      ensures var o := PickLive(old(queues), old(current), old(waiters), old(threads), old(owner).Keys);
              var c := o.choice;
              && old(running).value in old(threads) && waiters == c.waiters && threads == Stopped(o.threads, c.taken)
              && running == (if c.taken.None? then old(running) else c.taken)
              && Line(queues, current) == (if c.taken.None? then Line(c.queues, c.current)
                                           else Enqueued(c.queues, c.current, old(threads)[old(running).value].priority, old(running).value))
      // without threads that shut down: exactly one pick
      ensures NobodyEnds(old(threads)) ==>
                var c := Choose(old(queues), old(current), old(waiters), old(threads), old(owner).Keys);
                && old(running).value in old(threads) && waiters == c.waiters
                && running == (if c.taken.None? then old(running) else c.taken)
                && Line(queues, current) == (if c.taken.None? then Line(c.queues, c.current)
                                             else Enqueued(c.queues, c.current, old(threads)[old(running).value].priority, old(running).value))
    {
      hide Partition, QueuesOk, HandOk, WaitersOk, ExclusiveOk, EmptyPickNext, AllBlocked, Choose, TookFor, Enqueued, NobodyEnds, PickLive;
      RunningLive();
      OldPick();
      var next := PickNextTask();
      if next.None? {
        RunningLive();
        return;
      }
      var was := running.value;
      RunningLive();
      ghost var before := queues;
      var i := Enqueue(was);
      Dispatch(before, queues, waiters, was, next.value, threads, locked);
      running := next;
      EmptyHand(threads);
    }

    lemma RunningLive()
      requires running.Some? && WaitersOk(waiters, running, threads, locked)
      ensures running.value in threads && threads[running.value].waiting.None?
    {}

    /** What is known of the pick before it is made. */
    lemma OldPick()
      requires Valid()
      ensures queues == [] || -1 <= current < |queues|
      ensures var o := PickLive(queues, current, waiters, threads, owner.Keys);
              NobodyEnds(threads) ==> o == Outcome(Choose(queues, current, waiters, threads, owner.Keys), threads)
    {
      CurrentInRange();
      PickLiveMeans(queues, current, waiters, threads, owner.Keys);
    }

    /** The old thread waits if something was picked, whatever had to be deleted before. */
    twostate predicate ParkedLive(m: Mid, ok: bool)
      requires old(queues) == [] || -1 <= old(current) < |old(queues)|
      reads this
    {
      var o := PickLive(old(queues), old(current), old(waiters), old(threads), old(owner).Keys);
      var c := o.choice;
      && (ok <==> c.taken.Some?)
      && queues == c.queues && current == c.current && old(running).Some? && old(running).value in old(threads)
      && (if ok then
            && running == c.taken && waiters == [old(running).value] + c.waiters
            && threads == (var now := Stopped(o.threads, c.taken); now[old(running).value := old(threads)[old(running).value].(waiting := Some(m))])
          else running == old(running) && waiters == c.waiters && threads == o.threads)
    }

    /** Exactly one pick was made, and the old thread waits if something was picked. */
    twostate predicate Parked(m: Mid, ok: bool)
      requires old(queues) == [] || -1 <= old(current) < |old(queues)|
      reads this
    {
      var c := Choose(old(queues), old(current), old(waiters), old(threads), old(owner).Keys);
      && queues == c.queues && current == c.current && old(running).Some? && old(running).value in old(threads)
      && (if ok then
            && running == c.taken && waiters == [old(running).value] + c.waiters
            && threads == (var now := Stopped(old(threads), c.taken); now[old(running).value := old(threads)[old(running).value].(waiting := Some(m))])
          else running == old(running) && waiters == c.waiters && threads == old(threads))
    }

    /** sched_wait_mutex; `false` when it finds no thread to switch to and spins for ever. */
    method WaitMutex(m: Mid) returns (ok: bool)
      requires Valid() && running.Some? && m in locked && m in owner
      modifies this
      ensures Valid() && running.Some?
      ensures ok ==> running != old(running) && running.value in threads
                     && old(running).value in threads && threads[old(running).value].waiting == Some(m)
      ensures !ok ==> running == old(running) && AllBlocked(|waiters|)
                      && (queues == [] || (0 <= current < |queues| && queues[current].threads == []))
      ensures Takes(if ok then running else None) && locked.Keys == old(locked).Keys
      // it hangs exactly if the repeated pick finds nothing
      ensures old(queues) == [] || -1 <= old(current) < |old(queues)|
      ensures ParkedLive(m, ok)
      // without threads that shut down: exactly if nobody can have its mutex and the next pick comes up empty
      ensures NobodyEnds(old(threads)) ==> (!ok <==> old(AllBlocked(|waiters|) && EmptyPickNext())) && Parked(m, ok)
    {
      hide Partition, QueuesOk, HandOk, WaitersOk, ExclusiveOk, EmptyPickNext, AllBlocked, Choose, TookFor, NobodyEnds, PickLive;
      RunningLive();
      OldPick();
      var next := PickNextTask();
      AllStay(old(threads), threads, next);
      if next.None? {
        return false;
      }
      var was := running.value;
      RunningLive();
      Park(queues, current, waiters, was, next.value, threads, locked, m);
      threads := threads[was := threads[was].(waiting := Some(m))];
      waiters := [was] + waiters;
      running := next;
      EmptyHand(threads);
      return true;
    }

    /** __mutex_lock by the running thread; `false` is the hang of sched_wait_mutex. */
    method Lock(m: Mid) returns (ok: bool)
      requires Valid() && running.Some? && m in locked
      modifies this
      ensures Valid() && running.Some? && locked.Keys == old(locked).Keys
      // the mutex was free: the caller has it and goes on
      ensures m !in old(owner) ==> ok && running == old(running) && owner == old(owner)[m := running.value]
      // it was taken: the caller waits, and the thread that runs now holds what it was waiting for
      ensures m in old(owner) && ok ==> running != old(running) && running.value in threads
      ensures m in old(owner) && ok ==> old(running).value in threads && threads[old(running).value].waiting == Some(m)
      ensures m in old(owner) ==> Takes(if ok then running else None)
      ensures old(queues) == [] || -1 <= old(current) < |old(queues)|
      ensures m in old(owner) ==> ParkedLive(m, ok)
      ensures m in old(owner) && NobodyEnds(old(threads)) ==>
                (!ok <==> old(AllBlocked(|waiters|) && EmptyPickNext())) && Parked(m, ok)
      ensures m !in old(owner) ==> queues == old(queues) && current == old(current) && waiters == old(waiters) && threads == old(threads)
    {
      hide Partition, QueuesOk, HandOk, WaitersOk, EmptyPickNext, AllBlocked, Choose, NobodyEnds, TookFor, PickLive;
      CurrentInRange();
      var got := TryLock(m, running.value);
      SameKeys(waiters, running, threads, old(locked), locked);
      if got {
        return true;
      }
      ok := WaitMutex(m);
    }

    /** mutex_unlock by the running thread, which must be the owner. */
    method UnlockOwned(m: Mid)
      requires Valid() && running.Some? && m in owner && owner[m] == running.value
      modifies this`locked, this`owner
      ensures Valid() && owner == old(owner) - {m} && locked.Keys == old(locked).Keys
    {
      hide Partition, QueuesOk, HandOk, WaitersOk;
      Unlock(m);
      SameKeys(waiters, running, threads, old(locked), locked);
    }

    /** thread_create followed by sched_queue. */
    method Spawn(t: Tid, priority: int)
      requires Valid() && t !in threads
      modifies this`threads, this`queues, this`current
      ensures Valid() && threads == old(threads)[t := Thread(priority, false, None)]
      ensures Line(queues, current) == Enqueued(old(queues), old(current), priority, t)
    {
      hide Partition, QueuesOk, HandOk, WaitersOk, ExclusiveOk;
      Born(queues, current, waiters, running, threads, locked, t, Thread(priority, false, None));
      threads := threads[t := Thread(priority, false, None)];
      ghost var before := queues;
      var i := Enqueue(t);
      Settle(before, queues, waiters, running, t, threads);
      EmptyHand(threads);
    }

    /** A thread is asked to shut down. */
    method RequestShutdown(t: Tid)
      requires Valid() && t in threads
      modifies this`threads
      ensures Valid() && threads == old(threads)[t := old(threads)[t].(shutdown := true)]
    {
      hide Partition, QueuesOk, HandOk, WaitersOk, ExclusiveOk;
      MarkKeepsOk(queues, current, waiters, running, threads, locked, t);
      EmptyHand(threads[t := threads[t].(shutdown := true)]);
      threads := threads[t := threads[t].(shutdown := true)];
    }
  }

  // ------------------------------------------------------------ a hang

  // Three threads: boot (0, priority 20) holds a mutex that the others (1, priority 10, and 2, priority 30) ask for.

  const BOTH_READY := [Queue(10, 0, [1]), Queue(30, 0, [2])]
  const ONE_TAKEN := [Queue(10, 0, []), Queue(30, 2, [2])]
  const BOOT_QUEUED := [Queue(10, 0, []), Queue(20, 0, [0]), Queue(30, 2, [2])]
  const TWO_TAKEN := [Queue(10, 0, []), Queue(20, 0, [0]), Queue(30, 1, [])]

  lemma SpawnBoth()
    ensures var q := Enqueued([], -1, 10, 1); Enqueued(q.queues, q.current, 30, 2) == Line(BOTH_READY, -1)
  {
    EnqueuedAlone([], -1, 10, 1);
    var q := [Queue(10, 0, [1])];
    assert Enqueued([], -1, 10, 1) == Line(q, -1);
    assert PlaceOf(q, 30) == 1;
    EnqueuedAlone(q, -1, 30, 2);
    assert q[..1] + [Queue(30, 0, [2])] + q[1..] == BOTH_READY;
  }

  lemma TakeOne()
    ensures TakeNext(BOTH_READY, -1) == Pop(ONE_TAKEN, 0, Some(1))
  {
    var p := NextPick(BOTH_READY, -1);
    EmptyPickExactly(BOTH_READY, -1);
    assert Reset(BOTH_READY) == [Queue(10, 1, [1]), Queue(30, 2, [2])];
    assert p == Pick([Queue(10, 0, [1]), Queue(30, 2, [2])], 0, true);
  }

  lemma QueueBoot()
    ensures Enqueued(ONE_TAKEN, 0, 20, 0) == Line(BOOT_QUEUED, 0)
  {
    assert PlaceOf(ONE_TAKEN, 20) == 1;
    EnqueuedAlone(ONE_TAKEN, 0, 20, 0);
  }

  lemma TakeTwo()
    ensures TakeNext(BOOT_QUEUED, 0) == Pop(TWO_TAKEN, 2, Some(2))
  {
    assert Eligible(BOOT_QUEUED, 0, 2) && !Eligible(BOOT_QUEUED, 0, 0) && !Eligible(BOOT_QUEUED, 0, 1);
    assert FirstEligible(BOOT_QUEUED, 0, 0) == 2;
    assert NextPick(BOOT_QUEUED, 0) == Pick([Queue(10, 0, []), Queue(20, 0, [0]), Queue(30, 1, [2])], 2, false);
  }

  lemma TakeNobody()
    ensures TakeNext(TWO_TAKEN, 2).taken == None
    ensures TakeNext(TWO_TAKEN, 2).queues == [Queue(10, 0, []), Queue(20, 2, [0]), Queue(30, 3, [])]
  {
    EmptyPickExactly(TWO_TAKEN, 2);
  }

  lemma OneBlocked()
    ensures Choose(TWO_TAKEN, 2, [1], Boot(Some(0)), {0}).queues == TakeNext(TWO_TAKEN, 2).queues
  {
    ChooseBlocked(TWO_TAKEN, 2, [1], Boot(Some(0)), {0});
  }

  lemma ChooseBlocked(queues: seq<Queue>, current: int, waiters: seq<Tid>, threads: map<Tid, Thread>, held: set<Mid>)
    requires queues == [] || -1 <= current < |queues|
    requires forall k :: 0 <= k < |waiters| ==> MutexOf(waiters[k], threads) in held
    ensures var p := TakeNext(queues, current);
            && Choose(queues, current, waiters, threads, held) == Choice(p.queues, p.current, waiters, p.taken)
            && (NobodyEnds(threads) ==>
                  PickLive(queues, current, waiters, threads, held) == Outcome(Choice(p.queues, p.current, waiters, p.taken), threads))
  {
    FirstFreeUnique(waiters, threads, held, |waiters|);
    PickLiveMeans(queues, current, waiters, threads, held);
    hide PickLive, NobodyEnds;
  }

  lemma ChooseNewest(queues: seq<Queue>, current: int, waiters: seq<Tid>, threads: map<Tid, Thread>, held: set<Mid>)
    requires queues == [] || -1 <= current < |queues|
    requires waiters != [] && MutexOf(waiters[0], threads) !in held
    ensures Choose(queues, current, waiters, threads, held) == Choice(queues, current, waiters[1..], Some(waiters[0]))
  {
    FirstFreeUnique(waiters, threads, held, 0);
  }

  ghost function Boot(waiting1: Option<Mid>): map<Tid, Thread>
  {
    map[0 := Thread(20, false, None), 1 := Thread(10, false, waiting1), 2 := Thread(30, false, None)]
  }

  /** The boot thread starts the others and takes the mutex. */
  method BootLocks() returns (m: Machine)
    ensures fresh(m) && m.Valid() && m.running == Some(0) && m.queues == BOTH_READY && m.current == -1 && m.waiters == []
    ensures m.threads == Boot(None) && m.owner == map[0 := 0] && m.locked.Keys == {0}
  {
    hide Machine.Inv, Machine.EmptyPickNext, Machine.AllBlocked, Enqueued, TakeNext, Choose, Queued;
    m := new Machine(0, {0});
    m.Spawn(1, 10);
    m.Spawn(2, 30);
    SpawnBoth();
    var ok := m.Lock(0);
    assert m.threads == Boot(None) && m.owner == map[0 := 0];
  }

  /** It calls the scheduler, and thread 1 runs. */
  method ThreadOneRuns() returns (m: Machine)
    ensures fresh(m) && m.Valid() && m.running == Some(1) && m.queues == BOOT_QUEUED && m.current == 0 && m.waiters == []
    ensures m.threads == Boot(None) && m.owner == map[0 := 0] && m.locked.Keys == {0}
  {
    hide Machine.Inv, Machine.EmptyPickNext, Machine.AllBlocked, Enqueued, TakeNext, Choose, Queued;
    m := BootLocks();
    NobodyWaits(m.queues, m.current, m.threads, m.owner.Keys);
    TakeOne();
    QueueBoot();
    m.Schedule();
    AllStay(Boot(None), m.threads, Some(1));
  }

  /** Thread 1 asks for the mutex: it waits, and thread 2 runs. */
  method ThreadOneWaits(m: Machine)
    requires m.Valid() && m.running == Some(1) && m.queues == BOOT_QUEUED && m.current == 0 && m.waiters == []
    requires m.threads == Boot(None) && m.owner == map[0 := 0] && m.locked.Keys == {0}
    modifies m
    ensures m.Valid() && m.running == Some(2) && m.queues == TWO_TAKEN && m.current == 2 && m.waiters == [1]
    ensures m.threads == Boot(Some(0)) && m.owner == map[0 := 0] && m.locked.Keys == {0}
  {
    hide Machine.Inv, Enqueued, TakeNext, Choose, Queued;
    NobodyWaits(m.queues, m.current, m.threads, m.owner.Keys);
    TakeTwo();
    var ok := m.Lock(0);
    assert ok;
  }

  /**
   From the boot thread on: the second of two waiters makes sched_wait_mutex spin for
   ever, although the owner of the mutex is ready in a queue.
   */
  method OwnerNeverRuns() returns (m: Machine, ok: bool)
    ensures m.Valid() && !ok && m.running == Some(2)
    ensures 0 in m.owner && m.owner[0] == 0 && exists i :: 0 <= i < |m.queues| && 0 in m.queues[i].threads
  {
    hide Machine.Inv, Enqueued, TakeNext, Choose, Queued;
    m := ThreadOneRuns();
    ThreadOneWaits(m);
    TakeNobody();
    OneBlocked();
    assert m.owner.Keys == {0};
    ok := m.Lock(0);
    assert 0 in m.queues[1].threads;
  }

  lemma NobodyWaits(queues: seq<Queue>, current: int, threads: map<Tid, Thread>, held: set<Mid>)
    requires queues == [] || -1 <= current < |queues|
    ensures var p := TakeNext(queues, current); Choose(queues, current, [], threads, held) == Choice(p.queues, p.current, [], p.taken)
  {}

  // ------------------------------------------------------------ overtaking in the wait list

  // Threads 0, 1 and 2 of one priority; 1 waits for the mutex, which 0 and 2 take in turn.

  /** The one queue, with these threads. */
  ghost function Equal(ts: seq<Tid>): seq<Queue>
  {
    [Queue(BOOT_THREAD_PRIORITY, 0, ts)]
  }

  lemma EqualTake(ts: seq<Tid>, t: Tid, current: int)
    requires current == -1 || current == 0
    ensures TakeNext(Equal(ts + [t]), current) == Pop(Equal(ts), 0, Some(t))
  {
    var q := Equal(ts + [t]);
    assert !Eligible(q, current, 0);
    assert NextPick(q, current) == Pick(q, 0, true);
    assert (ts + [t])[..|ts|] == ts;
  }

  lemma EqualEnqueue(ts: seq<Tid>, t: Tid, current: int)
    ensures Enqueued(Equal(ts), current, BOOT_THREAD_PRIORITY, t) == Line(Equal([t] + ts), current)
  {
    assert PlaceOf(Equal(ts), BOOT_THREAD_PRIORITY) == 0;
  }

  /** The first two threads, and the turn of a single one. */
  lemma EqualStart(t: Tid, u: Tid)
    ensures Enqueued([], -1, BOOT_THREAD_PRIORITY, t) == Line(Equal([t]), -1)
    ensures forall c :: Enqueued(Equal([t]), c, BOOT_THREAD_PRIORITY, u) == Line(Equal([u, t]), c)
    ensures forall c :: c == -1 || c == 0 ==> TakeNext(Equal([u, t]), c) == Pop(Equal([u]), 0, Some(t))
  {
    assert PlaceOf([], BOOT_THREAD_PRIORITY) == 0;
    EnqueuedAlone([], -1, BOOT_THREAD_PRIORITY, t);
    assert [u] + [t] == [u, t];
    forall c
      ensures Enqueued(Equal([t]), c, BOOT_THREAD_PRIORITY, u) == Line(Equal([u, t]), c)
      ensures c == -1 || c == 0 ==> TakeNext(Equal([u, t]), c) == Pop(Equal([u]), 0, Some(t))
    {
      EqualEnqueue([t], u, c);
      if c == -1 || c == 0 {
        EqualTake([u], t, c);
      }
    }
  }

  lemma EqualTurn(t: Tid)
    ensures Enqueued(Equal([]), 0, BOOT_THREAD_PRIORITY, t) == Line(Equal([t]), 0)
    ensures TakeNext(Equal([t]), 0) == TakeNext(Equal([t]), -1) == Pop(Equal([]), 0, Some(t))
  {
    EqualEnqueue([], t, 0);
    assert [t] + [] == [t] == [] + [t];
    EqualTake([], t, 0);
    EqualTake([], t, -1);
  }

  /** The three threads, those in the set waiting for the mutex. */
  ghost function Three(waiting: set<Tid>): map<Tid, Thread>
  {
    map t: Tid | t in {0, 1, 2} :: Thread(BOOT_THREAD_PRIORITY, false, if t in waiting then Some(0) else None)
  }

  /** a runs and holds the mutex, b and then thread 1 wait for it, and nobody is queued. */
  ghost predicate Contended(m: Machine, a: Tid, b: Tid)
    reads m
  {
    && m.Valid() && m.running == Some(a) && m.queues == Equal([]) && m.current == 0 && m.waiters == [b, 1]
    && m.threads == Three({b, 1}) && m.owner == map[0 := a] && m.locked.Keys == {0}
  }

  method Spawned() returns (m: Machine)
    ensures fresh(m) && m.Valid() && m.running == Some(0) && m.queues == Equal([2, 1]) && m.current == -1 && m.waiters == []
    ensures m.threads == Three({}) && m.owner == map[] && m.locked.Keys == {0}
  {
    hide Machine.Inv, Enqueued, TakeNext, Choose, Queued, PickLive;
    m := new Machine(0, {0});
    EqualStart(1, 2);
    m.Spawn(1, BOOT_THREAD_PRIORITY);
    m.Spawn(2, BOOT_THREAD_PRIORITY);
  }

  /** Thread 0 takes the mutex, and thread 1 runs. */
  method OneRuns() returns (m: Machine)
    ensures fresh(m) && m.Valid() && m.running == Some(1) && m.queues == Equal([0, 2]) && m.current == 0 && m.waiters == []
    ensures m.threads == Three({}) && m.owner == map[0 := 0] && m.locked.Keys == {0}
  {
    hide Machine.Inv, Machine.EmptyPickNext, Machine.AllBlocked, Enqueued, TakeNext, Choose, Queued, PickLive;
    m := Spawned();
    var ok := m.Lock(0);
    assert m.owner == map[0 := 0];
    ChooseBlocked(m.queues, m.current, [], m.threads, m.owner.Keys);
    EqualStart(1, 2);
    EqualStart(2, 0);
    m.Schedule();
    assert m.threads == Three({});
  }

  /** Thread 1 asks for the mutex, and then thread 2. */
  method Contend() returns (m: Machine)
    ensures fresh(m) && Contended(m, 0, 2)
  {
    hide Machine.Inv, Machine.EmptyPickNext, Machine.AllBlocked, Enqueued, TakeNext, Choose, Queued, PickLive;
    m := OneRuns();
    assert m.owner.Keys == {0};
    ChooseBlocked(m.queues, m.current, [], m.threads, m.owner.Keys);
    EqualStart(2, 0);
    var ok := m.Lock(0);
    assert m.threads == Three({1});
    assert m.owner == map[0 := 0] && m.waiters == [1];
    ChooseBlocked(m.queues, m.current, [1], m.threads, {0});
    EqualTurn(0);
    ok := m.Lock(0);
    assert m.threads == Three({2, 1}) && m.waiters == [2, 1];
  }

  /** a releases the mutex and is scheduled away: b gets it although thread 1 has waited longer. */
  method HandOver(m: Machine, a: Tid, b: Tid)
    requires Contended(m, a, b) && {a, b} == {0, 2}
    modifies m
    ensures m.Valid() && m.running == Some(b) && m.queues == Equal([a]) && m.current == 0 && m.waiters == [1]
    ensures m.threads == Three({1}) && m.owner == map[0 := b] && m.locked.Keys == {0}
  {
    hide Machine.Inv, Machine.EmptyPickNext, Machine.AllBlocked, Enqueued, TakeNext, Choose, Queued, PickLive;
    m.UnlockOwned(0);
    assert m.owner == map[] && m.owner.Keys == {};
    ChooseNewest(m.queues, m.current, m.waiters, m.threads, m.owner.Keys);
    EqualTurn(a);
    m.Schedule();
    assert m.threads == Three({1});
  }

  /** b is scheduled away, and a asks for the mutex again. */
  method ComeBack(m: Machine, a: Tid, b: Tid)
    requires m.Valid() && m.running == Some(b) && m.queues == Equal([a]) && m.current == 0 && m.waiters == [1]
    requires m.threads == Three({1}) && m.owner == map[0 := b] && m.locked.Keys == {0} && {a, b} == {0, 2}
    modifies m
    ensures Contended(m, b, a)
  {
    hide Machine.Inv, Machine.EmptyPickNext, Machine.AllBlocked, Enqueued, TakeNext, Choose, Queued, PickLive;
    assert m.owner.Keys == {0};
    ChooseBlocked(m.queues, m.current, [1], m.threads, m.owner.Keys);
    EqualTurn(a);
    EqualTurn(b);
    m.Schedule();
    assert m.threads == Three({1}) && m.owner == map[0 := b] && m.waiters == [1];
    ChooseBlocked(m.queues, m.current, [1], m.threads, {0});
    var ok := m.Lock(0);
    assert m.threads == Three({a, 1}) && m.waiters == [a, 1];
  }

  /** For every n a run in which the mutex becomes free n times and thread 1, waiting for it all the time, never gets it. */
  method NewcomersGoFirst(n: nat) returns (m: Machine, served: seq<Tid>)
    ensures m.Valid() && |served| == n && 1 !in served && 1 in m.waiters
  {
    m := Contend();
    served := [];
    var a, b := 0, 2;
    hide Contended, Machine.Inv;
    while |served| < n
      invariant Contended(m, a, b) && {a, b} == {0, 2} && |served| <= n && 1 !in served && fresh(m)
    {
      HandOver(m, a, b);
      served := served + [m.running.value];
      ComeBack(m, a, b);
      a, b := b, a;
    }
    OneWaits(m, a, b);
  }

  lemma OneWaits(m: Machine, a: Tid, b: Tid)
    requires Contended(m, a, b)
    ensures m.Valid() && 1 in m.waiters
  {
    hide Machine.Inv;
  }

  /** The only queued thread is asked to shut down: the next call of the scheduler deletes it and goes on with the caller. */
  method ThreadReaped() returns (m: Machine)
    ensures m.Valid() && m.running == Some(0) && m.threads == map[0 := Thread(BOOT_THREAD_PRIORITY, false, None)]
  {
    hide Machine.Inv, Enqueued, TakeNext, Choose, Queued, PickLive;
    m := new Machine(0, {});
    EqualStart(1, 1);
    m.Spawn(1, BOOT_THREAD_PRIORITY);
    m.RequestShutdown(1);
    assert m.queues == Equal([1]) && m.owner.Keys == {};
    ReapedPick(m.threads);
    m.Schedule();
  }

  lemma ReapedPick(threads: map<Tid, Thread>)
    requires threads.Keys == {0, 1} && threads[1].shutdown
    ensures PickLive(Equal([1]), -1, [], threads, {}) == Outcome(Choice(Equal([]), 0, [], None), threads - {1})
  {
    hide TakeNext, Choose;
    ChooseBlocked(Equal([1]), -1, [], threads, {});
    EqualTurn(1);
    ChooseBlocked(Equal([]), 0, [], threads - {1}, {});
    EqualNone();
  }

  lemma EqualNone()
    ensures TakeNext(Equal([]), 0) == Pop(Equal([]), 0, None)
  {
    assert !Eligible(Equal([]), 0, 0);
    assert NextPick(Equal([]), 0) == Pick(Equal([]), 0, true);
  }
}

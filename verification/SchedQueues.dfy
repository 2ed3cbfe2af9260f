/**
 The run queues of kernel/tasks/sched.c and how the next one is picked.

 Queues are in list order.  `current` is the index of the queue picked last, -1
 before the first pick.  A round starts when the opportunities are reset to
 1, 2, 3, ... and ends at the next reset; the pick that resets belongs to the
 round it starts.
 */
module SchedQueues {
  import opened Basics

  type Tid = nat

  datatype Queue = Queue(priority: int, opportunities: nat, threads: seq<Tid>)

  /** The queue may be picked without a reset. */
  predicate Eligible(queues: seq<Queue>, current: int, j: nat)
    requires j < |queues|
  {
    j != current && queues[j].opportunities != 0 && queues[j].threads != []
  }

  /** The first eligible queue at or after `from`; |queues| if there is none. */
  function FirstEligible(queues: seq<Queue>, current: int, from: nat): (j: nat)
    requires from <= |queues|
    ensures from <= j <= |queues|
    ensures j < |queues| ==> Eligible(queues, current, j)
    ensures forall k :: from <= k < j ==> !Eligible(queues, current, k)
    decreases |queues| - from
  {
    if from == |queues| || Eligible(queues, current, from) then from
    else FirstEligible(queues, current, from + 1)
  }

  /** reset_queues */
  function Reset(queues: seq<Queue>): (r: seq<Queue>)
    ensures |r| == |queues|
    ensures forall k :: 0 <= k < |r| ==> r[k] == queues[k].(opportunities := k + 1)
  {
    seq(|queues|, k requires 0 <= k < |queues| => queues[k].(opportunities := k + 1))
  }

  datatype Pick = Pick(queues: seq<Queue>, picked: nat, reset: bool)

  /** What pick_next_queue does to a non-empty list of queues; the picked queue becomes the current one. */
  function NextPick(queues: seq<Queue>, current: int): (p: Pick)
    requires -1 <= current < |queues| && |queues| > 0
    ensures p.picked < |queues| == |p.queues|
  {
    var after := if current >= 0 then FirstEligible(queues, current, current) else |queues|;
    var found := if after < |queues| then after else FirstEligible(queues, current, 0);
    if found < |queues| then Pick(Spend(queues, found), found, false)
    else Pick(Spend(Reset(queues), 0), 0, true)
  }

  function Spend(queues: seq<Queue>, j: nat): (r: seq<Queue>)
    requires j < |queues| && queues[j].opportunities > 0
    ensures |r| == |queues|
  {
    queues[j := queues[j].(opportunities := queues[j].opportunities - 1)]
  }

  /**
   Holds in every reachable state: queue k (from 0) has at most k+1 opportunities, the
   current one has spent some, and the front queue has none, because it is picked by
   the reset itself.
   */
  predicate Budgeted(queues: seq<Queue>, current: int)
  {
    && -1 <= current < |queues|
    && (forall k :: 0 <= k < |queues| ==> queues[k].opportunities <= k + 1)
    && (current >= 0 ==> queues[current].opportunities <= current)
    && (queues != [] ==> queues[0].opportunities == 0)
  }

  lemma PickKeepsBudget(queues: seq<Queue>, current: int)
    requires Budgeted(queues, current) && |queues| > 0
    ensures Budgeted(NextPick(queues, current).queues, NextPick(queues, current).picked)
  {}

  /** The front queue is picked exactly by the picks that reset. */
  lemma FrontPickedAtReset(queues: seq<Queue>, current: int)
    requires Budgeted(queues, current) && |queues| > 0
    ensures NextPick(queues, current).picked == 0 <==> NextPick(queues, current).reset
  {
    var p := NextPick(queues, current);
    if !p.reset {
      assert Eligible(queues, current, p.picked);
    }
  }

  // ------------------------------------------------------------ the rotation

  /** Queue j has a thread and opportunities left, and was not picked last. */
  ghost predicate MayGo(queues: seq<Queue>, current: int, j: nat)
  {
    j < |queues| && j != current && |queues[j].threads| > 0 && queues[j].opportunities > 0
  }

  /**
   The queues take turns in list order: next is the first one behind the current
   queue that may go, if there is one, and otherwise the first one at all; if none
   may go, the opportunities are handed out anew and the front queue is next.
   */
  lemma PickRotates(queues: seq<Queue>, current: int)
    requires Budgeted(queues, current) && |queues| > 0
    ensures var p := NextPick(queues, current);
            && (p.reset <==> forall j: nat :: !MayGo(queues, current, j))
            && (p.reset ==> p.picked == 0)
            && (!p.reset ==> MayGo(queues, current, p.picked))
            && (forall j: nat :: MayGo(queues, current, j) && current < j ==> current < p.picked <= j)
            && (forall j: nat :: MayGo(queues, current, j) && p.picked < current ==> p.picked <= j)
  {
    assert forall j: nat :: MayGo(queues, current, j) <==> j < |queues| && Eligible(queues, current, j);
  }

  /** What a pick leaves: one opportunity less for the queue picked, and after a reset one more than its index for each of the others. */
  lemma PickLeaves(queues: seq<Queue>, current: int, k: nat)
    requires Budgeted(queues, current) && k < |queues|
    ensures var p := NextPick(queues, current);
            && |p.queues| == |queues| && p.queues[k].threads == queues[k].threads && p.queues[k].priority == queues[k].priority
            && p.queues[k].opportunities
               == (if p.reset then k + 1 else queues[k].opportunities) - (if k == p.picked then 1 else 0)
  {}

  // ------------------------------------------------------------ threads in and out

  /** The index of the first queue whose priority is not below p. */
  function PlaceOf(queues: seq<Queue>, p: int): (i: nat)
    ensures i <= |queues|
    ensures i < |queues| ==> queues[i].priority >= p
    ensures forall k :: 0 <= k < i ==> queues[k].priority < p
  {
    if queues == [] || queues[0].priority >= p then 0 else 1 + PlaceOf(queues[1..], p)
  }

  datatype Line = Line(queues: seq<Queue>, current: int)

  /** The queues once there is one of priority p. */
  function Opened(queues: seq<Queue>, current: int, p: int): Line
  {
    var i := PlaceOf(queues, p);
    if i < |queues| && queues[i].priority == p then Line(queues, current)
    else Line(queues[..i] + [Queue(p, 0, [])] + queues[i..], if i <= current then current + 1 else current)
  }

  /** sched_queue: t goes to the front of the queue of its priority. */
  function Enqueued(queues: seq<Queue>, current: int, p: int, t: Tid): (r: Line)
  {
    var o := Opened(queues, current, p);
    var i := PlaceOf(queues, p);
    Line(o.queues[i := o.queues[i].(threads := [t] + o.queues[i].threads)], o.current)
  }

  datatype Pop = Pop(queues: seq<Queue>, current: int, taken: Option<Tid>)

  /** The queue half of pick_next_task: the oldest thread of the queue picked next, if it has one. */
  function TakeNext(queues: seq<Queue>, current: int): Pop
    requires queues == [] || -1 <= current < |queues|
  {
    if queues == [] then Pop(queues, current, None)
    else
      var p := NextPick(queues, current);
      var ts := p.queues[p.picked].threads;
      if ts == [] then Pop(p.queues, p.picked, None)
      else Pop(p.queues[p.picked := p.queues[p.picked].(threads := ts[..|ts| - 1])], p.picked, Some(ts[|ts| - 1]))
  }

  // ------------------------------------------------------------ opportunities left

  function Total(queues: seq<Queue>): nat
  {
    if queues == [] then 0 else Total(queues[..|queues| - 1]) + queues[|queues| - 1].opportunities
  }

  /** The opportunities a reset hands out: 1 + 2 + ... + n. */
  function Round(n: nat): nat
  {
    if n == 0 then 0 else Round(n - 1) + n
  }

  lemma {:induction false} RoundIsTriangular(n: nat)
    ensures 2 * Round(n) == n * (n + 1)
  {
    if n > 0 {
      RoundIsTriangular(n - 1);
    }
  }

  lemma {:induction false} TotalSpend(queues: seq<Queue>, j: nat)
    requires j < |queues| && queues[j].opportunities > 0
    ensures Total(Spend(queues, j)) == Total(queues) - 1
  {
    var n := |queues| - 1;
    if j < n {
      assert Spend(queues, j)[..n] == Spend(queues[..n], j);
      TotalSpend(queues[..n], j);
    } else {
      assert Spend(queues, j)[..n] == queues[..n];
    }
  }

  lemma {:induction false} TotalReset(queues: seq<Queue>)
    ensures Total(Reset(queues)) == Round(|queues|)
  {
    if queues != [] {
      var n := |queues| - 1;
      assert Reset(queues)[..n] == Reset(queues[..n]);
      TotalReset(queues[..n]);
    }
  }

  lemma {:induction false} TotalBound(queues: seq<Queue>)
    requires forall k :: 0 <= k < |queues| ==> queues[k].opportunities <= k + 1
    ensures Total(queues) <= Round(|queues|)
  {
    if queues != [] {
      TotalBound(queues[..|queues| - 1]);
    }
  }

  lemma {:induction false} TotalIgnoresThreads(a: seq<Queue>, b: seq<Queue>)
    requires |a| == |b| && forall k :: 0 <= k < |a| ==> a[k].opportunities == b[k].opportunities
    ensures Total(a) == Total(b)
  {
    if a != [] {
      TotalIgnoresThreads(a[..|a| - 1], b[..|b| - 1]);
    }
  }

  /** Every pick uses up one opportunity; a reset pick starts from a full round. */
  lemma PickSpendsOne(queues: seq<Queue>, current: int)
    requires Budgeted(queues, current) && |queues| > 0
    ensures var p := NextPick(queues, current);
            Total(p.queues) == (if p.reset then Round(|queues|) else Total(queues)) - 1
  {
    var p := NextPick(queues, current);
    if p.reset {
      TotalReset(queues);
      TotalSpend(Reset(queues), 0);
    } else {
      TotalSpend(queues, p.picked);
    }
  }

  // ------------------------------------------------------------ whole rounds

  /** Between two picks, threads come and go but queues and opportunities stay. */
  predicate SameBudget(a: seq<Queue>, b: seq<Queue>)
  {
    |a| == |b| && forall k :: 0 <= k < |a| ==> a[k].opportunities == b[k].opportunities
  }

  /**
   A run of picks on a fixed set of queues: state i is picked from, giving the
   opportunities of state i+1, whose threads are arbitrary.
   */
  ghost predicate Run(states: seq<seq<Queue>>, currents: seq<int>)
  {
    && |states| == |currents| > 0
    && Budgeted(states[0], currents[0]) && |states[0]| > 0
    && forall i :: 0 <= i < |states| - 1 ==> RunStep(states, currents, i)
  }

  ghost predicate RunStep(states: seq<seq<Queue>>, currents: seq<int>, i: nat)
    requires |states| == |currents| && i + 1 < |states|
  {
    && |states[i]| > 0 && -1 <= currents[i] < |states[i]|
    && SameBudget(NextPick(states[i], currents[i]).queues, states[i + 1])
    && currents[i + 1] == NextPick(states[i], currents[i]).picked
  }

  /** The picks of queue k in steps [0, m) of a run. */
  ghost function PicksOf(states: seq<seq<Queue>>, currents: seq<int>, k: nat, m: nat): nat
    requires |states| == |currents| && m < |states|
  {
    if m == 0 then 0
    else PicksOf(states, currents, k, m - 1) + if currents[m] == k then 1 else 0
  }

  /** No step of [from, m) resets. */
  ghost predicate NoReset(states: seq<seq<Queue>>, currents: seq<int>, from: nat, m: nat)
    requires |states| == |currents| && m < |states|
  {
    forall i :: from <= i < m ==>
      |states[i]| > 0 && -1 <= currents[i] < |states[i]| && !NextPick(states[i], currents[i]).reset
  }

  lemma {:induction false} RunBudgeted(states: seq<seq<Queue>>, currents: seq<int>, m: nat)
    requires Run(states, currents) && m < |states|
    ensures Budgeted(states[m], currents[m]) && |states[m]| == |states[0]|
  {
    if m > 0 {
      RunBudgeted(states, currents, m - 1);
      assert RunStep(states, currents, m - 1);
      PickKeepsBudget(states[m - 1], currents[m - 1]);
    }
  }

  /**
   Within a round, queue k (from 0) is picked at most k+1 times and there are at
   most 1 + 2 + ... + n picks: the opportunities never go below zero.
   */
  lemma {:induction false} RoundBudget(states: seq<seq<Queue>>, currents: seq<int>, k: nat, m: nat)
    requires Run(states, currents) && m < |states| && k < |states[0]|
    requires NoReset(states, currents, 0, m)
    ensures |states[m]| == |states[0]|
    ensures states[m][k].opportunities + PicksOf(states, currents, k, m) == states[0][k].opportunities
    ensures PicksOf(states, currents, k, m) <= k + 1
    ensures Total(states[m]) + m == Total(states[0]) <= Round(|states[0]|)
  {
    RunBudgeted(states, currents, m);
    TotalBound(states[0]);
    if m > 0 {
      RoundBudget(states, currents, k, m - 1);
      RunBudgeted(states, currents, m - 1);
      assert RunStep(states, currents, m - 1);
      var p := NextPick(states[m - 1], currents[m - 1]);
      PickSpendsOne(states[m - 1], currents[m - 1]);
      TotalIgnoresThreads(p.queues, states[m]);
    }
  }

  /** When a round ends, every queue that still holds a thread has been picked in it. */
  lemma ResetMeansAllServed(queues: seq<Queue>, current: int, k: nat)
    requires Budgeted(queues, current) && k < |queues|
    requires NextPick(queues, current).reset && queues[k].threads != []
    ensures queues[k].opportunities < k + 1
  {
    assert !Eligible(queues, current, k);
  }

  /** Over a run: the round that starts with step `a` and ends before the reset of step `b`. */
  lemma {:induction false} RoundServesAll(states: seq<seq<Queue>>, currents: seq<int>, k: nat, m: nat)
    requires Run(states, currents) && m + 1 < |states| && k < |states[0]|
    requires NextPick(states[0], currents[0]).reset
    requires NoReset(states, currents, 1, m)
    requires m > 0 && |states[m]| > 0 && -1 <= currents[m] < |states[m]| && NextPick(states[m], currents[m]).reset
    requires k < |states[m]| && states[m][k].threads != []
    ensures PicksOf(states, currents, k, m) >= 1
  {
    RunBudgeted(states, currents, m);
    ResetMeansAllServed(states[m], currents[m], k);
    RoundAccount(states, currents, k, m);
  }

  lemma {:induction false} RoundAccount(states: seq<seq<Queue>>, currents: seq<int>, k: nat, m: nat)
    requires Run(states, currents) && 0 < m < |states| && k < |states[0]|
    requires NextPick(states[0], currents[0]).reset && NoReset(states, currents, 1, m)
    ensures |states[m]| == |states[0]|
    ensures states[m][k].opportunities + PicksOf(states, currents, k, m) == k + 1
  {
    assert RunStep(states, currents, m - 1);
    RunBudgeted(states, currents, m - 1);
    if m == 1 {
      assert PicksOf(states, currents, k, 0) == 0;
    } else {
      RoundAccount(states, currents, k, m - 1);
    }
  }

  /**
   A round shares the picks out by priority: when it ends, a queue that still holds a
   thread has been picked exactly as often as its place in the list says, unless it
   is the one picked last.
   */
  lemma RoundShares(states: seq<seq<Queue>>, currents: seq<int>, k: nat, m: nat)
    requires Run(states, currents) && 0 < m < |states| && k < |states[0]|
    requires NextPick(states[0], currents[0]).reset && NoReset(states, currents, 1, m)
    requires |states[m]| > 0 && -1 <= currents[m] < |states[m]| && NextPick(states[m], currents[m]).reset
    requires k < |states[m]| && states[m][k].threads != [] && currents[m] != k
    ensures PicksOf(states, currents, k, m) == k + 1
  {
    RunBudgeted(states, currents, m);
    RoundAccount(states, currents, k, m);
    PickRotates(states[m], currents[m]);
    assert !MayGo(states[m], currents[m], k);
  }

  /** Queue j has a thread and opportunities left in every state of [from, to). */
  ghost predicate ReadyThroughout(states: seq<seq<Queue>>, j: nat, from: nat, to: nat)
    requires to <= |states|
  {
    forall i :: from <= i < to ==> j < |states[i]| && states[i][j].threads != [] && states[i][j].opportunities > 0
  }

  /**
   Between two picks of queue k without a reset every other queue that is ready all
   the time is picked: nobody is passed over in the rotation.
   */
  lemma NobodyPassedOver(states: seq<seq<Queue>>, currents: seq<int>, k: nat, j: nat, from: nat, to: nat)
    requires Run(states, currents) && from < to < |states| && j != k
    requires currents[from] == k && currents[to] == k && NoReset(states, currents, from, to)
    requires ReadyThroughout(states, j, from, to)
    ensures exists i :: from < i < to && currents[i] == j
  {
    if forall i :: from < i < to ==> currents[i] != j {
      NotBackYet(states, currents, k, j, from, to, to);
    }
  }

  /** Until j is picked, the rotation stays between k and j. */
  lemma {:induction false} NotBackYet(states: seq<seq<Queue>>, currents: seq<int>, k: nat, j: nat, from: nat, to: nat, m: nat)
    requires Run(states, currents) && from < m <= to < |states| && j != k
    requires currents[from] == k && NoReset(states, currents, from, to) && ReadyThroughout(states, j, from, to)
    requires forall i :: from < i < to ==> currents[i] != j
    ensures if k < j then k < currents[m] <= j else currents[m] <= j || k < currents[m]
  {
    RunBudgeted(states, currents, m - 1);
    assert RunStep(states, currents, m - 1);
    if from < m - 1 {
      NotBackYet(states, currents, k, j, from, to, m - 1);
    }
    assert j < |states[m - 1]| && states[m - 1][j].threads != [];
    PickRotates(states[m - 1], currents[m - 1]);
    assert MayGo(states[m - 1], currents[m - 1], j);
  }

  /** Two picks in a row never both find an empty queue while a thread is queued. */
  lemma NoTwoEmptyPicks(queues: seq<Queue>, current: int, between: seq<Queue>)
    requires Budgeted(queues, current) && |queues| > 0
    requires var p := NextPick(queues, current);
             p.queues[p.picked].threads == [] && SameBudget(p.queues, between)
    requires exists k :: 0 <= k < |between| && between[k].threads != []
    ensures var p := NextPick(queues, current);
            var q := NextPick(between, p.picked);
            q.queues[q.picked].threads != []
  {
    var p := NextPick(queues, current);
    var k :| 0 <= k < |between| && between[k].threads != [];
    assert p.reset && p.picked == 0;
    if k != 0 {
      assert between[k].opportunities == k + 1;
      assert Eligible(between, 0, k);
    }
  }

  /** A pick comes up empty exactly when no queue is eligible and the front queue, which the reset picks, is empty. */
  lemma EmptyPickExactly(queues: seq<Queue>, current: int)
    requires Budgeted(queues, current) && |queues| > 0
    ensures var p := NextPick(queues, current);
            p.queues[p.picked].threads == [] <==>
            queues[0].threads == [] && forall j :: 0 <= j < |queues| ==> !Eligible(queues, current, j)
  {
    var p := NextPick(queues, current);
    if p.reset {
      assert forall j :: 0 <= j < |queues| ==> !Eligible(queues, current, j);
    } else {
      assert Eligible(queues, current, p.picked);
    }
  }

  /** A thread whose priority has no queue yet. */
  lemma EnqueuedAlone(queues: seq<Queue>, current: int, p: int, t: Tid)
    requires var i := PlaceOf(queues, p); i == |queues| || queues[i].priority != p
    ensures var i := PlaceOf(queues, p);
            Enqueued(queues, current, p, t)
            == Line(queues[..i] + [Queue(p, 0, [t])] + queues[i..], if i <= current then current + 1 else current)
  {
    var i := PlaceOf(queues, p);
    var o := Opened(queues, current, p);
    var q := Queue(p, 0, []);
    hide PlaceOf, Opened;
    assert o.queues[i] == q && q.(threads := [t] + q.threads) == Queue(p, 0, [t]);
    ReplacedBetween(queues[..i], q, queues[i..], Queue(p, 0, [t]));
  }

  lemma ReplacedBetween(a: seq<Queue>, q: Queue, b: seq<Queue>, r: Queue)
    ensures (a + [q] + b)[|a| := r] == a + [r] + b
  {}

  /**
   A ready thread can be missed.  From no queues at all: u and t start in two queues,
   u leaves after its turn and t is queued again after its own.  Then t is in the queue
   picked last, and the reset picks the empty front queue.
   */
  lemma ReadyThreadMissed(u: Tid, t: Tid)
    ensures var one := Enqueued([], -1, 0, u);
            var two := Enqueued(one.queues, one.current, 1, t);
            var first := TakeNext(two.queues, two.current);
            var second := TakeNext(first.queues, first.current);
            var back := Enqueued(second.queues, second.current, 1, t);
            && (two.queues == [] || -1 <= two.current < |two.queues|)
            && first.taken == Some(u) && second.taken == Some(t)
            && back == Line([Queue(0, 0, []), Queue(1, 1, [t])], 1)
            && TakeNext(back.queues, back.current).taken == None
  {
    StartOfTwo(u, t);
    FirstOfTwo(u, t);
    SecondOfTwo(t);
    var last := [Queue(0, 0, []), Queue(1, 1, [t])];
    EmptyPickExactly(last, 1);
  }

  lemma StartOfTwo(u: Tid, t: Tid)
    ensures var one := Enqueued([], -1, 0, u);
            Enqueued(one.queues, one.current, 1, t) == Line([Queue(0, 0, [u]), Queue(1, 0, [t])], -1)
  {
    EnqueuedAlone([], -1, 0, u);
    var q := [Queue(0, 0, [u])];
    assert Enqueued([], -1, 0, u) == Line(q, -1);
    assert PlaceOf(q, 1) == 1;
    EnqueuedAlone(q, -1, 1, t);
  }

  lemma FirstOfTwo(u: Tid, t: Tid)
    ensures TakeNext([Queue(0, 0, [u]), Queue(1, 0, [t])], -1) == Pop([Queue(0, 0, []), Queue(1, 2, [t])], 0, Some(u))
  {
    var start := [Queue(0, 0, [u]), Queue(1, 0, [t])];
    assert Reset(start) == [Queue(0, 1, [u]), Queue(1, 2, [t])];
    assert NextPick(start, -1) == Pick([Queue(0, 0, [u]), Queue(1, 2, [t])], 0, true);
  }

  lemma SecondOfTwo(t: Tid)
    ensures TakeNext([Queue(0, 0, []), Queue(1, 2, [t])], 0) == Pop([Queue(0, 0, []), Queue(1, 1, [])], 1, Some(t))
    ensures Enqueued([Queue(0, 0, []), Queue(1, 1, [])], 1, 1, t) == Line([Queue(0, 0, []), Queue(1, 1, [t])], 1)
  {
    var rest := [Queue(0, 0, []), Queue(1, 2, [t])];
    assert Eligible(rest, 0, 1) && !Eligible(rest, 0, 0);
    assert NextPick(rest, 0) == Pick([Queue(0, 0, []), Queue(1, 1, [t])], 1, false);
    var gone := [Queue(0, 0, []), Queue(1, 1, [])];
    assert PlaceOf(gone, 1) == 1 && Opened(gone, 1, 1) == Line(gone, 1) && [t] + [] == [t];
    assert gone[1 := Queue(1, 1, [t])] == [Queue(0, 0, []), Queue(1, 1, [t])];
  }

  // ------------------------------------------------------------ bounded waiting

  /**
   How many more picks can pass before a thread of queue k with `ahead` older
   threads in its queue is the next to be taken from it.
   */
  ghost function Patience(queues: seq<Queue>, k: nat, ahead: nat): nat
    requires k < |queues|
  {
    Total(queues) + Round(|queues|) * (ahead + if queues[k].opportunities == k + 1 then 0 else 1)
  }

  /**
   Each pick either takes from queue k, so that `ahead` drops or the thread is
   dispatched, or brings the thread strictly closer: no queued thread starves.
   */
  lemma NoStarvation(queues: seq<Queue>, current: int, k: nat, ahead: nat, after: seq<Queue>)
    requires Budgeted(queues, current) && k < |queues| && queues[k].threads != []
    requires SameBudget(NextPick(queues, current).queues, after)
    ensures var p := NextPick(queues, current);
            (p.picked != k ==> Patience(after, k, ahead) < Patience(queues, k, ahead)) &&
            (p.picked == k && ahead > 0 ==> Patience(after, k, ahead - 1) < Patience(queues, k, ahead))
  {
    var p := NextPick(queues, current);
    var n, r := |queues|, Round(|queues|);
    PickSpendsOne(queues, current);
    PickKeepsBudget(queues, current);
    TotalIgnoresThreads(p.queues, after);
    TotalBound(queues);
    if p.reset {
      ResetMeansAllServed(queues, current, k);
      assert r * (ahead + 1) == r * ahead + r;
      if p.picked != k {
        assert after[k].opportunities == k + 1;
      } else if ahead > 0 {
        assert r * (ahead - 1 + 1) == r * ahead;
      }
    } else if p.picked == k && ahead > 0 {
      assert r * (ahead - 1 + 1) == r * ahead;
      assert r * ahead <= r * (ahead + 1);
    }
  }

  /** t waits in queue k with `ahead` threads to be taken before it. */
  predicate WaitsIn(queues: seq<Queue>, k: nat, t: Tid, ahead: nat)
  {
    k < |queues| && ahead < |queues[k].threads| && queues[k].threads[|queues[k].threads| - 1 - ahead] == t
  }

  /** A pick of queue k takes the thread that has waited longest in it, and no other pick touches the queue. */
  lemma TurnComes(queues: seq<Queue>, current: int, k: nat, t: Tid, ahead: nat)
    requires Budgeted(queues, current) && WaitsIn(queues, k, t, ahead)
    ensures var n := TakeNext(queues, current);
            if n.current != k then WaitsIn(n.queues, k, t, ahead)
            else if ahead == 0 then n.taken == Some(t)
            else n.taken.Some? && WaitsIn(n.queues, k, t, ahead - 1)
  {
    hide NextPick;
    PickLeaves(queues, current, k);
  }

  /** A queued thread stands behind everybody who is in its queue already, and nobody else loses a place. */
  lemma NewestLast(queues: seq<Queue>, current: int, p: int, t: Tid)
    ensures var i, r := PlaceOf(queues, p), Enqueued(queues, current, p, t).queues;
            var added := i == |queues| || queues[i].priority != p;
            && i < |r| && r[i].priority == p
            && WaitsIn(r, i, t, if added then 0 else |queues[i].threads|)
            && forall k: nat, u: Tid, ahead: nat :: WaitsIn(queues, k, u, ahead) ==> WaitsIn(r, if added && i <= k then k + 1 else k, u, ahead)
  {
    var i, o := PlaceOf(queues, p), Opened(queues, current, p).queues;
    OpenedAt(queues, current, p);
    hide PlaceOf, Opened;
    assert Enqueued(queues, current, p, t).queues == o[i := o[i].(threads := [t] + o[i].threads)];
  }

  lemma OpenedAt(queues: seq<Queue>, current: int, p: int)
    ensures var i, o := PlaceOf(queues, p), Opened(queues, current, p).queues;
            var added := i == |queues| || queues[i].priority != p;
            && |o| == |queues| + (if added then 1 else 0) && i < |o| && o[i].priority == p
            && o[i].threads == (if added then [] else queues[i].threads)
            && forall k: nat :: k < |queues| ==> o[if added && i <= k then k + 1 else k] == queues[k]
  {
    var i, o := PlaceOf(queues, p), Opened(queues, current, p).queues;
    hide PlaceOf;
    if i == |queues| || queues[i].priority != p {
      assert o == queues[..i] + [Queue(p, 0, [])] + queues[i..];
      hide Opened;
      forall k: nat | k < |queues|
        ensures o[if i <= k then k + 1 else k] == queues[k]
      {}
    } else {
      assert o == queues;
    }
  }

  /**
   The waiting of t in queue k over steps [0, m): a pick of k takes its oldest
   thread, and every other change of the queue is an insertion at its front.
   */
  ghost predicate StillWaiting(states: seq<seq<Queue>>, currents: seq<int>, k: nat, t: Tid, ahead: seq<nat>, m: nat)
    requires |states| == |currents| && m < |states|
  {
    && |ahead| > m
    && (forall i :: 0 <= i <= m ==> WaitsIn(states[i], k, t, ahead[i]))
    && (forall i :: 0 <= i < m ==>
          if currents[i + 1] == k then ahead[i] > 0 && ahead[i + 1] == ahead[i] - 1 else ahead[i + 1] == ahead[i])
  }

  /** In every run, a thread is dispatched before n(n+1)/2 * (ahead + 2) picks have passed. */
  lemma {:induction false} BoundedWaiting(states: seq<seq<Queue>>, currents: seq<int>, k: nat, t: Tid, ahead: seq<nat>, m: nat)
    requires Run(states, currents) && m < |states|
    requires StillWaiting(states, currents, k, t, ahead, m)
    ensures k < |states[0]| && k < |states[m]|
    ensures Patience(states[m], k, ahead[m]) + m <= Patience(states[0], k, ahead[0])
    ensures m <= Round(|states[0]|) * (ahead[0] + 2)
  {
    assert WaitsIn(states[0], k, t, ahead[0]) && WaitsIn(states[m], k, t, ahead[m]);
    if m > 0 {
      BoundedWaiting(states, currents, k, t, ahead, m - 1);
      RunBudgeted(states, currents, m - 1);
      assert RunStep(states, currents, m - 1);
      assert WaitsIn(states[m - 1], k, t, ahead[m - 1]);
      NoStarvation(states[m - 1], currents[m - 1], k, ahead[m - 1], states[m]);
    }
    PatienceBound(states[0], k, ahead[0]);
  }

  lemma PatienceBound(queues: seq<Queue>, k: nat, ahead: nat)
    requires k < |queues| && forall i :: 0 <= i < |queues| ==> queues[i].opportunities <= i + 1
    ensures Patience(queues, k, ahead) <= Round(|queues|) * (ahead + 2)
  {
    TotalBound(queues);
    var r := Round(|queues|);
    assert r * (ahead + 2) == r + r * (ahead + 1);
    assert r * (ahead + 1) == r * ahead + r;
  }
}

/**
 The list of threads that wait for a mutex in kernel/tasks/sched.c.

 New waiters come to the front and the list is searched from the front, so newer
 waiters are served first.
 */
module WaitList {

  datatype Waiter = Waiter(tid: nat, mutex: nat)

  /** The first waiter whose mutex is not held; the length of the list if there is none. */
  function FirstFree(ws: seq<Waiter>, held: set<nat>): (i: nat)
    ensures i <= |ws|
    ensures i < |ws| ==> ws[i].mutex !in held
    ensures forall k :: 0 <= k < i ==> ws[k].mutex in held
  {
    if ws == [] || ws[0].mutex !in held then 0 else 1 + FirstFree(ws[1..], held)
  }

  function Without<T>(s: seq<T>, i: nat): seq<T>
    requires i < |s|
  {
    s[..i] + s[i + 1..]
  }

  /** What happens up to one search of the list: arrivals at the front, then the search with these mutexes held. */
  datatype Step = Step(arrivals: seq<Waiter>, held: set<nat>)

  /** The list after the step. */
  function After(ws: seq<Waiter>, step: Step): seq<Waiter>
  {
    var a := step.arrivals + ws;
    var i := FirstFree(a, step.held);
    if i == |a| then a else Without(a, i)
  }

  /** w stands at place p and is not served in any of the steps. */
  ghost predicate Waits(ws: seq<Waiter>, p: nat, w: Waiter, steps: seq<Step>)
    decreases |steps|
  {
    && p < |ws| && ws[p] == w
    && (steps != [] ==>
          var step := steps[0];
          var q, f := |step.arrivals| + p, FirstFree(step.arrivals + ws, step.held);
          f != q && Waits(After(ws, step), if f < q then q - 1 else q, w, steps[1..]))
  }

  ghost function Arrivals(steps: seq<Step>): nat
  {
    if steps == [] then 0 else |steps[0].arrivals| + Arrivals(steps[1..])
  }

  /** How many of the steps search the list while the mutex is free. */
  ghost function FreeSteps(steps: seq<Step>, mutex: nat): nat
  {
    if steps == [] then 0 else (if mutex in steps[0].held then 0 else 1) + FreeSteps(steps[1..], mutex)
  }

  lemma WaitsUnfold(ws: seq<Waiter>, p: nat, w: Waiter, steps: seq<Step>)
    requires Waits(ws, p, w, steps) && steps != []
    ensures var step := steps[0];
            var q, f := |step.arrivals| + p, FirstFree(step.arrivals + ws, step.held);
            p < |ws| && ws[p] == w && f != q && Waits(After(ws, step), if f < q then q - 1 else q, w, steps[1..])
  {
    hide FirstFree, After;
  }

  lemma FirstFreeBefore(ws: seq<Waiter>, held: set<nat>, q: nat)
    requires q < |ws| && ws[q].mutex !in held
    ensures FirstFree(ws, held) <= q
  {}

  /** One step: the place grows by the arrivals, and shrinks if somebody in front was served. */
  lemma WaitsStep(ws: seq<Waiter>, p: nat, w: Waiter, steps: seq<Step>) returns (p': nat)
    requires Waits(ws, p, w, steps) && steps != []
    ensures Waits(After(ws, steps[0]), p', w, steps[1..])
    ensures p' + (if w.mutex in steps[0].held then 0 else 1) <= p + |steps[0].arrivals|
  {
    hide Waits, FirstFree, After;
    var step := steps[0];
    var a := step.arrivals + ws;
    var q, f := |step.arrivals| + p, FirstFree(a, step.held);
    WaitsUnfold(ws, p, w, steps);
    assert a[q] == w;
    if w.mutex !in step.held {
      FirstFreeBefore(a, step.held, q);
    }
    p' := if f < q then q - 1 else q;
  }

  /** A waiter is passed over while its mutex is free at most once for each waiter before it, present or to come. */
  lemma {:induction false} PassedOverBound(ws: seq<Waiter>, p: nat, w: Waiter, steps: seq<Step>)
    requires Waits(ws, p, w, steps)
    ensures FreeSteps(steps, w.mutex) <= p + Arrivals(steps)
    decreases |steps|
  {
    hide Waits, FirstFree, After;
    if steps != [] {
      var p' := WaitsStep(ws, p, w, steps);
      PassedOverBound(After(ws, steps[0]), p', w, steps[1..]);
    }
  }

  /** n times a new waiter for the same mutex comes just before the list is searched. */
  ghost function Barge(n: nat, mutex: nat): seq<Step>
  {
    if n == 0 then [] else [Step([Waiter(n, mutex)], {})] + Barge(n - 1, mutex)
  }

  /** So no number of searches is enough: newer waiters can go first for ever. */
  lemma {:induction false} NewerGoFirst(n: nat, w: Waiter)
    ensures Waits([w], 0, w, Barge(n, w.mutex)) && FreeSteps(Barge(n, w.mutex), w.mutex) == n
  {
    if n > 0 {
      NewerGoFirst(n - 1, w);
      var steps := Barge(n, w.mutex);
      var step := Step([Waiter(n, w.mutex)], {});
      assert steps[0] == step && steps[1..] == Barge(n - 1, w.mutex);
      var a := [Waiter(n, w.mutex)] + [w];
      assert step.arrivals + [w] == a && FirstFree(a, {}) == 0;
      assert After([w], step) == [w];
      hide FirstFree, After;
    }
  }
}

/** Round robin: how far a READY thread is from the processor, and that every switch brings it
    nearer whatever the other threads do. */
module SchedulerFairness {
  import opened Links
  import opened Scheduler
  import opened SchedulerRuns
  import opened SchedulerProgress

  /** How many threads the scheduler looks at before thread t. */
  function Ahead(s: Sched, t: int): nat {
    IndexOf(Order(s.runQueue, s.current), t)
  }

  // ----- orders -----

  lemma IndexIs(q: seq<int>, i: nat)
    requires Distinct(q) && i < |q|
    ensures IndexOf(q, q[i]) == i
  {
  }

  lemma OrderMembers(q: seq<int>, current: int)
    requires Distinct(q) && current in q
    ensures Distinct(Order(q, current))
    ensures forall x :: x in Order(q, current) <==> x in q
  {
  }

  /** How far t stands behind `current`, going round a queue of n. */
  function Gap(current: nat, t: nat, n: nat): int {
    if t > current then t - current - 1 else t - current - 1 + n
  }

  lemma GapIs(q: seq<int>, current: int, t: int)
    requires Distinct(q) && current in q && t in q
    ensures IndexOf(Order(q, current), t) == Gap(IndexOf(q, current), IndexOf(q, t), |q|)
  {
  }

  /** Reaping and then looking is looking and then skipping the reaped. */
  lemma OrderKept(q: seq<int>, threads: map<int, Thread>, current: int)
    requires Distinct(q) && current in q
    ensures Order(Kept(q, threads, current), current) == Kept(Order(q, current), threads, current)
  {
    var k := IndexOf(q, current);
    var a, c, b := q[..k], [current], q[k + 1..];
    assert q == a + c + b && Order(q, current) == b + (a + c);
    var ka, kb := Kept(a, threads, current), Kept(b, threads, current);
    assert Kept(c, threads, current) == c;
    KeptConcat(a, c, threads, current);
    KeptConcat(a + c, b, threads, current);
    KeptConcat(b, a + c, threads, current);
    KeptDistinct(q, threads, current);
    var r := Kept(q, threads, current);
    assert r == ka + c + kb;
    assert r[|ka|] == current;
    IndexIs(r, |ka|);
  }

  lemma {:induction false} KeptIndex(q: seq<int>, threads: map<int, Thread>, current: int, t: int)
    requires !Reapable(threads, current, t)
    ensures IndexOf(Kept(q, threads, current), t) <= IndexOf(q, t)
    decreases |q|
  {
    if q != [] {
      KeptIndex(q[1..], threads, current, t);
      if !Reapable(threads, current, q[0]) {
        ConsIndex(q[0], Kept(q[1..], threads, current), t);
      } else {
        assert Kept(q, threads, current) == Kept(q[1..], threads, current);
      }
      ConsIndex(q[0], q[1..], t);
      assert q == [q[0]] + q[1..];
    }
  }

  lemma ConsIndex(h: int, q: seq<int>, t: int)
    ensures IndexOf([h] + q, t) == if h == t then 0 else IndexOf(q, t) + 1
  {
    var r := [h] + q;
    var k := IndexOf(q, t);
    assert r[0] == h && forall i :: 0 <= i < |q| ==> r[i + 1] == q[i];
    FirstIs(r, t, if h == t then 0 else k + 1);
  }

  lemma FirstIs(q: seq<int>, x: int, i: nat)
    requires i <= |q| && (i < |q| ==> q[i] == x) && forall j :: 0 <= j < i ==> q[j] != x
    ensures IndexOf(q, x) == i
  {
  }

  lemma FirstRunnableIndex(q: seq<int>, threads: map<int, Thread>, idle: int, t: int)
    requires Distinct(q) && 0 !in q && t in q && Runnable(threads, idle, t)
    ensures var f := FirstRunnable(q, threads, idle); f != 0 && f in q && IndexOf(q, f) <= IndexOf(q, t)
  {
  }

  // ----- one switch -----

  /** While a non-idle thread is READY, a yield always switches, never to the idle thread, and
      either dispatches it or brings it strictly nearer. */
  lemma YieldAdvances(s: Sched, t: int)
    requires Inv(s) && s.current in s.threads && s.threads[s.current].state != Ready
    requires Runnable(s.threads, s.idle, t)
    ensures Yield(s).Ok?
    ensures var r := Yield(s).value;
      && r.current != s.current && r.current != s.idle
      && (r.current == t || (Runnable(r.threads, r.idle, t) && Ahead(r, t) < Ahead(s, t)))
  {
    YieldIs(s);
    ReapSame(s);
    var k := Reap(s).value;
    assert Ahead(k, t) <= Ahead(s, t) by {
      assert ShowSched(0);
      OrderKept(s.runQueue, s.threads, s.current);
      KeptIndex(Order(s.runQueue, s.current), s.threads, s.current, t);
    }
    SelectNear(k, t);
    var r := Yield(s).value;
    if r.current != t {
      YieldThread(s, t);
    }
  }

  /** The thread selected stands at or before t, and t's distance from it is what remains. */
  lemma SelectNear(k: Sched, t: int)
    requires Inv(k) && k.current in k.threads && k.threads[k.current].state != Ready
    requires Runnable(k.threads, k.idle, t)
    ensures var n := Select(k);
      && n != 0 && n != k.current && n != k.idle
      && (n == t || IndexOf(Order(k.runQueue, n), t) < Ahead(k, t))
  {
    assert ShowSched(0);
    var o := Order(k.runQueue, k.current);
    OrderMembers(k.runQueue, k.current);
    FirstRunnableIndex(o, k.threads, k.idle, t);
    var n := Select(k);
    if n != t {
      RotatedNearer(k.runQueue, k.current, n, t);
    }
  }

  lemma RotatedNearer(q: seq<int>, current: int, n: int, t: int)
    requires Distinct(q) && current in q && n in q && t in q && n != t
    requires IndexOf(Order(q, current), n) <= IndexOf(Order(q, current), t)
    ensures IndexOf(Order(q, n), t) < IndexOf(Order(q, current), t)
  {
    GapIs(q, current, n);
    GapIs(q, current, t);
    GapIs(q, n, t);
    Apart(q, n, t);
    GapNearer(IndexOf(q, current), IndexOf(q, n), IndexOf(q, t), |q|);
  }

  lemma Apart(q: seq<int>, n: int, t: int)
    requires n in q && t in q && n != t
    ensures IndexOf(q, n) != IndexOf(q, t)
  {
  }

  lemma GapNearer(current: nat, n: nat, t: nat, size: nat)
    requires current < size && n < size && t < size && n != t && Gap(current, n, size) <= Gap(current, t, size)
    ensures Gap(n, t, size) < Gap(current, t, size)
  {
  }

  /** The idle thread is dispatched only when no other thread is READY. */
  lemma IdleOnlyWhenAlone(s: Sched)
    requires Inv(s) && s.current in s.threads && s.threads[s.current].state != Ready
    requires Yield(s).Ok? && Yield(s).value.current == s.idle != s.current
    ensures forall t :: t in s.threads && t != s.idle ==> s.threads[t].state != Ready
  {
    forall t | t in s.threads && t != s.idle && s.threads[t].state == Ready
      ensures false
    {
      YieldAdvances(s, t);
    }
  }

  // ----- one step -----

  function Switched(s: Sched, r: Sched): nat {
    if r.current == s.current then 0 else 1
  }

  function Created(op: Op): nat {
    if op.CreateThread? then 1 else 0
  }

  lemma CreateAhead(s: Sched, t: int, x: int)
    requires Inv(s) && s.current in s.threads && t in s.threads && x !in s.threads
    ensures Ahead(Create(s, x, false), t) <= Ahead(s, t) + 1
  {
    assert ShowSched(0);
    AppendedIndex(s.runQueue, s.current, t, x);
  }

  lemma AppendedIndex(q: seq<int>, current: int, t: int, x: int)
    requires Distinct(q) && current in q && t in q && x !in q
    ensures IndexOf(Order(q + [x], current), t) <= IndexOf(Order(q, current), t) + 1
  {
    var q' := q + [x];
    assert Distinct(q') && q'[IndexOf(q, current)] == current && q'[IndexOf(q, t)] == t;
    IndexIs(q', IndexOf(q, current));
    IndexIs(q', IndexOf(q, t));
    GapIs(q, current, t);
    GapIs(q', current, t);
  }

  lemma StepAdvances(s: Sched, op: Op, t: int)
    requires Inv(s) && Settled(s) && Legal(s, op) && Step(s, op).Ok? && Runnable(s.threads, s.idle, t)
    ensures var r := Step(s, op).value;
      || r.current == t
      || (Runnable(r.threads, r.idle, t) && Ahead(r, t) + Switched(s, r) <= Ahead(s, t) + Created(op))
    ensures Yields(s, op) ==> Switched(s, Step(s, op).value) == 1
  {
    if Yields(s, op) {
      MarkedStep(s, op);
      YieldAdvances(Marked(s, op), t);
      assert Ahead(Marked(s, op), t) == Ahead(s, t);
    } else {
      QuietStep(s, op, t);
      QuietQueue(s, op);
      if op.CreateThread? {
        CreateAhead(s, t, op.thread);
      }
    }
  }

  lemma QuietQueue(s: Sched, op: Op)
    requires Inv(s) && Settled(s) && Legal(s, op) && !Yields(s, op) && Step(s, op).Ok?
    ensures op.CreateThread? ==> Step(s, op).value == Create(s, op.thread, false)
    ensures !op.CreateThread? ==> Step(s, op).value.runQueue == s.runQueue
  {
    if op.WakeEvery? {
      WakeAllFrame(s, op.queue);
    }
  }

  // ----- runs -----

  /** Thread t is current at some point of the run. */
  ghost predicate Dispatched(s: Sched, ops: seq<Op>, t: int)
    requires LegalRun(s, ops)
    decreases |ops|
  {
    s.current == t || (ops != [] && Step(s, ops[0]).Ok? && Dispatched(Step(s, ops[0]).value, ops[1..], t))
  }

  function Switches(s: Sched, ops: seq<Op>): nat
    requires LegalRun(s, ops)
    decreases |ops|
  {
    if ops == [] || Step(s, ops[0]).Panic? then 0
    else Switched(s, Step(s, ops[0]).value) + Switches(Step(s, ops[0]).value, ops[1..])
  }

  function Creations(ops: seq<Op>): nat {
    if ops == [] then 0 else Created(ops[0]) + Creations(ops[1..])
  }

  lemma {:induction false} RunAdvances(s: Sched, ops: seq<Op>, t: int)
    requires Inv(s) && Settled(s) && LegalRun(s, ops) && Runnable(s.threads, s.idle, t)
    requires !Dispatched(s, ops, t)
    ensures Switches(s, ops) <= Ahead(s, t) + Creations(ops)
    decreases |ops|
  {
    if ops != [] && Step(s, ops[0]).Ok? {
      var r := Step(s, ops[0]).value;
      StepAdvances(s, ops[0], t);
      SettledStep(s, ops[0]);
      assert !Dispatched(r, ops[1..], t);
      assert r.current != t;
      RunAdvances(r, ops[1..], t);
    }
  }

  /** Bounded waiting: among n threads, a READY thread other than idle is dispatched within
      n - 1 switches, plus one for each thread created meanwhile, in every run. */
  lemma BoundedWaiting(s: Sched, ops: seq<Op>, t: int)
    requires Inv(s) && Settled(s) && LegalRun(s, ops) && Runnable(s.threads, s.idle, t)
    requires Switches(s, ops) >= |s.runQueue| - 1 + Creations(ops)
    ensures Dispatched(s, ops, t)
  {
    if !Dispatched(s, ops, t) {
      RunAdvances(s, ops, t);
      AheadBound(s, t);
    }
  }

  lemma AheadBound(s: Sched, t: int)
    requires Inv(s) && s.current in s.threads && t in s.threads && t != s.current
    ensures Ahead(s, t) + 2 <= |s.runQueue|
  {
    assert ShowSched(0);
    LastInOrder(s.runQueue, s.current, t);
  }

  lemma LastInOrder(q: seq<int>, current: int, t: int)
    requires Distinct(q) && current in q && t in q && t != current
    ensures IndexOf(Order(q, current), t) + 2 <= |q|
  {
  }

  /** A thread just created, one just preempted and one just woken get their turn in the same bound. */
  lemma CreatedRuns(s: Sched, t: int, ops: seq<Op>)
    requires Inv(s) && Settled(s) && Legal(s, CreateThread(t, false)) && LegalRun(Create(s, t, false), ops)
    requires Switches(Create(s, t, false), ops) >= |s.runQueue| + Creations(ops)
    ensures Dispatched(Create(s, t, false), ops, t)
  {
    SettledStep(s, CreateThread(t, false));
    BoundedWaiting(Create(s, t, false), ops, t);
  }

  lemma PreemptedRunsAgain(s: Sched, ops: seq<Op>)
    requires Inv(s) && Settled(s) && s.current != s.idle
    ensures Yield(s).Ok?
    ensures var r := Yield(s).value;
      LegalRun(r, ops) && Switches(r, ops) >= |r.runQueue| - 1 + Creations(ops) ==> Dispatched(r, ops, s.current)
  {
    SettledStep(s, Preempt);
    YieldThread(s, s.current);
    YieldNew(s);
    var r := Yield(s).value;
    if LegalRun(r, ops) && Switches(r, ops) >= |r.runQueue| - 1 + Creations(ops) && r.current != s.current {
      BoundedWaiting(r, ops, s.current);
    }
  }

  lemma WokenRuns(s: Sched, q: int, ops: seq<Op>)
    requires Inv(s) && Settled(s) && q in s.waiters && s.waiters[q] != [] && WakeOne(s, q).Ok? && s.waiters[q][0] != s.idle
    ensures var r := WakeOne(s, q).value;
      LegalRun(r, ops) && Switches(r, ops) >= |r.runQueue| - 1 + Creations(ops) ==> Dispatched(r, ops, s.waiters[q][0])
  {
    SettledStep(s, WakeFirst(q));
    var r := WakeOne(s, q).value;
    if LegalRun(r, ops) && Switches(r, ops) >= |r.runQueue| - 1 + Creations(ops) {
      BoundedWaiting(r, ops, s.waiters[q][0]);
    }
  }
}

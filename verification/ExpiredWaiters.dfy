/** Wakeups that race with an expired timed waiter: exactly when they panic, and that they can. */
module ExpiredWaiters {
  import opened Scheduler
  import opened SchedulerRuns

  predicate IsBlocked(s: Sched, t: int) {
    t in s.threads && (s.threads[t].state == Waiting || s.threads[t].state == Sleeping)
  }

  /** One wakeup leaves the other threads as they were. */
  lemma WakeOneOthers(s: Sched, q: int, t: int)
    requires Inv(s) && q in s.waiters && s.waiters[q] != [] && WakeOne(s, q).Ok? && t in s.waiters[q][1..]
    ensures IsBlocked(WakeOne(s, q).value, t) <==> IsBlocked(s, t)
  {
    assert ShowSched(0);
    assert QueueOk(s, q);
    QueueDistinct(s, q);
  }

  lemma WakeOneStep(s: Sched, q: int)
    requires Inv(s) && q in s.waiters && s.waiters[q] != []
    ensures WakeOne(s, q).Ok? <==> IsBlocked(s, s.waiters[q][0])
    ensures WakeOne(s, q).Ok? ==> WakeOne(s, q).value.waiters[q] == s.waiters[q][1..] && WakeOne(s, q).value.untimed == s.untimed
    ensures WakeAll(s, q) == if WakeOne(s, q).Ok? then WakeAll(WakeOne(s, q).value, q) else WakeOne(s, q)
  {
    assert ShowSched(0);
    assert QueueOk(s, q);
    assert MemberOk(s, q, s.waiters[q][0]);
  }

  /** Waking everyone panics exactly when someone on the queue is no longer blocked: a timed
      waiter that the timer made READY and that has not yet removed itself. */
  lemma {:induction false} WakeAllPanicsExactly(s: Sched, q: int)
    requires Inv(s) && q in s.waiters
    ensures WakeAll(s, q).Ok? <==> forall t :: t in s.waiters[q] ==> IsBlocked(s, t)
    decreases if q in s.waiters then |s.waiters[q]| else 0
  {
    var w := s.waiters[q];
    if w != [] {
      WakeOneStep(s, q);
      assert w == [w[0]] + w[1..];
      if WakeOne(s, q).Ok? {
        var s1 := WakeOne(s, q).value;
        WakeOneKeeps(s, q);
        WakeAllPanicsExactly(s1, q);
        forall t | t in w[1..]
          ensures IsBlocked(s1, t) <==> IsBlocked(s, t)
        {
          WakeOneOthers(s, q, t);
        }
      }
    }
  }

  // ----- a run that meets the panic -----

  lemma {:induction false} KeptAll(q: seq<int>, threads: map<int, Thread>, current: int)
    requires forall x :: x in q ==> !Reapable(threads, current, x)
    ensures Kept(q, threads, current) == q
    decreases |q|
  {
    if q != [] {
      KeptAll(q[1..], threads, current);
      assert q == [q[0]] + q[1..];
    }
  }

  lemma NothingToReap(s: Sched)
    requires forall t :: t in s.threads ==> s.threads[t].state != Zombie
    ensures Reap(s) == Ok(s)
  {
    KeptAll(s.runQueue, s.threads, s.current);
    var r := Reap(s);
    assert r.Ok? && r.value.threads == s.threads && r.value.released == s.released;
  }

  /** Thread 10 and the idle thread 20, which has just been made. */
  function Two(waiting: Thread, idle: Thread, w: seq<int>, current: int, tick: nat, arrivals: nat): Sched {
    Sched([10, 20], map[10 := waiting, 20 := idle], map[1 := w], {}, current, 20, tick, 3, arrivals, {})
  }

  const FRESH := Thread(1, Ready, 0, 0, Nothing, 0)
  const IDLE := Thread(2, Ready, 0, 0, Nothing, 0)
  const ASLEEP := Thread(1, Sleeping, 1, 1, Remove(1), 0)
  const EXPIRED := Thread(1, Ready, 0, 1, Remove(1), 0)

  lemma FirstSwitch()
    ensures Yield(Two(FRESH, IDLE, [], 0, 0, 0)) == Ok(Two(FRESH.(state := Running), IDLE, [], 10, 0, 0))
  {
    var s := Two(FRESH, IDLE, [], 0, 0, 0);
    NothingToReap(s);
    assert Order(s.runQueue, 0) == [10, 20];
    assert RunnableFrom([10, 20], s.threads, 20, 0) == 0;
    assert Select(s) == 10;
    assert s.threads[10 := FRESH.(state := Running)] == map[10 := FRESH.(state := Running), 20 := IDLE];
  }

  lemma ToIdle()
    ensures Yield(Two(ASLEEP, IDLE, [10], 10, 0, 1)) == Ok(Two(ASLEEP, IDLE.(state := Running), [10], 20, 0, 1))
  {
    var s := Two(ASLEEP, IDLE, [10], 10, 0, 1);
    NothingToReap(s);
    var o := Order(s.runQueue, 10);
    assert forall i :: 0 <= i < |o| ==> !Runnable(s.threads, 20, o[i]);
    assert Select(s) == 20;
    assert s.threads[20 := IDLE.(state := Running)] == map[10 := ASLEEP, 20 := IDLE.(state := Running)];
  }

  lemma TimedSleep()
    ensures TimedRound(Two(FRESH.(state := Running), IDLE, [], 10, 0, 0), 1, 0, 1, false) == Yield(Two(ASLEEP, IDLE, [10], 10, 0, 1))
  {
    var s := Two(FRESH.(state := Running), IDLE, [], 10, 0, 0);
    var s1 := SetThread(s, 10, FRESH.(state := Sleeping, wakeTick := 1));
    assert s1.threads[10].(queue := 1, resume := Remove(1), stamp := 0) == ASLEEP;
    assert s1.threads[10 := ASLEEP] == map[10 := ASLEEP, 20 := IDLE];
    assert s1.waiters[1] + [10] == [10];
    assert s1.waiters[1 := [10]] == map[1 := [10]];
    var e := Enqueue(s1, 1, Remove(1));
    assert e.Ok?;
    assert e.value.threads == map[10 := ASLEEP, 20 := IDLE] && e.value.waiters == map[1 := [10]];
    assert e.value == Two(ASLEEP, IDLE, [10], 10, 0, 1);
  }

  lemma Expires()
    ensures Tick(Two(ASLEEP, IDLE.(state := Running), [10], 20, 0, 1)) == Two(EXPIRED, IDLE.(state := Running), [10], 20, 1, 1)
  {
    var s := Two(ASLEEP, IDLE.(state := Running), [10], 20, 0, 1);
    assert s.runQueue[0] == 10;
    assert Tick(s).threads == map[10 := EXPIRED, 20 := IDLE.(state := Running)];
  }

  /** Thread 10 waits on queue 1 until tick 1 with only the idle thread beside it; the tick comes,
      and a wakeup finds it READY on the list. */
  lemma ExpiredWaiterPanics()
    ensures var s := Create(Create(Initial({1}, {}, 0), 10, false), 20, true);
      var ops := [Preempt] + ([TimedWaitRound(1, 0, 1, false)] + ([TimerTick] + [WakeFirst(1)]));
      LegalRun(s, ops) && Run(s, ops) == Panic(NotWaiting)
  {
    var s2 := Create(Create(Initial({1}, {}, 0), 10, false), 20, true);
    Made();
    FirstSwitch();
    LastPart();
    Prepend(s2, Preempt, [TimedWaitRound(1, 0, 1, false)] + ([TimerTick] + [WakeFirst(1)]));
  }

  lemma Made()
    ensures Create(Create(Initial({1}, {}, 0), 10, false), 20, true) == Two(FRESH, IDLE, [], 0, 0, 0)
  {
    var s2 := Create(Create(Initial({1}, {}, 0), 10, false), 20, true);
    assert s2.threads == map[10 := FRESH, 20 := IDLE];
    assert s2.waiters == map[1 := []];
  }

  lemma LastPart()
    ensures var s3 := Two(FRESH.(state := Running), IDLE, [], 10, 0, 0);
      var ops := [TimedWaitRound(1, 0, 1, false)] + ([TimerTick] + [WakeFirst(1)]);
      LegalRun(s3, ops) && Run(s3, ops) == Panic(NotWaiting)
  {
    TimedSleep();
    ToIdle();
    Expires();
    WakeFails();
    Prepend(Two(ASLEEP, IDLE.(state := Running), [10], 20, 0, 1), TimerTick, [WakeFirst(1)]);
    Prepend(Two(FRESH.(state := Running), IDLE, [], 10, 0, 0), TimedWaitRound(1, 0, 1, false), [TimerTick] + [WakeFirst(1)]);
  }

  lemma WakeFails()
    ensures var s5 := Two(EXPIRED, IDLE.(state := Running), [10], 20, 1, 1);
      LegalRun(s5, [WakeFirst(1)]) && Run(s5, [WakeFirst(1)]) == Panic(NotWaiting)
  {
    Prepend(Two(EXPIRED, IDLE.(state := Running), [10], 20, 1, 1), WakeFirst(1), []);
    assert [WakeFirst(1)] + [] == [WakeFirst(1)];
  }

  lemma Prepend(s: Sched, op: Op, ops: seq<Op>)
    requires Legal(s, op) && (Step(s, op).Ok? ==> LegalRun(Step(s, op).value, ops))
    ensures LegalRun(s, [op] + ops)
    ensures Run(s, [op] + ops) == if Step(s, op).Ok? then Run(Step(s, op).value, ops) else Step(s, op)
  {
    assert ([op] + ops)[0] == op && ([op] + ops)[1..] == ops;
  }
}

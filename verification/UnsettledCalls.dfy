/** Before the idle thread is up, a thread that sleeps with nothing else to run stays current, and
    the timer makes it READY. A run in which its next call then panics. */
module UnsettledCalls {
  import opened Scheduler
  import opened SchedulerRuns
  import opened ExpiredWaiters

  /** Thread 10 alone. */
  function One(th: Thread, current: int, tick: nat): Sched {
    Sched([10], map[10 := th], map[1 := []], {1}, current, 0, tick, 2, 0, {})
  }

  const SLEEPER := Thread(1, Sleeping, 1, 0, Nothing, 0)

  lemma FirstYield()
    ensures Yield(One(FRESH, 0, 0)) == Ok(One(FRESH.(state := Running), 10, 0))
  {
    var s := One(FRESH, 0, 0);
    NothingToReap(s);
    assert Order(s.runQueue, 0) == [10];
    assert RunnableFrom([10], s.threads, 0, 0) == 0;
    assert Select(s) == 10;
    assert s.threads[10 := FRESH.(state := Running)] == map[10 := FRESH.(state := Running)];
  }

  /** With nothing else to run, sched_yield() returns to the sleeper. */
  lemma StaysCurrent()
    ensures SleepUntil(One(FRESH.(state := Running), 10, 0), 1) == Ok(One(SLEEPER, 10, 0))
  {
    var s := One(SLEEPER, 10, 0);
    NothingToReap(s);
    var o := Order(s.runQueue, 10);
    assert forall i :: 0 <= i < |o| ==> !Runnable(s.threads, 0, o[i]);
    assert Select(s) == 0;
    assert SetThread(One(FRESH.(state := Running), 10, 0), 10, SLEEPER) == s by {
      assert map[10 := FRESH.(state := Running)][10 := SLEEPER] == map[10 := SLEEPER];
    }
  }

  lemma BecomesReady()
    ensures Tick(One(SLEEPER, 10, 0)) == One(FRESH, 10, 1)
  {
    assert One(SLEEPER, 10, 0).runQueue[0] == 10;
    assert Tick(One(SLEEPER, 10, 0)).threads == map[10 := FRESH];
  }

  lemma WaitFails()
    ensures Wait(One(FRESH, 10, 1), 1, Remove(1)) == Panic(BadTransition)
  {
  }

  /** Thread 10, alone, sleeps for a tick and then waits. */
  lemma UnsettledWaitPanics()
    ensures var s := Create(Initial({1}, {1}, 0), 10, false);
      var ops := [Preempt] + ([SleepTo(1)] + ([TimerTick] + ([WaitOn(1)] + [])));
      LegalRun(s, ops) && Run(s, ops) == Panic(BadTransition)
  {
    var s := Create(Initial({1}, {1}, 0), 10, false);
    assert s.threads == map[10 := FRESH] && s.waiters == map[1 := []];
    assert s == One(FRESH, 0, 0);
    FirstYield();
    StaysCurrent();
    BecomesReady();
    WaitFails();
    var s1 := One(FRESH.(state := Running), 10, 0);
    Prepend(One(FRESH, 10, 1), WaitOn(1), []);
    Prepend(One(SLEEPER, 10, 0), TimerTick, [WaitOn(1)] + []);
    Prepend(s1, SleepTo(1), [TimerTick] + ([WaitOn(1)] + []));
    Prepend(s, Preempt, [SleepTo(1)] + ([TimerTick] + ([WaitOn(1)] + [])));
  }
}

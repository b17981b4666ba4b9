/** Progress: once the idle thread is up, the current thread is always RUNNING and sleepers wake on
    their tick. */
module SchedulerProgress {
  import opened Scheduler
  import opened SchedulerRuns

  // ----- the settled scheduler -----

  predicate IdleUp(s: Sched) {
    && s.idle != 0 && s.idle in s.threads
    && s.threads[s.idle].resume == Nothing
    && (s.threads[s.idle].state == Ready || (s.threads[s.idle].state == Running && s.idle == s.current))
  }

  /** The idle thread exists, the current thread is RUNNING, and a WAITING thread is linked on
      the queue that can wake it. */
  ghost predicate Settled(s: Sched) {
    && IdleUp(s)
    && s.current in s.threads && s.threads[s.current].state == Running
    && forall t :: t in s.threads && s.threads[t].state == Waiting ==> s.threads[t].queue != 0
  }

  /** sched_yield() without its panics: reap, then move the processor to the chosen thread. */
  function Moves(k: Sched, next: int): Sched
    requires next in k.threads
  {
    var prev := if k.current in k.threads && k.threads[k.current].state == Running
                then k.threads[k.current := k.threads[k.current].(state := Ready, wakeTick := 0)] else k.threads;
    k.(threads := prev[next := k.threads[next].(state := Running)], current := next)
  }

  lemma YieldIs(s: Sched)
    requires Inv(s)
    ensures Reap(s).Ok? && Inv(Reap(s).value)
    ensures var k, n := Reap(s).value, Select(Reap(s).value);
      && (n != 0 ==> n in k.threads && k.threads[n].state == Ready)
      && Yield(s) == Ok(if n == 0 || n == k.current then k else Moves(k, n))
  {
    ReapKeeps(s);
    var k := Reap(s).value;
    if Select(k) != 0 {
      SelectReady(k);
    }
  }

  lemma ReapSame(s: Sched)
    requires Inv(s) && Reap(s).Ok?
    ensures Reap(s).value == s.(runQueue := Kept(s.runQueue, s.threads, s.current), threads := Reap(s).value.threads, released := Reap(s).value.released)
    ensures forall t :: t in Reap(s).value.threads <==> t in s.threads && !Reapable(s.threads, s.current, t)
    ensures forall t :: t in Reap(s).value.threads ==> Reap(s).value.threads[t] == s.threads[t]
  {
    assert ShowSched(0);
  }

  /** What sched_yield() does to a thread that it does not reap. */
  lemma YieldThread(s: Sched, t: int)
    requires Inv(s) && t in s.threads && !Reapable(s.threads, s.current, t)
    ensures Yield(s).Ok? && t in Yield(s).value.threads
    ensures YieldedThread(s, Yield(s).value, t)
  {
    YieldIs(s);
    ReapSame(s);
  }

  predicate YieldedThread(s: Sched, r: Sched, t: int)
    requires t in s.threads && t in r.threads
  {
    if r.current == s.current || (t != r.current && t != s.current) then r.threads[t] == s.threads[t]
    else if t == r.current then s.threads[t].state == Ready && r.threads[t] == s.threads[t].(state := Running)
    else r.threads[t] == if s.threads[t].state == Running then s.threads[t].(state := Ready, wakeTick := 0) else s.threads[t]
  }

  lemma YieldNew(s: Sched)
    requires Inv(s)
    ensures Yield(s).Ok?
    ensures forall t :: t in Yield(s).value.threads ==> t in s.threads && !Reapable(s.threads, s.current, t)
    ensures var r := Yield(s).value; r.tick == s.tick && r.idle == s.idle && r.waiters == s.waiters
  {
    YieldIs(s);
    ReapSame(s);
  }

  /** With the idle thread up, a yield stays put only on a RUNNING idle or READY current thread. */
  lemma YieldMoves(s: Sched)
    requires Inv(s) && IdleUp(s)
    requires s.current == 0 || (s.current in s.threads && s.threads[s.current].state != Ready)
    ensures Yield(s).Ok?
    ensures var r := Yield(s).value;
      && r.current in r.threads && r.threads[r.current].state == Running
      && (r.current == s.current ==> s.current == s.idle)
  {
    YieldIs(s);
    ReapSame(s);
  }

  /** With the idle thread up, a yield from a thread that is not READY ends with a RUNNING one. */
  lemma YieldSettles(s: Sched)
    requires Inv(s) && IdleUp(s)
    requires s.current == 0 || (s.current in s.threads && s.threads[s.current].state != Ready)
    requires forall t :: t in s.threads && s.threads[t].state == Waiting ==> s.threads[t].queue != 0
    ensures Yield(s).Ok? && Settled(Yield(s).value)
  {
    YieldNew(s);
    YieldMoves(s);
    YieldThread(s, s.idle);
    var r := Yield(s).value;
    forall t | t in r.threads && r.threads[t].state == Waiting
      ensures r.threads[t].queue != 0
    {
      YieldThread(s, t);
    }
  }

  lemma BlockSettles(s: Sched, m: Sched)
    requires Settled(s) && Inv(m) && s.current != s.idle
    requires m.current == s.current && m.idle == s.idle && m.threads.Keys == s.threads.Keys
    requires m.threads[s.current].state != Ready
    requires m.threads[s.current].state == Waiting ==> m.threads[s.current].queue != 0
    requires forall t :: t in s.threads && t != s.current ==> m.threads[t] == s.threads[t]
    ensures Yield(m).Ok? && Settled(Yield(m).value)
  {
    YieldSettles(m);
  }

  /** The state in which a blocking call of the current thread yields. */
  predicate Yields(s: Sched, op: Op) {
    op.Preempt? || op.SleepTo? || op.WaitOn? || op.SleepOn? || op.ExitThread?
    || (op.TimedWaitRound? && TimedVerdict(op.now, op.deadline, op.condition) == Blocked)
  }

  function Marked(s: Sched, op: Op): Sched
    requires Legal(s, op) && Yields(s, op) && (op.Preempt? || s.current in s.threads)
  {
    if op.Preempt? then s
    else
      var th := s.threads[s.current];
      match op
      case SleepTo(deadline) => SetThread(s, s.current, th.(state := Sleeping, wakeTick := deadline))
      case WaitOn(q) => Joined(s, q, s.current, th.(state := Waiting, wakeTick := 0, queue := q, resume := Remove(q), stamp := s.arrivals))
      case SleepOn(q) => Joined(s, q, s.current, th.(state := Waiting, wakeTick := 0, queue := q, resume := Recheck(q), stamp := s.arrivals))
      case TimedWaitRound(q, _, deadline, _) =>
        Joined(s, q, s.current, th.(state := Sleeping, wakeTick := deadline, queue := q, resume := Remove(q), stamp := s.arrivals))
      case _ => SetThread(s, s.current, th.(state := Zombie, wakeTick := 0))
  }

  /** Every yielding step of a RUNNING thread is a yield from its marked state. */
  lemma MarkedStep(s: Sched, op: Op)
    requires Inv(s) && Legal(s, op) && Yields(s, op)
    requires op.Preempt? || (s.current in s.threads && s.threads[s.current].state == Running)
    ensures Inv(Marked(s, op)) && Step(s, op) == Yield(Marked(s, op))
  {
    assert ShowSched(0);
    if !op.Preempt? {
      assert ThreadOk(s, s.current);
      var m := Marked(s, op);
      var th := m.threads[s.current];
      match op
      case SleepTo(_) => MarkKeeps(s, th);
      case WaitOn(q) => assert QueueOk(s, q); JoinKeeps(s, q, s.current, th); WaitMarked(s, q, Remove(q));
      case SleepOn(q) => assert QueueOk(s, q); JoinKeeps(s, q, s.current, th); WaitMarked(s, q, Recheck(q));
      case TimedWaitRound(q, _, deadline, _) =>
        assert QueueOk(s, q);
        JoinKeeps(s, q, s.current, th);
        TimedMarked(s, q, deadline);
      case _ => MarkKeeps(s, th);
    }
  }

  lemma WaitMarked(s: Sched, q: int, resume: Resume)
    requires s.current in s.threads && s.threads[s.current].state == Running && s.threads[s.current].queue == 0 && q in s.waiters
    ensures var th := s.threads[s.current].(state := Waiting, wakeTick := 0, queue := q, resume := resume, stamp := s.arrivals);
      Wait(s, q, resume) == Yield(Joined(s, q, s.current, th))
  {
    var e := Enqueue(s, q, resume).value;
    var th := s.threads[s.current].(state := Waiting, wakeTick := 0, queue := q, resume := resume, stamp := s.arrivals);
    assert SetThread(e, s.current, th) == Joined(s, q, s.current, th);
  }

  lemma TimedMarked(s: Sched, q: int, deadline: nat)
    requires s.current in s.threads && s.threads[s.current].state == Running && s.threads[s.current].queue == 0 && q in s.waiters
    ensures var th := s.threads[s.current].(state := Sleeping, wakeTick := deadline);
      var th2 := th.(queue := q, resume := Remove(q), stamp := s.arrivals);
      Enqueue(SetThread(s, s.current, th), q, Remove(q)) == Ok(Joined(s, q, s.current, th2))
  {
    var th := s.threads[s.current].(state := Sleeping, wakeTick := deadline);
    var th2 := th.(queue := q, resume := Remove(q), stamp := s.arrivals);
    assert SetThread(SetThread(s, s.current, th), s.current, th2) == SetThread(s, s.current, th2);
  }

  // ----- every step of a settled scheduler keeps it settled -----

  /** The step wakes nobody on queue q. */
  predicate Spares(op: Op, q: int) {
    q == 0 || !((op.WakeFirst? || op.WakeEvery?) && op.queue == q)
  }

  /** The steps that do not yield: what they do to a thread other than the current one. */
  lemma QuietStep(s: Sched, op: Op, t: int)
    requires Inv(s) && Settled(s) && Legal(s, op) && !Yields(s, op) && Step(s, op).Ok? && t in s.threads
    ensures var r := Step(s, op).value;
      && r.current == s.current && r.idle == s.idle && t in r.threads
      && (s.threads[t].state == Ready || s.threads[t].state == Running ==> r.threads[t].state == s.threads[t].state)
      && (s.threads[t].state == Sleeping && Spares(op, s.threads[t].queue) && !op.TimerTick? ==> r.threads[t] == s.threads[t])
      && (r.threads[t].state == Waiting ==> r.threads[t].queue != 0)
      && (t == s.idle ==> r.threads[t].resume == Nothing)
  {
    assert ShowSched(0);
    assert ThreadOk(s, t) && ThreadOk(s, s.current);
    match op
    case WakeFirst(q) => WakeOneThread(s, q, t);
    case WakeEvery(q) => WakeAllThread(s, q, t);
    case _ =>
  }

  lemma WakeOneThread(s: Sched, q: int, t: int)
    requires Inv(s) && q in s.waiters && WakeOne(s, q).Ok? && t in s.threads
    ensures var r := WakeOne(s, q).value;
      && r == s.(threads := r.threads, waiters := r.waiters) && t in r.threads
      && q != 0 && (s.threads[t].queue != q ==> r.threads[t] == s.threads[t])
      && (r.threads[t] == s.threads[t] || (r.threads[t].state == Ready && (s.threads[t].state == Waiting || s.threads[t].state == Sleeping)))
      && r.threads[t].resume == s.threads[t].resume && r.threads[t].id == s.threads[t].id
      && (s.threads[t].state != Waiting ==> r.threads[t].state != Waiting)
  {
    assert ShowSched(0);
    assert QueueOk(s, q);
    if s.waiters[q] != [] {
      assert MemberOk(s, q, s.waiters[q][0]);
    }
  }

  lemma {:induction false} WakeAllThread(s: Sched, q: int, t: int)
    requires Inv(s) && q in s.waiters && WakeAll(s, q).Ok? && t in s.threads
    ensures var r := WakeAll(s, q).value;
      && r == s.(threads := r.threads, waiters := r.waiters) && t in r.threads
      && q != 0 && (s.threads[t].queue != q ==> r.threads[t] == s.threads[t])
      && (r.threads[t] == s.threads[t] || (r.threads[t].state == Ready && (s.threads[t].state == Waiting || s.threads[t].state == Sleeping)))
      && r.threads[t].resume == s.threads[t].resume && r.threads[t].id == s.threads[t].id
    decreases if q in s.waiters then |s.waiters[q]| else 0
  {
    WakeOneThread(s, q, t);
    if s.waiters[q] != [] {
      WakeOneKeeps(s, q);
      WakeAllThread(WakeOne(s, q).value, q, t);
    }
  }

  /** Settled steps: only a wakeup on a queue with timed waiters can panic. */
  lemma SettledStep(s: Sched, op: Op)
    requires Inv(s) && Settled(s) && Legal(s, op)
    ensures Step(s, op).Ok? ==> Inv(Step(s, op).value) && Settled(Step(s, op).value)
    ensures Step(s, op).Panic? ==> Step(s, op).reason == NotWaiting && (op.WakeFirst? || op.WakeEvery?) && op.queue !in s.untimed
  {
    StepKeeps(s, op);
    if Yields(s, op) {
      MarkedStep(s, op);
      YieldingSettles(s, op);
    } else if Step(s, op).Ok? {
      var r := Step(s, op).value;
      QuietStep(s, op, s.idle);
      QuietStep(s, op, s.current);
      forall t | t in r.threads && r.threads[t].state == Waiting
        ensures r.threads[t].queue != 0
      {
        QuietThreads(s, op, t);
        QuietStep(s, op, t);
      }
    }
  }

  lemma QuietThreads(s: Sched, op: Op, t: int)
    requires Inv(s) && Settled(s) && Legal(s, op) && !Yields(s, op) && Step(s, op).Ok?
    requires t in Step(s, op).value.threads && Step(s, op).value.threads[t].state == Waiting
    ensures t in s.threads
  {
    if op.WakeEvery? {
      WakeAllFrame(s, op.queue);
    }
  }

  lemma YieldingSettles(s: Sched, op: Op)
    requires Inv(s) && Settled(s) && Legal(s, op) && Yields(s, op) && Inv(Marked(s, op))
    ensures Yield(Marked(s, op)).Ok? && Settled(Yield(Marked(s, op)).value)
  {
    assert ShowSched(0);
    if op.Preempt? {
      YieldSettles(s);
    } else {
      if op.WaitOn? || op.SleepOn? || op.TimedWaitRound? {
        assert QueueOk(s, op.queue);
      }
      BlockSettles(s, Marked(s, op));
    }
  }

  /** From the first yield after the idle thread is made, no run panics unless some wait queue
      has timed waiters, and the scheduler stays settled. */
  lemma {:induction false} SettledRun(s: Sched, ops: seq<Op>)
    requires Inv(s) && Settled(s) && LegalRun(s, ops)
    ensures Run(s, ops).Ok? ==> Inv(Run(s, ops).value) && Settled(Run(s, ops).value)
    ensures Run(s, ops).Panic? ==> Run(s, ops).reason == NotWaiting && exists q :: q in s.waiters && q !in s.untimed
    decreases |ops|
  {
    if ops != [] {
      SettledStep(s, ops[0]);
      if Step(s, ops[0]).Ok? {
        SettledRun(Step(s, ops[0]).value, ops[1..]);
      }
    }
  }

  // ----- exiting -----

  /** Every thread is one that was there, which stays dead if it was, or the one just created. */
  lemma WhoIsThere(s: Sched, op: Op, t: int)
    requires Inv(s) && Settled(s) && Legal(s, op) && Step(s, op).Ok? && t in Step(s, op).value.threads
    ensures var r := Step(s, op).value;
      || (t in s.threads && r.threads[t].id == s.threads[t].id && (s.threads[t].state == Zombie ==> r.threads[t].state == Zombie))
      || (t !in s.threads && op.CreateThread? && r.threads[t].id == s.nextId)
  {
    if Yields(s, op) {
      MarkedStep(s, op);
      YieldNew(Marked(s, op));
      YieldThread(Marked(s, op), t);
    } else {
      match op
      case WakeFirst(q) => WakeOneThread(s, q, t);
      case WakeEvery(q) =>
        WakeAllFrame(s, q);
        WakeAllThread(s, q, t);
      case _ =>
    }
  }

  /** No thread of that identity is left but as a zombie. */
  ghost predicate Exited(s: Sched, id: nat) {
    id < s.nextId && forall t :: t in s.threads && s.threads[t].id == id ==> s.threads[t].state == Zombie
  }

  lemma NextIdGrows(s: Sched, op: Op)
    requires Inv(s) && Settled(s) && Legal(s, op) && Step(s, op).Ok?
    ensures s.nextId <= Step(s, op).value.nextId
  {
    if Yields(s, op) {
      MarkedStep(s, op);
      YieldIs(Marked(s, op));
      ReapSame(Marked(s, op));
    } else if op.WakeEvery? {
      WakeAllFrame(s, op.queue);
    }
  }

  /** A thread that has exited never runs again, in any run. */
  lemma {:induction false} ExitedForGood(s: Sched, ops: seq<Op>, id: nat)
    requires Inv(s) && Settled(s) && LegalRun(s, ops) && Run(s, ops).Ok? && Exited(s, id)
    ensures var r := Run(s, ops).value;
      Exited(r, id) && r.current in r.threads && r.threads[r.current].id != id
    decreases |ops|
  {
    if ops != [] {
      var r := Step(s, ops[0]).value;
      SettledStep(s, ops[0]);
      NextIdGrows(s, ops[0]);
      forall t | t in r.threads && r.threads[t].id == id
        ensures r.threads[t].state == Zombie
      {
        WhoIsThere(s, ops[0], t);
      }
      ExitedForGood(r, ops[1..], id);
    }
  }

  /** sched_thread_exit() of the RUNNING thread does not panic, and is the end of it. */
  lemma ExitIsFinal(s: Sched, ops: seq<Op>)
    requires Inv(s) && Settled(s) && CanCall(s)
    ensures Exit(s).Ok?
    ensures var s1, id := Exit(s).value, s.threads[s.current].id;
      LegalRun(s1, ops) && Run(s1, ops).Ok? ==>
        var r := Run(s1, ops).value;
        Exited(r, id) && r.current in r.threads && r.threads[r.current].id != id
  {
    SettledStep(s, ExitThread);
    var s1, id := Exit(s).value, s.threads[s.current].id;
    if LegalRun(s1, ops) && Run(s1, ops).Ok? {
      ExitStarts(s);
      ExitedForGood(s1, ops, id);
    }
  }

  lemma ExitStarts(s: Sched)
    requires Inv(s) && Settled(s) && CanCall(s)
    ensures Exit(s).Ok? && Exited(Exit(s).value, s.threads[s.current].id)
  {
    SettledStep(s, ExitThread);
    MarkedStep(s, ExitThread);
    NextIdGrows(s, ExitThread);
    var m, r, id := Marked(s, ExitThread), Exit(s).value, s.threads[s.current].id;
    assert ShowSched(0);
    assert ThreadOk(s, s.current);
    YieldNew(m);
    forall t | t in r.threads && r.threads[t].id == id
      ensures r.threads[t].state == Zombie
    {
      YieldThread(m, t);
      assert t in s.threads && s.threads[t].id == id;
    }
  }

  // ----- sleeping -----

  /** A sleeping thread is left alone by everything but its own tick and a wakeup of its queue. */
  lemma SleeperStep(s: Sched, op: Op, t: int)
    requires Inv(s) && Settled(s) && Legal(s, op) && Step(s, op).Ok?
    requires t in s.threads && s.threads[t].state == Sleeping && Spares(op, s.threads[t].queue)
    ensures var r := Step(s, op).value;
      && t in r.threads
      && r.tick == s.tick + (if op.TimerTick? then 1 else 0)
      && (op.TimerTick? && s.threads[t].wakeTick <= r.tick ==> r.threads[t].state == Ready)
      && (!(op.TimerTick? && s.threads[t].wakeTick <= r.tick) ==> r.threads[t] == s.threads[t])
  {
    if Yields(s, op) {
      MarkedStep(s, op);
      var m := Marked(s, op);
      YieldNew(m);
      YieldThread(m, t);
    } else {
      QuietStep(s, op, t);
      assert ShowSched(0);
      if op.WakeEvery? {
        WakeAllThread(s, op.queue, t);
      } else if op.WakeFirst? {
        WakeOneThread(s, op.queue, t);
      }
    }
  }

  /** The clock at which a sleeper wakes: its deadline, or the next tick if that has passed. */
  function WakesAt(s: Sched, t: int): int
    requires t in s.threads
  {
    if s.threads[t].wakeTick > s.tick then s.threads[t].wakeTick else s.tick + 1
  }

  lemma {:induction false} SleeperRun(s: Sched, ops: seq<Op>, t: int)
    requires Inv(s) && Settled(s) && LegalRun(s, ops) && Run(s, ops).Ok?
    requires t in s.threads && s.threads[t].state == Sleeping
    requires forall i :: 0 <= i < |ops| ==> Spares(ops[i], s.threads[t].queue)
    ensures var r, w := Run(s, ops).value, WakesAt(s, t);
      && s.tick <= r.tick
      && (r.tick < w ==> t in r.threads && r.threads[t] == s.threads[t])
      && (r.tick + 1 == w ==> Tick(r).threads[t].state == Ready)
    decreases |ops|
  {
    if ops == [] {
      assert ShowSched(0);
    } else {
      var r := Step(s, ops[0]).value;
      SleeperStep(s, ops[0], t);
      SettledStep(s, ops[0]);
      if r.tick < WakesAt(s, t) {
        assert r.threads[t] == s.threads[t] && WakesAt(r, t) == WakesAt(s, t);
        SleeperRun(r, ops[1..], t);
      } else {
        ClockOnlyGrows(r, ops[1..]);
      }
    }
  }

  lemma {:induction false} ClockOnlyGrows(s: Sched, ops: seq<Op>)
    requires Inv(s) && LegalRun(s, ops) && Run(s, ops).Ok?
    ensures s.tick <= Run(s, ops).value.tick
    decreases |ops|
  {
    if ops != [] {
      StepKeeps(s, ops[0]);
      ClockOnlyGrows(Step(s, ops[0]).value, ops[1..]);
    }
  }

  /** A sleep to a deadline k ticks ahead, then any run: the sleeper is SLEEPING while the clock
      is below the deadline, and READY right after the tick that reaches it. */
  lemma SleepLasts(s: Sched, deadline: nat, ops: seq<Op>)
    requires Inv(s) && Settled(s) && CanCall(s) && s.tick < deadline
    ensures SleepUntil(s, deadline).Ok?
    ensures var s1 := SleepUntil(s, deadline).value;
      LegalRun(s1, ops) && Run(s1, ops).Ok? ==>
        var r := Run(s1, ops).value;
        && (r.tick < deadline ==> s.current in r.threads && r.threads[s.current].state == Sleeping)
        && (r.tick + 1 == deadline ==> Tick(r).threads[s.current].state == Ready)
  {
    SleepStarts(s, deadline);
    var s1 := SleepUntil(s, deadline).value;
    if LegalRun(s1, ops) && Run(s1, ops).Ok? {
      SleeperRun(s1, ops, s.current);
    }
  }

  /** A timed wait that blocks, then any run without a wakeup of its queue: the caller sleeps at the
      end of the queue until the clock reaches the deadline, and is READY right after that tick. */
  lemma TimedWaitLasts(s: Sched, q: int, now: nat, deadline: nat, ops: seq<Op>)
    requires Inv(s) && Settled(s) && Legal(s, TimedWaitRound(q, now, deadline, false)) && now < deadline
    requires forall i :: 0 <= i < |ops| ==> Spares(ops[i], q)
    ensures TimedRound(s, q, now, deadline, false).Ok?
    ensures var s1 := TimedRound(s, q, now, deadline, false).value;
      var w := if deadline > s.tick then deadline else s.tick + 1;
      && s1.waiters == s.waiters[q := s.waiters[q] + [s.current]]
      && (LegalRun(s1, ops) && Run(s1, ops).Ok? ==>
            var r := Run(s1, ops).value;
            && (r.tick < w ==> s.current in r.threads && r.threads[s.current].state == Sleeping && r.threads[s.current].queue == q)
            && (r.tick + 1 == w ==> Tick(r).threads[s.current].state == Ready))
  {
    TimedWaitStarts(s, q, now, deadline);
    var s1 := TimedRound(s, q, now, deadline, false).value;
    if LegalRun(s1, ops) && Run(s1, ops).Ok? {
      SleeperRun(s1, ops, s.current);
    }
  }

  lemma TimedWaitStarts(s: Sched, q: int, now: nat, deadline: nat)
    requires Inv(s) && Settled(s) && Legal(s, TimedWaitRound(q, now, deadline, false)) && now < deadline
    ensures TimedRound(s, q, now, deadline, false).Ok?
    ensures var r := TimedRound(s, q, now, deadline, false).value;
      && Inv(r) && Settled(r) && r.tick == s.tick && s.current in r.threads
      && r.threads[s.current].state == Sleeping && r.threads[s.current].wakeTick == deadline && r.threads[s.current].queue == q
      && r.waiters == s.waiters[q := s.waiters[q] + [s.current]]
  {
    var op := TimedWaitRound(q, now, deadline, false);
    SettledStep(s, op);
    MarkedStep(s, op);
    var m := Marked(s, op);
    YieldNew(m);
    YieldThread(m, s.current);
  }

  lemma SleepStarts(s: Sched, deadline: nat)
    requires Inv(s) && Settled(s) && CanCall(s) && s.tick < deadline
    ensures SleepUntil(s, deadline).Ok?
    ensures var r := SleepUntil(s, deadline).value;
      && Inv(r) && Settled(r) && r.tick == s.tick && s.current in r.threads
      && r.threads[s.current] == s.threads[s.current].(state := Sleeping, wakeTick := deadline)
      && r.threads[s.current].queue == 0
  {
    var op := SleepTo(deadline);
    SettledStep(s, op);
    MarkedStep(s, op);
    var m := Marked(s, op);
    YieldNew(m);
    YieldThread(m, s.current);
    assert ShowSched(0);
    assert ThreadOk(s, s.current);
  }
}

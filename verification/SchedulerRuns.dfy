/** Runs of the scheduler: what every run keeps, which panics are reachable, and where a
    thread can be found. */
module SchedulerRuns {
  import opened Scheduler

  datatype Op =
    | Preempt
    | SleepTo(deadline: nat)
    | WaitOn(queue: int)
    | SleepOn(queue: int)
    | TimedWaitRound(queue: int, now: nat, deadline: nat, condition: bool)
    | Continue
    | ExitThread
    | CreateThread(thread: int, idle: bool)
    | WakeFirst(queue: int)
    | WakeEvery(queue: int)
    | TimerTick

  /** Is the operation a call made by the current thread? */
  predicate OfCurrent(op: Op) {
    op.SleepTo? || op.WaitOn? || op.SleepOn? || op.TimedWaitRound? || op.ExitThread? || op.Continue?
  }

  /** The current thread can make a call: it is not the idle loop, it has not exited, and it is
      not in the middle of a wait. */
  predicate CanCall(s: Sched) {
    s.current in s.threads && s.current != s.idle && s.threads[s.current].state != Zombie && s.threads[s.current].resume == Nothing
  }

  /** Queues exist and are used as declared; created threads are at fresh addresses; there is
      one idle thread. */
  predicate Legal(s: Sched, op: Op) {
    match op
    case Preempt => true
    case SleepTo(deadline) => CanCall(s) && s.tick < deadline
    case WaitOn(q) => CanCall(s) && q in s.waiters
    case SleepOn(q) => CanCall(s) && q in s.waiters
    case TimedWaitRound(q, now, _, _) => CanCall(s) && q in s.waiters && q !in s.untimed && now <= s.tick
    case Continue => s.current in s.threads && s.threads[s.current].resume != Nothing
    case ExitThread => CanCall(s)
    case CreateThread(t, idle) => t != 0 && t !in s.threads && (idle ==> s.idle == 0)
    case WakeFirst(q) => q in s.waiters
    case WakeEvery(q) => q in s.waiters
    case TimerTick => true
  }

  function Step(s: Sched, op: Op): (r: Outcome<Sched>)
    requires Legal(s, op)
    ensures r.Ok? ==> Grows(s, r.value)
  {
    match op
    case Preempt => Yield(s)
    case SleepTo(deadline) => SleepUntil(s, deadline)
    case WaitOn(q) => Wait(s, q, Remove(q))
    case SleepOn(q) => Wait(s, q, Recheck(q))
    case TimedWaitRound(q, now, deadline, condition) => TimedRound(s, q, now, deadline, condition)
    case Continue => Finish(s)
    case ExitThread => Exit(s)
    case CreateThread(t, idle) => Ok(Create(s, t, idle))
    case WakeFirst(q) => WakeOne(s, q)
    case WakeEvery(q) => WakeAll(s, q)
    case TimerTick => Ok(Tick(s))
  }

  // ----- each step keeps the invariant -----

  /** Blocking the current thread without queueing it. */
  lemma MarkKeeps(s: Sched, th: Thread)
    requires Inv(s) && CanCall(s)
    requires th == s.threads[s.current].(state := th.state, wakeTick := th.wakeTick)
    requires th.state == Sleeping || th.state == Zombie || th.state == s.threads[s.current].state
    requires th.wakeTick != 0 ==> th.state == Sleeping
    ensures Inv(SetThread(s, s.current, th))
    ensures Yield(SetThread(s, s.current, th)).Ok? && Inv(Yield(SetThread(s, s.current, th)).value)
  {
    assert ShowSched(0);
    RunningIsCurrent(s);
    assert ThreadOk(s, s.current);
    UpdateKeeps(s, s.current, th, s.current);
    assert SetThread(s, s.current, th).(current := s.current) == SetThread(s, s.current, th);
    YieldKeeps(SetThread(s, s.current, th));
  }

  lemma SleepUntilKeeps(s: Sched, deadline: nat)
    requires Inv(s) && CanCall(s)
    ensures SleepUntil(s, deadline).Ok? ==> Inv(SleepUntil(s, deadline).value)
    ensures SleepUntil(s, deadline).Ok? <==> Moved(s.threads[s.current], Sleeping, deadline).Ok?
    ensures SleepUntil(s, deadline).Panic? ==> SleepUntil(s, deadline).reason == BadTransition && s.threads[s.current].state != Running
  {
    assert ShowSched(0);
    var m := Moved(s.threads[s.current], Sleeping, deadline);
    if m.Ok? {
      MarkKeeps(s, m.value);
    }
  }

  lemma ExitKeeps(s: Sched)
    requires Inv(s) && CanCall(s)
    ensures Exit(s).Ok? ==> Inv(Exit(s).value)
    ensures Exit(s).Ok? <==> Moved(s.threads[s.current], Zombie, 0).Ok?
    ensures Exit(s).Panic? ==> Exit(s).reason == BadTransition && s.threads[s.current].state != Running
  {
    assert ShowSched(0);
    assert ThreadOk(s, s.current);
    var m := Moved(s.threads[s.current], Zombie, 0);
    if m.Ok? {
      MarkKeeps(s, m.value);
    }
  }

  lemma WaitKeeps(s: Sched, q: int, resume: Resume)
    requires Inv(s) && CanCall(s) && q in s.waiters && (resume == Remove(q) || resume == Recheck(q))
    ensures Wait(s, q, resume).Ok? ==> Inv(Wait(s, q, resume).value)
    ensures Wait(s, q, resume).Ok? <==> Moved(s.threads[s.current], Waiting, 0).Ok?
    ensures Wait(s, q, resume).Panic? ==> Wait(s, q, resume).reason == BadTransition && s.threads[s.current].state != Running
  {
    assert ShowSched(0);
    assert ThreadOk(s, s.current) && QueueOk(s, q);
    var e := Enqueue(s, q, resume).value;
    var m := Moved(e.threads[s.current], Waiting, 0);
    if m.Ok? {
      var j := SetThread(e, s.current, m.value);
      assert j == Joined(s, q, s.current, m.value);
      JoinKeeps(s, q, s.current, m.value);
      YieldKeeps(j);
    }
  }

  lemma TimedRoundKeeps(s: Sched, q: int, now: nat, deadline: nat, condition: bool)
    requires Inv(s) && CanCall(s) && q in s.waiters && q !in s.untimed
    ensures var r := TimedRound(s, q, now, deadline, condition);
      && (r.Ok? ==> Inv(r.value))
      && (r.Ok? <==> TimedVerdict(now, deadline, condition) != Blocked || Moved(s.threads[s.current], Sleeping, deadline).Ok?)
      && (r.Panic? ==> r.reason == BadTransition && s.threads[s.current].state != Running)
  {
    assert ShowSched(0);
    assert ThreadOk(s, s.current) && QueueOk(s, q);
    if TimedVerdict(now, deadline, condition) != Blocked {
      MarkKeeps(s, s.threads[s.current].(wakeTick := 0));
    } else {
      var m := Moved(s.threads[s.current], Sleeping, deadline);
      if m.Ok? {
        var e := Enqueue(SetThread(s, s.current, m.value), q, Remove(q)).value;
        assert e == Joined(s, q, s.current, e.threads[s.current]);
        JoinKeeps(s, q, s.current, e.threads[s.current]);
        YieldKeeps(e);
      }
    }
  }

  lemma FinishKeeps(s: Sched)
    requires Inv(s) && s.current in s.threads
    ensures Finish(s).Ok? && Inv(Finish(s).value)
  {
    assert ShowSched(0);
    var th := s.threads[s.current];
    assert ThreadOk(s, s.current);
    match th.resume
    case Nothing =>
    case Remove(q) =>
      if th.queue == q && q != 0 {
        assert QueueOk(s, q);
        LeaveKeeps(s, q, s.current, th.(queue := 0, resume := Nothing));
      } else {
        FinishResets(s);
      }
    case Recheck(q) =>
      if th.state == Waiting {
        YieldKeeps(s);
      } else {
        FinishResets(s);
      }
  }

  lemma FinishResets(s: Sched)
    requires Inv(s) && s.current in s.threads && s.threads[s.current].queue == 0
    ensures Inv(SetThread(s, s.current, s.threads[s.current].(resume := Nothing)))
  {
    assert ShowSched(0);
    RunningIsCurrent(s);
    assert ThreadOk(s, s.current);
    UpdateKeeps(s, s.current, s.threads[s.current].(resume := Nothing), s.current);
    assert SetThread(s, s.current, s.threads[s.current].(resume := Nothing)).(current := s.current)
        == SetThread(s, s.current, s.threads[s.current].(resume := Nothing));
  }

  lemma CreateKeeps(s: Sched, t: int, idle: bool)
    requires Inv(s) && t != 0 && t !in s.threads
    ensures Inv(Create(s, t, idle))
  {
    assert ShowSched(0);
    var s' := Create(s, t, idle);
    forall u | u in s'.threads
      ensures ThreadOk(s', u)
    {
      assert u != t ==> ThreadOk(s, u);
    }
    forall q | q in s'.waiters
      ensures QueueOk(s', q)
    {
      assert QueueOk(s, q);
      QueueStays(s, s', q);
    }
  }

  lemma WakeOneKeeps(s: Sched, q: int)
    requires Inv(s) && q in s.waiters
    ensures WakeOne(s, q).Ok? ==> Inv(WakeOne(s, q).value)
    ensures WakeOne(s, q).Panic? ==> WakeOne(s, q).reason == NotWaiting && q !in s.untimed
  {
    assert ShowSched(0);
    if s.waiters[q] != [] {
      var t := s.waiters[q][0];
      assert QueueOk(s, q);
      assert MemberOk(s, q, s.waiters[q][0]) && ThreadOk(s, t);
      if WakeOne(s, q).Ok? {
        var th := Moved(s.threads[t].(queue := 0), Ready, 0).value;
        assert Without(s.waiters[q], t) == s.waiters[q][1..];
        assert WakeOne(s, q).value == Left(s, q, t, th);
        LeaveKeeps(s, q, t, th);
      }
    }
  }

  lemma {:induction false} WakeAllKeeps(s: Sched, q: int)
    requires Inv(s) && q in s.waiters
    ensures WakeAll(s, q).Ok? ==> Inv(WakeAll(s, q).value) && WakeAll(s, q).value.waiters == s.waiters[q := []]
    ensures WakeAll(s, q).Panic? ==> WakeAll(s, q).reason == NotWaiting && q !in s.untimed
    decreases if q in s.waiters then |s.waiters[q]| else 0
  {
    if s.waiters[q] == [] {
      assert s.waiters == s.waiters[q := []];
    } else {
      WakeOneKeeps(s, q);
      if WakeOne(s, q).Ok? {
        var s' := WakeOne(s, q).value;
        assert s'.waiters[q := []] == s.waiters[q := []];
        WakeAllKeeps(s', q);
      }
    }
  }

  lemma TickKeeps(s: Sched)
    requires Inv(s)
    ensures Inv(Tick(s))
  {
    assert ShowSched(0);
    var s' := Tick(s);
    forall u | u in s'.threads
      ensures ThreadOk(s', u)
    {
      assert ThreadOk(s, u);
    }
    forall q | q in s'.waiters
      ensures QueueOk(s', q)
    {
      assert QueueOk(s, q);
      QueueStays(s, s', q);
    }
  }

  lemma CallKeeps(s: Sched, op: Op)
    requires Inv(s) && Legal(s, op) && OfCurrent(op)
    ensures Step(s, op).Ok? ==> Inv(Step(s, op).value)
    ensures Step(s, op).Panic? ==> Step(s, op).reason == BadTransition && s.threads[s.current].state != Running
  {
    match op
    case SleepTo(deadline) => SleepUntilKeeps(s, deadline);
    case WaitOn(q) => WaitKeeps(s, q, Remove(q));
    case SleepOn(q) => WaitKeeps(s, q, Recheck(q));
    case TimedWaitRound(q, now, deadline, condition) => TimedRoundKeeps(s, q, now, deadline, condition);
    case Continue => FinishKeeps(s);
    case ExitThread => ExitKeeps(s);
  }

  /** The states from which a call of the current thread is an invalid transition. */
  predicate Refused(state: State, op: Op) {
    match op
    case SleepTo(_) => state != Running && state != Sleeping
    case WaitOn(_) => state != Running && state != Waiting
    case SleepOn(_) => state != Running && state != Waiting
    case TimedWaitRound(_, now, deadline, condition) => !condition && now < deadline && state != Running && state != Sleeping
    case ExitThread => state == Ready
    case _ => false
  }

  lemma NotDead(s: Sched)
    requires Inv(s) && s.current in s.threads
    ensures s.threads[s.current].state != Dead
  {
    assert ShowSched(0);
    assert ThreadOk(s, s.current);
  }

  /** A call of the current thread panics exactly from those states. */
  lemma CallPanicsExactly(s: Sched, op: Op)
    requires Inv(s) && Legal(s, op) && OfCurrent(op)
    ensures Step(s, op).Panic? <==> Refused(s.threads[s.current].state, op)
  {
    NotDead(s);
    match op
    case SleepTo(deadline) => SleepUntilKeeps(s, deadline);
    case WaitOn(q) => WaitKeeps(s, q, Remove(q));
    case SleepOn(q) => WaitKeeps(s, q, Recheck(q));
    case TimedWaitRound(q, now, deadline, condition) => TimedRoundKeeps(s, q, now, deadline, condition);
    case ExitThread => ExitKeeps(s);
    case Continue => FinishKeeps(s);
  }

  /** Every step keeps the invariant. Of the source's panics only two are left: a state change of
      a current thread that is not RUNNING, and a wakeup on a queue with timed waiters. */
  lemma StepKeeps(s: Sched, op: Op)
    requires Inv(s) && Legal(s, op)
    ensures Step(s, op).Ok? ==> Inv(Step(s, op).value)
    ensures Step(s, op).Panic? ==>
      || (Step(s, op).reason == BadTransition && OfCurrent(op) && s.threads[s.current].state != Running)
      || (Step(s, op).reason == NotWaiting && (op.WakeFirst? || op.WakeEvery?) && op.queue !in s.untimed)
  {
    match op
    case Preempt => YieldKeeps(s);
    case CreateThread(t, idle) => CreateKeeps(s, t, idle);
    case WakeFirst(q) => WakeOneKeeps(s, q);
    case WakeEvery(q) => WakeAllKeeps(s, q);
    case TimerTick => TickKeeps(s);
    case _ => CallKeeps(s, op);
  }

  // ----- whole runs -----

  ghost predicate LegalRun(s: Sched, ops: seq<Op>)
    decreases |ops|
  {
    ops == [] || (Legal(s, ops[0]) && (Step(s, ops[0]).Ok? ==> LegalRun(Step(s, ops[0]).value, ops[1..])))
  }

  function Run(s: Sched, ops: seq<Op>): Outcome<Sched>
    requires LegalRun(s, ops)
    decreases |ops|
  {
    if ops == [] then Ok(s)
    else
      var s' :- Step(s, ops[0]);
      Run(s', ops[1..])
  }

  lemma InitialInv(queues: set<int>, untimed: set<int>, tick: nat)
    requires 0 !in queues
    ensures Inv(Initial(queues, untimed, tick))
  {
  }

  /** No run meets the "already queued", "membership is inconsistent" or release panics, nor a
      second exit; the "non-waiting thread" panic needs a queue with timed waiters. */
  lemma {:induction false} RunKeeps(s: Sched, ops: seq<Op>)
    requires Inv(s) && LegalRun(s, ops)
    ensures Run(s, ops).Ok? ==> Inv(Run(s, ops).value)
    ensures Run(s, ops).Panic? ==> Run(s, ops).reason == BadTransition || Run(s, ops).reason == NotWaiting
    ensures Run(s, ops) == Panic(NotWaiting) ==> exists q :: q in s.waiters && q !in s.untimed
    decreases |ops|
  {
    if ops != [] {
      StepKeeps(s, ops[0]);
      if Step(s, ops[0]).Ok? {
        RunKeeps(Step(s, ops[0]).value, ops[1..]);
      }
    }
  }

  lemma {:induction false} WakeAllFrame(s: Sched, q: int)
    requires q in s.waiters && WakeAll(s, q).Ok?
    ensures var s' := WakeAll(s, q).value;
      s' == s.(threads := s'.threads, waiters := s'.waiters) && s'.waiters.Keys == s.waiters.Keys && s'.threads.Keys == s.threads.Keys
    ensures forall t :: t in s.threads && t !in s.waiters[q] ==> WakeAll(s, q).value.threads[t] == s.threads[t]
    ensures forall t :: t in s.threads && s.threads[t].state == Ready ==> WakeAll(s, q).value.threads[t].state == Ready
    decreases if q in s.waiters then |s.waiters[q]| else 0
  {
    if s.waiters[q] != [] {
      WakeAllFrame(WakeOne(s, q).value, q);
    }
  }

  // ----- what the invariant says to a reader -----

  lemma QueueMembers(s: Sched, q: int)
    requires Inv(s) && q in s.waiters
    ensures q != 0
    ensures forall t :: t in s.waiters[q] ==> t in s.threads && s.threads[t].queue == q && (q in s.untimed ==> s.threads[t].state == Waiting)
  {
    assert ShowSched(0);
    assert QueueOk(s, q);
    forall t | t in s.waiters[q]
      ensures MemberOk(s, q, t)
    {
      var i :| 0 <= i < |s.waiters[q]| && s.waiters[q][i] == t;
    }
  }

  lemma OffQueues(s: Sched, t: int)
    requires Inv(s) && t in s.threads && s.threads[t].queue == 0
    ensures forall q :: q in s.waiters ==> t !in s.waiters[q]
  {
    forall q | q in s.waiters
      ensures t !in s.waiters[q]
    {
      QueueMembers(s, q);
    }
  }

  /** On an untimed queue the list is exactly the threads WAITING with that queue, in arrival
      order and each once. */
  lemma UntimedMembership(s: Sched, q: int)
    requires Inv(s) && q in s.waiters && q in s.untimed
    ensures forall t :: t in s.waiters[q] <==> t in s.threads && s.threads[t].state == Waiting && s.threads[t].queue == q
    ensures forall i, j :: 0 <= i < j < |s.waiters[q]| ==> Before(s.threads, s.waiters[q][i], s.waiters[q][j]) && s.waiters[q][i] != s.waiters[q][j]
  {
    assert ShowSched(0);
    assert QueueOk(s, q);
    QueueDistinct(s, q);
    QueueMembers(s, q);
    forall t | t in s.threads && s.threads[t].queue == q
      ensures t in s.waiters[q]
    {
      assert ThreadOk(s, t);
    }
  }

  /** At most one thread is RUNNING and it is current; current is on the run queue; a deadline
      is set only while SLEEPING. */
  lemma OneRunning(s: Sched)
    requires Inv(s)
    ensures forall t, u :: t in s.threads && u in s.threads && s.threads[t].state == Running && s.threads[u].state == Running ==> t == u == s.current
    ensures s.current != 0 ==> s.current in s.runQueue
    ensures forall t :: t in s.threads && s.threads[t].wakeTick != 0 ==> s.threads[t].state == Sleeping
  {
    assert ShowSched(0);
    RunningIsCurrent(s);
    assert forall t :: t in s.threads && s.threads[t].wakeTick != 0 ==> ThreadOk(s, t);
  }

  /** Reaping releases exactly the zombies other than current, each on no wait queue and never
      released before, and keeps the others in order. */
  lemma ReapReleases(s: Sched, t: int)
    requires Inv(s) && t in s.threads
    ensures Reap(s).Ok?
    ensures t !in Reap(s).value.threads <==> s.threads[t].state == Zombie && t != s.current
    ensures t !in Reap(s).value.threads ==>
      && s.threads[t].id !in s.released && s.threads[t].id in Reap(s).value.released
      && forall q :: q in s.waiters ==> t !in s.waiters[q]
    ensures t in Reap(s).value.threads ==> Reap(s).value.threads[t] == s.threads[t] && s.threads[t].id !in Reap(s).value.released
    ensures Reap(s).value.runQueue == Kept(s.runQueue, s.threads, s.current)
  {
    ReapKeeps(s);
    assert ShowSched(0);
    assert ThreadOk(s, t);
    if s.threads[t].queue == 0 {
      OffQueues(s, t);
    }
    var r := Reap(s).value;
    assert t in r.threads ==> ThreadOk(r, t);
  }

  /** An identity that was released never comes back, in any run. */
  lemma {:induction false} ReleasedForGood(s: Sched, ops: seq<Op>, id: nat)
    requires Inv(s) && LegalRun(s, ops) && Run(s, ops).Ok? && id in s.released
    ensures id in Run(s, ops).value.released
    ensures forall t :: t in Run(s, ops).value.threads ==> Run(s, ops).value.threads[t].id != id
    decreases |ops|
  {
    if ops != [] {
      StepKeeps(s, ops[0]);
      ReleasedForGood(Step(s, ops[0]).value, ops[1..], id);
    } else {
      assert ShowSched(0);
      assert forall t :: t in s.threads ==> ThreadOk(s, t);
    }
  }

  /** A thread that runs again inside a wait leaves the queue it waited on, if a wakeup has not
      taken it off already; the others keep their order and every other thread is as it was. */
  lemma ReturnLeavesQueue(s: Sched)
    requires Inv(s) && s.current in s.threads && s.threads[s.current].resume.Remove?
    ensures Finish(s).Ok?
    ensures var r, q := Finish(s).value, s.threads[s.current].resume.queue;
      && r.current == s.current && r.threads.Keys == s.threads.Keys && r.waiters.Keys == s.waiters.Keys
      && r.threads[s.current] == s.threads[s.current].(queue := 0, resume := Nothing)
      && (forall t :: t in s.threads && t != s.current ==> r.threads[t] == s.threads[t])
      && (forall p :: p in r.waiters ==> s.current !in r.waiters[p])
      && (forall p :: p in s.waiters && p != q ==> r.waiters[p] == s.waiters[p])
      && (s.threads[s.current].queue == 0 ==> r.waiters == s.waiters)
      && (s.threads[s.current].queue != 0 ==> q in s.waiters && s.current in s.waiters[q] && IsWithout(s.waiters[q], s.current, r.waiters[q]))
  {
    FinishKeeps(s);
    assert ShowSched(0);
    assert ThreadOk(s, s.current);
    var r := Finish(s).value;
    OffQueues(r, s.current);
    if s.threads[s.current].queue != 0 {
      WithoutIs(s.waiters[s.threads[s.current].queue], s.current);
    }
  }

  /** w' is w with one x taken out and everything else in its order. */
  ghost predicate IsWithout(w: seq<int>, x: int, w': seq<int>) {
    exists i :: 0 <= i < |w| && w[i] == x && w' == w[..i] + w[i + 1..]
  }

  lemma WithoutIs(w: seq<int>, x: int)
    requires x in w
    ensures IsWithout(w, x, Without(w, x))
  {
    var i := IndexOf(w, x);
    assert w[i] == x && Without(w, x) == w[..i] + w[i + 1..];
  }

  /** A timed wait that reports a timeout saw its condition false after the deadline, and
      whatever it reports, the caller is on no queue and has no deadline. */
  lemma TimedReturn(s: Sched, q: int, now: nat, deadline: nat, condition: bool)
    requires Inv(s) && Legal(s, TimedWaitRound(q, now, deadline, condition)) && TimedVerdict(now, deadline, condition) != Blocked
    ensures var r := TimedRound(s, q, now, deadline, condition);
      && r.Ok? && r.value.current == s.current && r.value.threads[s.current].queue == 0 && r.value.threads[s.current].wakeTick == 0
      && forall p :: p in r.value.waiters ==> s.current !in r.value.waiters[p]
    ensures TimedVerdict(now, deadline, condition) == TimedOut ==> !condition && s.tick >= deadline
    ensures TimedVerdict(now, deadline, condition) == Met <==> condition
  {
    assert ShowSched(0);
    assert ThreadOk(s, s.current);
    OffQueues(s, s.current);
  }
}

/** How the readers' protocol sits on the scheduler: on a queue without timed waiters, a reader is
    asleep exactly while it is on the queue's list, and woken exactly while it still has to return
    from its wait after a wakeup took it off. */
module WaitRefinement {
  import opened Scheduler
  import opened SchedulerRuns
  import opened SchedulerProgress
  import R = BlockingReaders
  import D = DeferredWork

  /** Thread t was taken off queue q by a wakeup and has not run since. */
  predicate IsWoken(s: Sched, q: int, t: int) {
    t in s.threads && s.threads[t].resume == Remove(q) && s.threads[t].queue != q
  }

  ghost predicate SameWoken(s: Sched, s': Sched, q: int) {
    forall t :: IsWoken(s', q, t) <==> IsWoken(s, q, t)
  }

  /** A yield wakes nobody and moves nobody between queues. */
  lemma YieldSame(s: Sched, q: int)
    requires Inv(s) && q in s.waiters
    ensures Yield(s).Ok? && Yield(s).value.waiters == s.waiters && SameWoken(s, Yield(s).value, q)
  {
    YieldNew(s);
    var r := Yield(s).value;
    forall t
      ensures IsWoken(r, q, t) <==> IsWoken(s, q, t)
    {
      if t in s.threads {
        assert ShowSched(0);
        assert ThreadOk(s, t);
        if !Reapable(s.threads, s.current, t) {
          YieldThread(s, t);
        }
      }
    }
  }

  /** On a queue without timed waiters the running thread is not on the list. */
  lemma CurrentOff(s: Sched, q: int)
    requires Inv(s) && Settled(s) && q in s.waiters && q in s.untimed
    ensures s.current !in s.waiters[q] && s.threads[s.current].queue != q
  {
    UntimedMembership(s, q);
    QueueMembers(s, q);
    assert ShowSched(0);
    assert ThreadOk(s, s.current);
  }

  /** Blocking on q: the current thread joins the end of the list. */
  lemma BlockRefines(s: Sched, op: Op, q: int)
    requires Inv(s) && Settled(s) && q in s.waiters && q in s.untimed && Legal(s, op)
    requires op == WaitOn(q) || op == SleepOn(q)
    ensures Step(s, op).Ok? && Step(s, op).value.waiters[q] == s.waiters[q] + [s.current] && SameWoken(s, Step(s, op).value, q)
  {
    MarkedStep(s, op);
    YieldSame(Marked(s, op), q);
    assert ShowSched(0);
    assert ThreadOk(s, s.current);
  }

  /** A wakeup on q: the head leaves the list, woken if it waits in wait_queue_wait(). */
  lemma WakeRefines(s: Sched, q: int)
    requires Inv(s) && Settled(s) && q in s.waiters && q in s.untimed
    ensures WakeOne(s, q).Ok?
    ensures s.waiters[q] == [] ==> WakeOne(s, q).value == s
    ensures s.waiters[q] != [] ==>
      && WakeOne(s, q).value.waiters[q] == s.waiters[q][1..]
      && forall t :: IsWoken(WakeOne(s, q).value, q, t) <==> IsWoken(s, q, t) || (t == s.waiters[q][0] && s.threads[t].resume == Remove(q))
  {
    WakeOneKeeps(s, q);
    if s.waiters[q] != [] {
      QueueMembers(s, q);
      assert s.waiters[q][0] in s.waiters[q];
    }
  }

  /** A woken thread that runs again has returned from its wait. */
  lemma ContinueRefines(s: Sched, q: int)
    requires Inv(s) && Settled(s) && q in s.waiters && q in s.untimed && Legal(s, Continue) && s.threads[s.current].resume == Remove(q)
    ensures IsWoken(s, q, s.current) && Step(s, Continue).Ok? && Step(s, Continue).value.waiters == s.waiters
    ensures forall t :: IsWoken(Step(s, Continue).value, q, t) <==> IsWoken(s, q, t) && t != s.current
  {
    CurrentOff(s, q);
  }

  /** Does the step concern queue q? */
  predicate Concerns(s: Sched, op: Op, q: int) {
    match op
    case WaitOn(p) => p == q
    case SleepOn(p) => p == q
    case TimedWaitRound(p, _, _, _) => p == q
    case WakeFirst(p) => p == q
    case WakeEvery(p) => p == q
    case Continue => s.current in s.threads && s.threads[s.current].resume == Remove(q)
    case _ => false
  }

  /** Every other step leaves the queue and its woken threads alone. */
  lemma OthersLeaveAlone(s: Sched, op: Op, q: int)
    requires Inv(s) && Settled(s) && q in s.waiters && Legal(s, op) && Step(s, op).Ok? && !Concerns(s, op, q)
    ensures Step(s, op).value.waiters[q] == s.waiters[q] && SameWoken(s, Step(s, op).value, q)
  {
    if Yields(s, op) {
      MarkedStep(s, op);
      MarkedLeavesAlone(s, op, q);
      YieldSame(Marked(s, op), q);
    } else {
      QuietLeavesAlone(s, op, q);
    }
  }

  lemma MarkedLeavesAlone(s: Sched, op: Op, q: int)
    requires Inv(s) && Settled(s) && q in s.waiters && Legal(s, op) && Yields(s, op) && !Concerns(s, op, q)
    ensures q in Marked(s, op).waiters && Marked(s, op).waiters[q] == s.waiters[q] && SameWoken(s, Marked(s, op), q)
  {
    assert ShowSched(0);
    assert ThreadOk(s, s.current);
  }

  lemma QuietLeavesAlone(s: Sched, op: Op, q: int)
    requires Inv(s) && Settled(s) && q in s.waiters && Legal(s, op) && Step(s, op).Ok? && !Yields(s, op) && !Concerns(s, op, q)
    ensures Step(s, op).value.waiters[q] == s.waiters[q] && SameWoken(s, Step(s, op).value, q)
  {
    match op
    case WakeFirst(p) => WakeOtherQueue(s, p, q);
    case WakeEvery(p) => WakeOtherQueues(s, p, q);
    case Continue =>
      if s.threads[s.current].resume.Recheck? && s.threads[s.current].state == Waiting {
        YieldSame(s, q);
      }
    case _ =>
  }

  lemma WakeOtherQueue(s: Sched, p: int, q: int)
    requires Inv(s) && p in s.waiters && q in s.waiters && p != q && WakeOne(s, p).Ok?
    ensures WakeOne(s, p).value.waiters[q] == s.waiters[q] && SameWoken(s, WakeOne(s, p).value, q)
  {
    QueueMembers(s, p);
    QueueMembers(s, q);
    if s.waiters[p] != [] {
      assert s.waiters[p][0] in s.waiters[p];
    }
  }

  lemma {:induction false} WakeOtherQueues(s: Sched, p: int, q: int)
    requires Inv(s) && p in s.waiters && q in s.waiters && p != q && WakeAll(s, p).Ok?
    ensures WakeAll(s, p).value.waiters[q] == s.waiters[q] && SameWoken(s, WakeAll(s, p).value, q)
    decreases if p in s.waiters then |s.waiters[p]| else 0
  {
    if s.waiters[p] != [] {
      WakeOtherQueue(s, p, q);
      WakeOneKeeps(s, p);
      WakeOtherQueues(WakeOne(s, p).value, p, q);
    }
  }

  // ----- the simulation -----

  /** The protocol's state and the scheduler's agree about queue q, all of whose users are readers
      in wait_queue_wait(). */
  ghost predicate Agrees<T>(r: R.System<T>, s: Sched, q: int) {
    && q in s.waiters && q in s.untimed
    && r.asleep == s.waiters[q]
    && (forall t :: R.At(r, t, R.Woken) <==> IsWoken(s, q, t))
    && (forall t :: t in s.waiters[q] ==> t in s.threads && s.threads[t].resume == Remove(q))
  }

  /** The condition is false and the reader blocks. */
  lemma TestBlocks<T>(r: R.System<T>, s: Sched, q: int)
    requires R.Inv(r) && Inv(s) && Settled(s) && Agrees(r, s, q) && Legal(s, WaitOn(q))
    requires R.At(r, s.current, R.Testing) && r.items == []
    ensures Step(s, WaitOn(q)).Ok? && Agrees(R.Next(r, R.Test(s.current)), Step(s, WaitOn(q)).value, q)
  {
    BlockRefines(s, WaitOn(q), q);
    SettledStep(s, WaitOn(q));
    var s' := Step(s, WaitOn(q)).value;
    JoinedResumes(s, q);
    assert s'.untimed == s.untimed;
  }

  /** After blocking, the list holds waiters that will remove themselves. */
  lemma JoinedResumes(s: Sched, q: int)
    requires Inv(s) && Settled(s) && q in s.waiters && q in s.untimed && Legal(s, WaitOn(q))
    requires forall t :: t in s.waiters[q] ==> t in s.threads && s.threads[t].resume == Remove(q)
    ensures Step(s, WaitOn(q)).Ok?
    ensures var s' := Step(s, WaitOn(q)).value; forall t :: t in s'.waiters[q] ==> t in s'.threads && s'.threads[t].resume == Remove(q)
  {
    BlockRefines(s, WaitOn(q), q);
    MarkedStep(s, WaitOn(q));
    var m, s' := Marked(s, WaitOn(q)), Step(s, WaitOn(q)).value;
    YieldNew(m);
    QueueMembers(m, q);
    UntimedMembership(m, q);
    forall t | t in s'.waiters[q]
      ensures t in s'.threads && s'.threads[t].resume == Remove(q)
    {
      YieldThread(m, t);
    }
  }

  /** An item is reported and one reader is woken. */
  lemma ReportWakes<T>(r: R.System<T>, s: Sched, q: int, x: T)
    requires R.Inv(r) && Inv(s) && Settled(s) && Agrees(r, s, q) && |r.items| < r.capacity
    ensures WakeOne(s, q).Ok? && Agrees(R.Next(r, R.Report(x)), WakeOne(s, q).value, q)
  {
    WakeRefines(s, q);
    QueueMembers(s, q);
    assert ShowSched(0);
    assert QueueOk(s, q);
    QueueDistinct(s, q);
    var w := s.waiters[q];
    assert w != [] ==> w[0] in w && w == [w[0]] + w[1..];
  }

  /** A woken reader runs again and is back at its test. */
  lemma WokenContinues<T>(r: R.System<T>, s: Sched, q: int)
    requires R.Inv(r) && Inv(s) && Settled(s) && Agrees(r, s, q) && Legal(s, Continue) && s.threads[s.current].resume == Remove(q)
    ensures R.At(r, s.current, R.Woken) && Step(s, Continue).Ok?
    ensures Agrees(R.Next(r, R.Continue(s.current)), Step(s, Continue).value, q)
  {
    ContinueRefines(s, q);
    CurrentOff(s, q);
  }

  /** What the readers do without the scheduler leaves the agreement alone: entering a read, a test
      that finds an item, a pop, a read without waiting, a report to a full queue. */
  lemma ReaderAlone<T>(r: R.System<T>, s: Sched, q: int, e: R.Event<T>)
    requires R.Inv(r) && Agrees(r, s, q) && R.Enabled(r, e)
    requires e.Begin? || e.Pop? || e.TryRead? || (e.Test? && r.items != []) || (e.Report? && |r.items| == r.capacity)
    ensures Agrees(R.Next(r, e), s, q)
  {
  }

  /** What the scheduler does elsewhere leaves the agreement alone. */
  lemma SchedulerAlone<T>(r: R.System<T>, s: Sched, q: int, op: Op)
    requires Inv(s) && Settled(s) && Agrees(r, s, q) && Legal(s, op) && Step(s, op).Ok? && !Concerns(s, op, q)
    ensures Agrees(r, Step(s, op).value, q)
  {
    OthersLeaveAlone(s, op, q);
    SettledStep(s, op);
    ResumesStay(s, op, q);
  }

  lemma ResumesStay(s: Sched, op: Op, q: int)
    requires Inv(s) && Settled(s) && q in s.waiters && q in s.untimed && Legal(s, op) && Step(s, op).Ok? && !Concerns(s, op, q)
    requires forall t :: t in s.waiters[q] ==> t in s.threads && s.threads[t].resume == Remove(q)
    ensures var s' := Step(s, op).value; forall t :: t in s.waiters[q] ==> t in s'.threads && s'.threads[t].resume == Remove(q)
  {
    CurrentOff(s, q);
    UntimedMembership(s, q);
    forall t | t in s.waiters[q]
      ensures t in Step(s, op).value.threads && Step(s, op).value.threads[t].resume == Remove(q)
    {
      if Yields(s, op) {
        MarkedStep(s, op);
        YieldThread(Marked(s, op), t);
      } else {
        QuietStep(s, op, t);
        if op.WakeEvery? {
          WakeAllThread(s, op.queue, t);
        } else if op.WakeFirst? {
          WakeOneThread(s, op.queue, t);
        } else if op.Continue? && s.threads[s.current].resume.Recheck? && s.threads[s.current].state == Waiting {
          YieldThread(s, t);
        }
      }
    }
  }

  // ----- the worker of the work queue -----

  /** The protocol's worker is thread w, alone on queue q. */
  ghost predicate WorkerAgrees(d: D.System, s: Sched, q: int, w: int) {
    && q in s.waiters && q in s.untimed
    && s.waiters[q] == (if d.worker == D.Asleep then [w] else [])
    && (d.worker == D.Woken <==> IsWoken(s, q, w))
    && (d.worker == D.Asleep ==> w in s.threads && s.threads[w].resume == Remove(q))
  }

  lemma WorkerBlocks(d: D.System, s: Sched, q: int)
    requires Inv(s) && Settled(s) && WorkerAgrees(d, s, q, s.current) && Legal(s, WaitOn(q)) && d.worker == D.Testing && d.list == []
    ensures Step(s, WaitOn(q)).Ok? && WorkerAgrees(D.Next(d, D.Test), Step(s, WaitOn(q)).value, q, s.current)
  {
    BlockRefines(s, WaitOn(q), q);
    JoinedResumes(s, q);
    SettledStep(s, WaitOn(q));
  }

  lemma WorkWakes(d: D.System, s: Sched, q: int, w: int, x: int)
    requires Inv(s) && Settled(s) && WorkerAgrees(d, s, q, w) && x !in d.pending
    ensures WakeOne(s, q).Ok? && WorkerAgrees(D.Queue(d, x), WakeOne(s, q).value, q, w)
  {
    WakeRefines(s, q);
    QueueMembers(s, q);
  }

  lemma WorkerContinues(d: D.System, s: Sched, q: int)
    requires Inv(s) && Settled(s) && WorkerAgrees(d, s, q, s.current) && Legal(s, Continue) && s.threads[s.current].resume == Remove(q)
    ensures d.worker == D.Woken && Step(s, Continue).Ok?
    ensures WorkerAgrees(D.Next(d, D.Continue), Step(s, Continue).value, q, s.current)
  {
    ContinueRefines(s, q);
  }
}

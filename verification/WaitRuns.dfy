/** The wakeup protocols and the scheduler run together: the scheduler's steps with the readers' and
    the worker's own, in any order. What the protocols promise about sleepers is then true of the
    threads on the scheduler's wait queue. */
module WaitRuns {
  import opened Scheduler
  import opened SchedulerRuns
  import opened SchedulerProgress
  import opened WaitRefinement
  import R = BlockingReaders
  import D = DeferredWork

  // ----- readers -----

  datatype Pair<T> = Pair(readers: R.System<T>, sched: Sched)

  /** A move of the whole: the current reader finds nothing and blocks, an item is reported, a woken
      reader runs again, a reader does something else, or the scheduler does. */
  datatype Move<T> =
    | Blocks
    | Reports(item: T)
    | Returns
    | Reads(event: R.Event<T>)
    | Schedules(op: Op)

  predicate CanMove<T>(p: Pair<T>, q: int, m: Move<T>) {
    match m
    case Blocks => R.At(p.readers, p.sched.current, R.Testing) && p.readers.items == [] && Legal(p.sched, WaitOn(q))
    case Reports(_) => q in p.sched.waiters
    case Returns => Legal(p.sched, Continue) && p.sched.threads[p.sched.current].resume == Remove(q) && R.At(p.readers, p.sched.current, R.Woken)
    case Reads(e) => R.Enabled(p.readers, e) && (e.Begin? || e.Pop? || e.TryRead? || (e.Test? && p.readers.items != []))
    case Schedules(op) => Legal(p.sched, op) && !Concerns(p.sched, op, q)
  }

  function After<T>(p: Pair<T>, q: int, m: Move<T>): Outcome<Pair<T>>
    requires CanMove(p, q, m)
  {
    match m
    case Blocks =>
      var s :- Step(p.sched, WaitOn(q));
      Ok(Pair(R.Next(p.readers, R.Test(p.sched.current)), s))
    case Reports(x) =>
      var s :- if |p.readers.items| == p.readers.capacity then Ok(p.sched) else WakeOne(p.sched, q);
      Ok(Pair(R.Next(p.readers, R.Report(x)), s))
    case Returns =>
      var s :- Step(p.sched, Continue);
      Ok(Pair(R.Next(p.readers, R.Continue(p.sched.current)), s))
    case Reads(e) => Ok(Pair(R.Next(p.readers, e), p.sched))
    case Schedules(op) =>
      var s :- Step(p.sched, op);
      Ok(Pair(p.readers, s))
  }

  ghost predicate PairInv<T>(p: Pair<T>, q: int) {
    R.Inv(p.readers) && Inv(p.sched) && Settled(p.sched) && Agrees(p.readers, p.sched, q)
  }

  /** Every move keeps both invariants and the agreement. */
  lemma MoveKeeps<T>(p: Pair<T>, q: int, m: Move<T>)
    requires PairInv(p, q) && CanMove(p, q, m)
    ensures After(p, q, m).Ok? ==> PairInv(After(p, q, m).value, q)
    ensures After(p, q, m).Panic? ==> After(p, q, m).reason == NotWaiting && m.Schedules?
  {
    var r, s := p.readers, p.sched;
    match m
    case Blocks =>
      TestBlocks(r, s, q);
      R.NextKeeps(r, R.Test(s.current));
      SettledStep(s, WaitOn(q));
    case Reports(x) =>
      R.NextKeeps(r, R.Report(x));
      if |r.items| < r.capacity {
        ReportWakes(r, s, q, x);
        SettledStep(s, WakeFirst(q));
      } else {
        ReaderAlone(r, s, q, R.Report(x));
      }
    case Returns =>
      WokenContinues(r, s, q);
      R.NextKeeps(r, R.Continue(s.current));
      SettledStep(s, Continue);
    case Reads(e) =>
      ReaderAlone(r, s, q, e);
      R.NextKeeps(r, e);
    case Schedules(op) =>
      SettledStep(s, op);
      if Step(s, op).Ok? {
        SchedulerAlone(r, s, q, op);
      }
  }

  ghost predicate CanRun<T>(p: Pair<T>, q: int, ms: seq<Move<T>>)
    decreases |ms|
  {
    ms == [] || (CanMove(p, q, ms[0]) && (After(p, q, ms[0]).Ok? ==> CanRun(After(p, q, ms[0]).value, q, ms[1..])))
  }

  function Run<T>(p: Pair<T>, q: int, ms: seq<Move<T>>): Outcome<Pair<T>>
    requires CanRun(p, q, ms)
    decreases |ms|
  {
    if ms == [] then Ok(p)
    else
      var p' :- After(p, q, ms[0]);
      Run(p', q, ms[1..])
  }

  lemma {:induction false} RunKeeps<T>(p: Pair<T>, q: int, ms: seq<Move<T>>)
    requires PairInv(p, q) && CanRun(p, q, ms)
    ensures Run(p, q, ms).Ok? ==> PairInv(Run(p, q, ms).value, q)
    ensures Run(p, q, ms).Panic? ==> Run(p, q, ms).reason == NotWaiting
    decreases |ms|
  {
    if ms != [] {
      MoveKeeps(p, q, ms[0]);
      if After(p, q, ms[0]).Ok? {
        RunKeeps(After(p, q, ms[0]).value, q, ms[1..]);
      }
    }
  }

  /** In every run from a settled scheduler whose queue nobody uses yet: while a thread is on the
      queue's list it is WAITING, and there are no more items than readers on their way to a pop. */
  lemma NobodyLeftWaiting<T>(capacity: nat, readers: set<int>, s: Sched, q: int, ms: seq<Move<T>>)
    requires Inv(s) && Settled(s) && q in s.waiters && q in s.untimed
    requires s.waiters[q] == [] && forall t :: !IsWoken(s, q, t)
    requires CanRun(Pair(R.Initial<T>(capacity, readers), s), q, ms)
    ensures var o := Run(Pair(R.Initial<T>(capacity, readers), s), q, ms);
      o.Ok? ==>
        && q in o.value.sched.waiters
        && (forall t :: t in o.value.sched.waiters[q] ==> t in o.value.sched.threads && o.value.sched.threads[t].state == Waiting)
        && (o.value.sched.waiters[q] != [] ==> |o.value.readers.items| <= |R.Heading(o.value.readers.readers)|)
        && o.value.readers.taken + o.value.readers.items == o.value.readers.accepted
  {
    var p := Pair(R.Initial<T>(capacity, readers), s);
    RunKeeps(p, q, ms);
    var o := Run(p, q, ms);
    if o.Ok? {
      QueueMembers(o.value.sched, q);
    }
  }

  // ----- the worker -----

  datatype WorkPair = WorkPair(work: D.System, sched: Sched)

  datatype WorkMove = Rests | Queues(work: int) | QueuesByte | Wakes | Works(event: D.Event) | SchedulesOther(op: Op)

  predicate CanWork(p: WorkPair, q: int, w: int, m: WorkMove) {
    match m
    case Rests => p.work.worker == D.Testing && p.work.list == [] && p.sched.current == w && Legal(p.sched, WaitOn(q))
    case Queues(x) => q in p.sched.waiters && x != 0
    case QueuesByte => q in p.sched.waiters && p.work.stored
    case Wakes => p.sched.current == w && Legal(p.sched, Continue) && p.sched.threads[w].resume == Remove(q) && p.work.worker == D.Woken
    case Works(e) => D.Enabled(p.work, e) && (e.IrqByte? || e.Start? || e.PopWork? || e.PopByte? || e.Return? || (e.Test? && p.work.list != []))
    case SchedulesOther(op) => Legal(p.sched, op) && !Concerns(p.sched, op, q)
  }

  /** queue_work() on the scheduler: a wakeup unless the item is pending. */
  function Notify(p: WorkPair, q: int, x: int): Outcome<Sched>
    requires q in p.sched.waiters
  {
    if x in p.work.pending then Ok(p.sched) else WakeOne(p.sched, q)
  }

  function WorkAfter(p: WorkPair, q: int, w: int, m: WorkMove): Outcome<WorkPair>
    requires CanWork(p, q, w, m)
  {
    match m
    case Rests =>
      var s :- Step(p.sched, WaitOn(q));
      Ok(WorkPair(D.Next(p.work, D.Test), s))
    case Queues(x) =>
      var s :- Notify(p, q, x);
      Ok(WorkPair(D.Next(p.work, D.QueueWork(x)), s))
    case QueuesByte =>
      var s :- Notify(p, q, p.work.keyboard);
      Ok(WorkPair(D.Next(p.work, D.IrqQueue), s))
    case Wakes =>
      var s :- Step(p.sched, Continue);
      Ok(WorkPair(D.Next(p.work, D.Continue), s))
    case Works(e) => Ok(WorkPair(D.Next(p.work, e), p.sched))
    case SchedulesOther(op) =>
      var s :- Step(p.sched, op);
      Ok(WorkPair(p.work, s))
  }

  ghost predicate WorkInv(p: WorkPair, q: int, w: int) {
    D.Inv(p.work) && Inv(p.sched) && Settled(p.sched) && WorkerAgrees(p.work, p.sched, q, w)
  }

  lemma NotifyKeeps(p: WorkPair, q: int, w: int, x: int)
    requires WorkInv(p, q, w)
    ensures Notify(p, q, x).Ok? && Inv(Notify(p, q, x).value) && Settled(Notify(p, q, x).value)
    ensures WorkerAgrees(D.Queue(p.work, x), Notify(p, q, x).value, q, w)
  {
    if x !in p.work.pending {
      WorkWakes(p.work, p.sched, q, w, x);
      SettledStep(p.sched, WakeFirst(q));
    }
  }

  lemma WorkMoveKeeps(p: WorkPair, q: int, w: int, m: WorkMove)
    requires WorkInv(p, q, w) && CanWork(p, q, w, m)
    ensures WorkAfter(p, q, w, m).Ok? ==> WorkInv(WorkAfter(p, q, w, m).value, q, w)
    ensures WorkAfter(p, q, w, m).Panic? ==> WorkAfter(p, q, w, m).reason == NotWaiting && m.SchedulesOther?
  {
    var d, s := p.work, p.sched;
    match m
    case Rests =>
      WorkerBlocks(d, s, q);
      D.NextKeeps(d, D.Test);
      SettledStep(s, WaitOn(q));
    case Queues(x) =>
      NotifyKeeps(p, q, w, x);
      D.NextKeeps(d, D.QueueWork(x));
    case QueuesByte =>
      NotifyKeeps(p, q, w, d.keyboard);
      D.NextKeeps(d, D.IrqQueue);
    case Wakes =>
      WorkerContinues(d, s, q);
      D.NextKeeps(d, D.Continue);
      SettledStep(s, Continue);
    case Works(e) => D.NextKeeps(d, e);
    case SchedulesOther(op) =>
      SettledStep(s, op);
      if Step(s, op).Ok? {
        OthersLeaveAlone(s, op, q);
        ResumesStay(s, op, q);
      }
  }

  ghost predicate CanWorkRun(p: WorkPair, q: int, w: int, ms: seq<WorkMove>)
    decreases |ms|
  {
    ms == [] || (CanWork(p, q, w, ms[0]) && (WorkAfter(p, q, w, ms[0]).Ok? ==> CanWorkRun(WorkAfter(p, q, w, ms[0]).value, q, w, ms[1..])))
  }

  function WorkRun(p: WorkPair, q: int, w: int, ms: seq<WorkMove>): Outcome<WorkPair>
    requires CanWorkRun(p, q, w, ms)
    decreases |ms|
  {
    if ms == [] then Ok(p)
    else
      var p' :- WorkAfter(p, q, w, ms[0]);
      WorkRun(p', q, w, ms[1..])
  }

  lemma {:induction false} WorkRunKeeps(p: WorkPair, q: int, w: int, ms: seq<WorkMove>)
    requires WorkInv(p, q, w) && CanWorkRun(p, q, w, ms)
    ensures WorkRun(p, q, w, ms).Ok? ==> WorkInv(WorkRun(p, q, w, ms).value, q, w)
    ensures WorkRun(p, q, w, ms).Panic? ==> WorkRun(p, q, w, ms).reason == NotWaiting
    decreases |ms|
  {
    if ms != [] {
      WorkMoveKeeps(p, q, w, ms[0]);
      if WorkAfter(p, q, w, ms[0]).Ok? {
        WorkRunKeeps(WorkAfter(p, q, w, ms[0]).value, q, w, ms[1..]);
      }
    }
  }

  /** In every run from a settled scheduler whose queue nobody uses yet: while the worker's thread is
      on the queue's list, no work is queued, and outside interrupts no byte is left in the ring. */
  lemma NoWorkLeftWaiting(keyboard: int, capacity: nat, s: Sched, q: int, w: int, ms: seq<WorkMove>)
    requires Inv(s) && Settled(s) && q in s.waiters && q in s.untimed
    requires s.waiters[q] == [] && !IsWoken(s, q, w)
    requires CanWorkRun(WorkPair(D.Initial(keyboard, capacity), s), q, w, ms)
    ensures var o := WorkRun(WorkPair(D.Initial(keyboard, capacity), s), q, w, ms);
      o.Ok? ==>
        && q in o.value.sched.waiters
        && (o.value.sched.waiters[q] == [] || o.value.sched.waiters[q] == [w])
        && (o.value.sched.waiters[q] != [] ==> o.value.work.list == [])
        && (o.value.sched.waiters[q] != [] && !o.value.work.stored ==> o.value.work.ring == [])
  {
    var p := WorkPair(D.Initial(keyboard, capacity), s);
    WorkRunKeeps(p, q, w, ms);
    var o := WorkRun(p, q, w, ms);
    if o.Ok? && o.value.work.worker == D.Asleep {
      assert o.value.work.keyboard !in o.value.work.list;
    }
  }
}

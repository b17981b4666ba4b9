/** The scheduler as a step system: thread states, run queue, wait queues, timer ticks, and
    reaping (kernel/sched/core.c, thread.c, wait.c, sched.h). Each locked region is one step,
    and so is each "mark blocked, unlock, sched_yield". */
module Scheduler {
  import opened Links

  datatype State = Ready | Running | Sleeping | Waiting | Zombie | Dead

  /** Which check of the source failed; the machine halts there. */
  datatype PanicReason = BadTransition | AlreadyQueued | NotWaiting | Inconsistent | BadRelease | ExitTwice

  datatype Outcome<T> = Ok(value: T) | Panic(reason: PanicReason) {
    predicate IsFailure() { Panic? }
    function PropagateFailure<U>(): Outcome<U>
      requires Panic?
    {
      Panic(reason)
    }
    function Extract(): T
      requires Ok?
    {
      value
    }
  }

  /** What a thread does first when it runs again: inside wait_queue_wait() or its timed form
      it removes itself from the queue, inside wait_queue_sleep() it rechecks its state. */
  datatype Resume = Nothing | Remove(queue: int) | Recheck(queue: int)

  /** A thread: `queue` is its wait_queue field, `stamp` counts its enqueue among all. */
  datatype Thread = Thread(id: nat, state: State, wakeTick: int, queue: int, resume: Resume, stamp: nat)

  /** Threads are named by address; 0 is NULL. `untimed` are the wait queues never used with
      wait_queue_wait_timeout(). */
  datatype Sched = Sched(
    runQueue: seq<int>,
    threads: map<int, Thread>,
    waiters: map<int, seq<int>>,
    untimed: set<int>,
    current: int,
    idle: int,
    tick: nat,
    nextId: nat,
    arrivals: nat,
    released: set<nat>)

  /** The scheduler before any thread exists, with a set of empty wait queues. */
  function Initial(queues: set<int>, untimed: set<int>, tick: nat): Sched {
    Sched([], map[], map q | q in queues :: [], untimed, 0, 0, tick, 1, 0, {})
  }

  /** thread_state_transition_is_valid(). */
  predicate Allowed(from: State, to: State) {
    || from == to
    || match from
       case Ready => to == Running
       case Running => to == Ready || to == Sleeping || to == Waiting || to == Zombie
       case Sleeping => to == Ready || to == Zombie
       case Waiting => to == Ready || to == Zombie
       case Zombie => to == Dead
       case Dead => false
  }

  /** The thread_set_*() helpers: `wakeTick` is kept on RUNNING, given on SLEEPING, else cleared. */
  function Moved(th: Thread, to: State, wakeTick: int): Outcome<Thread> {
    if !Allowed(th.state, to) then Panic(BadTransition)
    else Ok(th.(state := to, wakeTick := if to == Running then th.wakeTick else if to == Sleeping then wakeTick else 0))
  }

  /** Queues are neither made nor unmade, released threads are not forgotten, time advances. */
  predicate Grows(s: Sched, s': Sched) {
    s'.untimed == s.untimed && s'.waiters.Keys == s.waiters.Keys && s.released <= s'.released && s.tick <= s'.tick
  }

  function SetThread(s: Sched, t: int, th: Thread): Sched {
    s.(threads := s.threads[t := th])
  }

  // ----- the run queue -----

  /** Where x stands in q at or after i, or |q|. */
  function IndexFrom(q: seq<int>, x: int, i: nat): (r: nat)
    requires i <= |q|
    ensures i <= r <= |q|
    ensures r < |q| ==> q[r] == x
    ensures forall j :: i <= j < r ==> q[j] != x
    decreases |q| - i
  {
    if i == |q| || q[i] == x then i else IndexFrom(q, x, i + 1)
  }

  function IndexOf(q: seq<int>, x: int): (r: nat)
    ensures r <= |q|
    ensures r < |q| <==> x in q
    ensures r < |q| ==> q[r] == x
    ensures forall j :: 0 <= j < r ==> q[j] != x
  {
    IndexFrom(q, x, 0)
  }

  function Rotate(q: seq<int>, k: nat): (r: seq<int>)
    requires k <= |q|
    ensures |r| == |q|
  {
    q[k..] + q[..k]
  }

  /** The order in which the scheduler looks: from the thread after `current` round to it. */
  function Order(q: seq<int>, current: int): (r: seq<int>)
    ensures |r| == |q|
  {
    if current in q then Rotate(q, IndexOf(q, current) + 1) else q
  }

  predicate Runnable(threads: map<int, Thread>, idle: int, t: int) {
    t in threads && threads[t].state == Ready && t != idle
  }

  /** Where the first runnable thread of q stands at or after i, or |q|. */
  function RunnableFrom(q: seq<int>, threads: map<int, Thread>, idle: int, i: nat): (r: nat)
    requires i <= |q|
    ensures i <= r <= |q|
    ensures r < |q| ==> Runnable(threads, idle, q[r])
    ensures forall j :: i <= j < r ==> !Runnable(threads, idle, q[j])
    decreases |q| - i
  {
    if i == |q| || Runnable(threads, idle, q[i]) then i else RunnableFrom(q, threads, idle, i + 1)
  }

  /** The first runnable thread of a list, or 0. */
  function FirstRunnable(q: seq<int>, threads: map<int, Thread>, idle: int): (t: int)
    ensures t != 0 ==> t in q && Runnable(threads, idle, t)
  {
    var i := RunnableFrom(q, threads, idle, 0);
    if i < |q| then q[i] else 0
  }

  /** next_runnable_thread(). */
  function Select(s: Sched): int {
    var t := FirstRunnable(Order(s.runQueue, s.current), s.threads, s.idle);
    if t != 0 then t
    else if s.idle in s.threads && s.threads[s.idle].state == Ready then s.idle
    else 0
  }

  /** Keep the threads that are not zombies, and the current one. */
  function Kept(q: seq<int>, threads: map<int, Thread>, current: int): seq<int> {
    if q == [] then []
    else (if Reapable(threads, current, q[0]) then [] else [q[0]]) + Kept(q[1..], threads, current)
  }

  predicate Reapable(threads: map<int, Thread>, current: int, t: int) {
    t in threads && threads[t].state == Zombie && t != current
  }

  /** release_thread()'s check on a thread that is about to be freed; its deadline was cleared
      when it was marked DEAD. */
  predicate Releasable(th: Thread) {
    th.queue == 0
  }

  /** sched_reap_dead_threads(): zombies other than the current thread leave the run queue,
      pass through DEAD and are freed. */
  function Reap(s: Sched): (r: Outcome<Sched>)
    ensures r.Ok? ==> Grows(s, r.value)
  {
    var dead := set t | t in s.runQueue && Reapable(s.threads, s.current, t);
    if exists t :: t in dead && !Releasable(s.threads[t]) then Panic(BadRelease)
    else Ok(s.(runQueue := Kept(s.runQueue, s.threads, s.current),
               threads := s.threads - dead,
               released := s.released + set t | t in dead :: s.threads[t].id))
  }

  /** sched_yield(). */
  function Yield(s: Sched): (r: Outcome<Sched>)
    ensures r.Ok? ==> Grows(s, r.value)
  {
    var s :- Reap(s);
    var next := Select(s);
    if next == 0 || next == s.current then Ok(s)
    else Switch(s, next)
  }

  function Switch(s: Sched, next: int): (r: Outcome<Sched>)
    requires next in s.threads
    ensures r.Ok? ==> Grows(s, r.value)
  {
    var s :- if s.current in s.threads && s.threads[s.current].state == Running
             then var th :- Moved(s.threads[s.current], Ready, 0); Ok(SetThread(s, s.current, th))
             else Ok(s);
    var th :- Moved(s.threads[next], Running, 0);
    Ok(SetThread(s, next, th).(current := next))
  }

  // ----- steps of the current thread -----

  /** sched_sleep(deadline - tick) for a non-zero number of ticks: mark and yield. */
  function SleepUntil(s: Sched, deadline: nat): (r: Outcome<Sched>)
    requires s.current in s.threads
    ensures r.Ok? ==> Grows(s, r.value)
  {
    var th :- Moved(s.threads[s.current], Sleeping, deadline);
    Yield(SetThread(s, s.current, th))
  }

  /** wait_queue_enqueue_locked(). */
  function Enqueue(s: Sched, q: int, resume: Resume): (r: Outcome<Sched>)
    requires s.current in s.threads && q in s.waiters
    ensures r.Ok? ==> Grows(s, r.value)
  {
    var th := s.threads[s.current];
    if th.queue != 0 then Panic(AlreadyQueued)
    else Ok(SetThread(s, s.current, th.(queue := q, resume := resume, stamp := s.arrivals))
            .(waiters := s.waiters[q := s.waiters[q] + [s.current]], arrivals := s.arrivals + 1))
  }

  /** The blocking half of wait_queue_wait() and wait_queue_sleep(). */
  function Wait(s: Sched, q: int, resume: Resume): (r: Outcome<Sched>)
    requires s.current in s.threads && q in s.waiters
    ensures r.Ok? ==> Grows(s, r.value)
  {
    var s :- Enqueue(s, q, resume);
    var th :- Moved(s.threads[s.current], Waiting, 0);
    Yield(SetThread(s, s.current, th))
  }

  datatype Verdict = Met | TimedOut | Blocked

  /** One round of wait_queue_wait_timeout(): `now` was read before the lock was taken. */
  function TimedVerdict(now: nat, deadline: nat, condition: bool): Verdict {
    if condition then Met else if now >= deadline then TimedOut else Blocked
  }

  function TimedRound(s: Sched, q: int, now: nat, deadline: nat, condition: bool): (r: Outcome<Sched>)
    requires s.current in s.threads && q in s.waiters
    ensures r.Ok? ==> Grows(s, r.value)
  {
    if TimedVerdict(now, deadline, condition) != Blocked then
      Ok(SetThread(s, s.current, s.threads[s.current].(wakeTick := 0)))
    else
      var th :- Moved(s.threads[s.current], Sleeping, deadline);
      var s :- Enqueue(SetThread(s, s.current, th), q, Remove(q));
      Yield(s)
  }

  /** What a thread does when it runs again: wait_queue_remove_locked() on the queue it waited
      on, or the recheck of wait_queue_sleep(). */
  function Finish(s: Sched): (r: Outcome<Sched>)
    requires s.current in s.threads
    ensures r.Ok? ==> Grows(s, r.value)
  {
    var th := s.threads[s.current];
    match th.resume
    case Nothing => Ok(s)
    case Remove(q) =>
      if th.queue != q then Ok(SetThread(s, s.current, th.(resume := Nothing)))
      else if q !in s.waiters || s.current !in s.waiters[q] then Panic(Inconsistent)
      else Ok(SetThread(s, s.current, th.(queue := 0, resume := Nothing))
              .(waiters := s.waiters[q := Without(s.waiters[q], s.current)]))
    case Recheck(q) =>
      if th.state == Waiting then Yield(s) else Ok(SetThread(s, s.current, th.(resume := Nothing)))
  }

  function Without(q: seq<int>, x: int): seq<int> {
    var i := IndexOf(q, x);
    if i < |q| then q[..i] + q[i + 1..] else q
  }

  /** sched_thread_exit(), up to the first switch. */
  function Exit(s: Sched): (r: Outcome<Sched>)
    requires s.current in s.threads
    ensures r.Ok? ==> Grows(s, r.value)
  {
    var th := s.threads[s.current];
    if th.state == Zombie || th.state == Dead then Panic(ExitTwice)
    else
      var th :- Moved(th, Zombie, 0);
      Yield(SetThread(s, s.current, th))
  }

  /** The list and id part of kernel_thread_create(), at a fresh address; `idle` as well for
      sched_idle_create(). */
  function Create(s: Sched, t: int, idle: bool): Sched {
    s.(idle := if idle then t else s.idle,
       runQueue := s.runQueue + [t],
       threads := s.threads[t := Thread(s.nextId, Ready, 0, 0, Nothing, 0)],
       nextId := s.nextId + 1)
  }

  // ----- steps of threads or interrupts -----

  /** wait_queue_wake_one_locked(). */
  function WakeOne(s: Sched, q: int): (r: Outcome<Sched>)
    requires q in s.waiters
    ensures r.Ok? ==> Grows(s, r.value)
  {
    if s.waiters[q] == [] then Ok(s)
    else
      var t := s.waiters[q][0];
      if t !in s.threads || (s.threads[t].state != Waiting && s.threads[t].state != Sleeping) then Panic(NotWaiting)
      else
        var th :- Moved(s.threads[t].(queue := 0), Ready, 0);
        Ok(SetThread(s, t, th).(waiters := s.waiters[q := s.waiters[q][1..]]))
  }

  /** wait_queue_wake_all_locked(). */
  function WakeAll(s: Sched, q: int): (r: Outcome<Sched>)
    requires q in s.waiters
    ensures r.Ok? ==> Grows(s, r.value)
    decreases if q in s.waiters then |s.waiters[q]| else 0
  {
    if s.waiters[q] == [] then Ok(s)
    else
      var s' :- WakeOne(s, q);
      assert s'.waiters[q] == s.waiters[q][1..];
      WakeAll(s', q)
  }

  /** timer_tick(): advance the clock, then wake_sleeping_threads(). */
  function Tick(s: Sched): Sched {
    var now := s.tick + 1;
    s.(tick := now,
       threads := map t | t in s.threads :: Woken(s.threads[t], t in s.runQueue, now))
  }

  function Woken(th: Thread, visited: bool, now: nat): Thread {
    if visited && th.state == Sleeping && th.wakeTick <= now then th.(state := Ready, wakeTick := 0) else th
  }

  // ----- what every step keeps -----

  /** RUNNING implies current; deadlines only while SLEEPING; a queued thread is linked on its
      queue and will remove itself or recheck; identities are unique and never reused. */
  ghost predicate ThreadOk(s: Sched, t: int)
    requires t in s.threads
  {
    var th := s.threads[t];
    && (th.state == Running ==> t == s.current)
    && th.state != Dead
    && (th.wakeTick != 0 ==> th.state == Sleeping)
    && (th.state == Zombie ==> th.queue == 0 && th.resume == Nothing)
    && (th.queue != 0 ==> th.resume != Nothing && th.resume.queue == th.queue
                          && th.queue in s.waiters && t in s.waiters[th.queue])
    && (th.resume != Nothing ==> th.resume.queue != 0)
    && (th.resume.Recheck? && th.queue != 0 ==> th.state == Waiting)
    && th.id < s.nextId && th.id !in s.released
  }

  /** A wait queue holds, in arrival order and each once, threads whose field points to it; on
      an untimed queue they are all WAITING. */
  ghost predicate QueueOk(s: Sched, q: int)
    requires q in s.waiters
  {
    && q != 0
    && (forall i :: 0 <= i < |s.waiters[q]| ==> MemberOk(s, q, s.waiters[q][i]))
    && (forall i, j :: 0 <= i < j < |s.waiters[q]| ==> Before(s.threads, s.waiters[q][i], s.waiters[q][j]))
  }

  predicate MemberOk(s: Sched, q: int, t: int) {
    && t in s.threads && s.threads[t].queue == q && s.threads[t].stamp < s.arrivals
    && (q in s.untimed ==> s.threads[t].state == Waiting)
  }

  predicate Before(threads: map<int, Thread>, t: int, u: int) {
    t in threads && u in threads && threads[t].stamp < threads[u].stamp
  }

  /** A queue stays in order while its members keep their place on it. */
  lemma QueueStays(s: Sched, s': Sched, q: int)
    requires q in s.waiters && QueueOk(s, q) && q in s'.waiters && s'.waiters[q] == s.waiters[q]
    requires s'.arrivals == s.arrivals && s'.untimed == s.untimed
    requires forall t :: t in s.threads && s.threads[t].queue == q ==>
      && t in s'.threads && s'.threads[t].queue == q && s'.threads[t].stamp == s.threads[t].stamp
      && (q in s.untimed && s.threads[t].state == Waiting ==> s'.threads[t].state == Waiting)
    ensures QueueOk(s', q)
  {
    var w := s.waiters[q];
    forall i | 0 <= i < |w|
      ensures MemberOk(s', q, w[i])
    {
      assert MemberOk(s, q, w[i]);
    }
    forall i, j | 0 <= i < j < |w|
      ensures Before(s'.threads, w[i], w[j])
    {
      assert Before(s.threads, w[i], w[j]);
      assert MemberOk(s, q, w[i]) && MemberOk(s, q, w[j]);
    }
  }

  predicate ShowSched(i: int) { true }

  /** The invariant, kept folded: `assert ShowSched(0)` opens it. */
  ghost predicate Inv(s: Sched) {
    forall i {:trigger ShowSched(i)} :: ShowSched(i) ==> Core(s)
  }

  ghost predicate Core(s: Sched) {
    && Distinct(s.runQueue) && 0 !in s.runQueue
    && (forall t :: t in s.threads <==> t in s.runQueue)
    && (s.current == 0 || s.current in s.threads)
    && (s.idle == 0 || (s.idle in s.threads && s.threads[s.idle].state != Zombie))
    && (forall t :: t in s.threads ==> ThreadOk(s, t))
    && (forall q :: q in s.waiters ==> QueueOk(s, q))
    && (forall t, u :: t in s.threads && u in s.threads && t != u ==> s.threads[t].id != s.threads[u].id)
    && (forall x :: x in s.released ==> x < s.nextId)
  }

  lemma {:induction false} KeptMembers(q: seq<int>, threads: map<int, Thread>, current: int)
    ensures forall x :: x in Kept(q, threads, current) <==> x in q && !Reapable(threads, current, x)
    decreases |q|
  {
    if q != [] {
      KeptMembers(q[1..], threads, current);
      assert q == [q[0]] + q[1..];
    }
  }

  lemma {:induction false} KeptConcat(a: seq<int>, b: seq<int>, threads: map<int, Thread>, current: int)
    ensures Kept(a + b, threads, current) == Kept(a, threads, current) + Kept(b, threads, current)
    decreases |a|
  {
    if a == [] {
      assert a + b == b;
    } else {
      KeptConcat(a[1..], b, threads, current);
      assert (a + b)[0] == a[0] && (a + b)[1..] == a[1..] + b;
      var h := if Reapable(threads, current, a[0]) then [] else [a[0]];
      var x, y := Kept(a[1..], threads, current), Kept(b, threads, current);
      assert Kept(a, threads, current) == h + x && Kept(a + b, threads, current) == h + Kept(a[1..] + b, threads, current);
      assert h + (x + y) == (h + x) + y;
    }
  }

  lemma {:induction false} KeptDistinct(q: seq<int>, threads: map<int, Thread>, current: int)
    requires Distinct(q)
    ensures Distinct(Kept(q, threads, current))
    decreases |q|
  {
    if q != [] {
      KeptDistinct(q[1..], threads, current);
      KeptMembers(q[1..], threads, current);
      var r := Kept(q[1..], threads, current);
      if !Reapable(threads, current, q[0]) {
        assert Kept(q, threads, current) == [q[0]] + r;
        assert q[0] !in q[1..];
        assert forall i :: 0 <= i < |r| ==> r[i] in q[1..];
      }
    }
  }

  lemma ReapKeeps(s: Sched)
    requires Inv(s)
    ensures Reap(s).Ok? && Inv(Reap(s).value)
  {
    assert ShowSched(0);
    var dead := set t | t in s.runQueue && Reapable(s.threads, s.current, t);
    forall t | t in dead
      ensures Releasable(s.threads[t])
    {
      assert ThreadOk(s, t);
    }
    KeptDistinct(s.runQueue, s.threads, s.current);
    KeptMembers(s.runQueue, s.threads, s.current);
    var s' := Reap(s).value;
    forall t | t in s'.threads
      ensures ThreadOk(s', t)
    {
      ReapKeepsThread(s, t);
    }
    forall q | q in s'.waiters
      ensures QueueOk(s', q)
    {
      ReapKeepsQueue(s, q);
    }
  }

  lemma ReapKeepsThread(s: Sched, t: int)
    requires Inv(s) && Reap(s).Ok? && t in Reap(s).value.threads
    ensures ThreadOk(Reap(s).value, t)
  {
    assert ShowSched(0);
    assert ThreadOk(s, t);
  }

  lemma ReapKeepsQueue(s: Sched, q: int)
    requires Inv(s) && q in s.waiters && Reap(s).Ok?
    ensures QueueOk(Reap(s).value, q)
  {
    assert ShowSched(0);
    var s' := Reap(s).value;
    assert QueueOk(s, q);
    forall i | 0 <= i < |s.waiters[q]|
      ensures MemberOk(s', q, s.waiters[q][i])
    {
      assert MemberOk(s, q, s.waiters[q][i]);
      assert ThreadOk(s, s.waiters[q][i]);
    }
    forall i, j | 0 <= i < j < |s.waiters[q]|
      ensures Before(s'.threads, s.waiters[q][i], s.waiters[q][j])
    {
      assert Before(s.threads, s.waiters[q][i], s.waiters[q][j]);
      assert MemberOk(s', q, s.waiters[q][i]) && MemberOk(s', q, s.waiters[q][j]);
    }
  }

  // ----- one thread changes, the wait queues do not -----

  /** What a changed thread must satisfy for the rest of the state to be unaffected. */
  ghost predicate Fits(s: Sched, t: int, th: Thread, current: int) {
    && t in s.threads
    && th.id == s.threads[t].id && th.queue == s.threads[t].queue && th.stamp == s.threads[t].stamp
    && (th.queue != 0 && th.queue in s.untimed ==> th.state == Waiting)
    && (t == s.idle ==> th.state != Zombie)
    && (current == 0 || current in s.threads)
    && (forall u :: u in s.threads && u != t && s.threads[u].state == Running ==> u == current)
  }

  lemma UpdateKeeps(s: Sched, t: int, th: Thread, current: int)
    requires Inv(s) && Fits(s, t, th, current) && ThreadOk(SetThread(s, t, th).(current := current), t)
    ensures Inv(SetThread(s, t, th).(current := current))
  {
    assert ShowSched(0);
    var s' := SetThread(s, t, th).(current := current);
    forall u | u in s'.threads
      ensures ThreadOk(s', u)
    {
      assert ThreadOk(s, u);
    }
    forall q | q in s'.waiters
      ensures QueueOk(s', q)
    {
      assert QueueOk(s, q);
      QueueStays(s, s', q);
    }
  }

  // ----- a thread leaves or joins a wait queue -----

  lemma WithoutMembers(q: seq<int>, x: int)
    requires Distinct(q) && x in q
    ensures |Without(q, x)| == |q| - 1
    ensures forall y :: y in Without(q, x) <==> y in q && y != x
    ensures forall i :: 0 <= i < |q| - 1 ==> Without(q, x)[i] == q[if i < IndexOf(q, x) then i else i + 1]
  {
  }

  lemma QueueDistinct(s: Sched, q: int)
    requires q in s.waiters && QueueOk(s, q)
    ensures Distinct(s.waiters[q])
  {
  }

  function Left(s: Sched, q: int, t: int, th: Thread): Sched
    requires q in s.waiters
  {
    SetThread(s, t, th).(waiters := s.waiters[q := Without(s.waiters[q], t)])
  }

  lemma LeaveKeeps(s: Sched, q: int, t: int, th: Thread)
    requires Inv(s) && q in s.waiters && t in s.waiters[q]
    requires t in s.threads && th.id == s.threads[t].id && th.queue == 0
    requires t == s.idle ==> th.state != Zombie
    requires ThreadOk(Left(s, q, t, th), t)
    ensures Inv(Left(s, q, t, th))
  {
    assert ShowSched(0);
    var s' := Left(s, q, t, th);
    assert QueueOk(s, q);
    QueueDistinct(s, q);
    WithoutMembers(s.waiters[q], t);
    forall u | u in s'.threads
      ensures ThreadOk(s', u)
    {
      assert ThreadOk(s, u);
    }
    LeaveKeepsQueue(s, q, t, th);
    forall p | p in s'.waiters && p != q
      ensures QueueOk(s', p)
    {
      OtherQueueKept(s, s', q, p, t);
    }
  }

  lemma LeaveKeepsQueue(s: Sched, q: int, t: int, th: Thread)
    requires q in s.waiters && QueueOk(s, q) && t in s.waiters[q] && t in s.threads
    ensures QueueOk(Left(s, q, t, th), q)
  {
  }

  /** A queue that thread t is not on does not notice t's change. */
  lemma OtherQueueKept(s: Sched, s': Sched, q: int, p: int, t: int)
    requires p in s.waiters && QueueOk(s, p) && t in s.threads && s.threads[t].queue != p
    requires p in s'.waiters && s'.waiters[p] == s.waiters[p] && s'.untimed == s.untimed && s.arrivals <= s'.arrivals
    requires forall u :: u in s.threads && u != t ==> u in s'.threads && s'.threads[u] == s.threads[u]
    ensures QueueOk(s', p)
  {
  }

  function Joined(s: Sched, q: int, t: int, th: Thread): Sched
    requires q in s.waiters
  {
    SetThread(s, t, th).(waiters := s.waiters[q := s.waiters[q] + [t]], arrivals := s.arrivals + 1)
  }

  lemma JoinKeeps(s: Sched, q: int, t: int, th: Thread)
    requires Inv(s) && q in s.waiters && t in s.threads && s.threads[t].queue == 0
    requires th.id == s.threads[t].id && th.queue == q && th.stamp == s.arrivals
    requires q in s.untimed ==> th.state == Waiting
    requires t == s.idle ==> th.state != Zombie
    requires ThreadOk(Joined(s, q, t, th), t)
    ensures Inv(Joined(s, q, t, th))
  {
    assert ShowSched(0);
    var s', w := Joined(s, q, t, th), s.waiters[q];
    assert QueueOk(s, q);
    forall u | u in s'.threads
      ensures ThreadOk(s', u)
    {
      assert ThreadOk(s, u);
    }
    var r := w + [t];
    forall i | 0 <= i < |r|
      ensures MemberOk(s', q, r[i])
    {
      if i < |w| {
        assert MemberOk(s, q, w[i]);
      }
    }
    forall i, j | 0 <= i < j < |r|
      ensures Before(s'.threads, r[i], r[j])
    {
      assert MemberOk(s, q, w[i]) && w[i] != t;
      if j < |w| {
        assert Before(s.threads, w[i], w[j]);
        assert MemberOk(s, q, w[j]);
      }
    }
    assert QueueOk(s', q);
    forall p | p in s'.waiters && p != q
      ensures QueueOk(s', p)
    {
      assert QueueOk(s, p);
      OtherQueueKept(s, s', q, p, t);
    }
  }

  // ----- every step keeps the invariant -----

  lemma SwitchKeeps(s: Sched, next: int)
    requires Inv(s) && next in s.threads && s.threads[next].state == Ready && next != s.current
    ensures Switch(s, next).Ok? && Inv(Switch(s, next).value)
    ensures Switch(s, next).value.current == next
  {
    assert ShowSched(0);
    var s1 := s;
    if s.current in s.threads && s.threads[s.current].state == Running {
      var th := s.threads[s.current].(state := Ready, wakeTick := 0);
      s1 := SetThread(s, s.current, th);
      assert ThreadOk(s, s.current);
      assert s1 == SetThread(s, s.current, th).(current := s.current);
      RunningIsCurrent(s);
      UpdateKeeps(s, s.current, th, s.current);
    }
    assert ThreadOk(s1, next);
    forall u | u in s1.threads && u != next
      ensures s1.threads[u].state != Running
    {
      assert ThreadOk(s1, u);
    }
    UpdateKeeps(s1, next, s1.threads[next].(state := Running), next);
  }

  /** A running thread is on no untimed queue. */
  lemma RunningIsCurrent(s: Sched)
    requires Inv(s)
    ensures forall u :: u in s.threads && s.threads[u].state == Running ==> u == s.current
    ensures s.current in s.threads && s.threads[s.current].state != Waiting ==> s.threads[s.current].queue !in s.untimed || s.threads[s.current].queue == 0
  {
    assert ShowSched(0);
    forall u | u in s.threads
      ensures s.threads[u].state == Running ==> u == s.current
    {
      assert ThreadOk(s, u);
    }
    if s.current in s.threads && s.threads[s.current].queue != 0 {
      var q := s.threads[s.current].queue;
      assert ThreadOk(s, s.current) && QueueOk(s, q);
      var i :| 0 <= i < |s.waiters[q]| && s.waiters[q][i] == s.current;
      assert MemberOk(s, q, s.waiters[q][i]);
    }
  }

  lemma SelectReady(s: Sched)
    requires Inv(s) && Select(s) != 0
    ensures Select(s) in s.threads && s.threads[Select(s)].state == Ready
  {
  }

  lemma YieldKeeps(s: Sched)
    requires Inv(s)
    ensures Yield(s).Ok? && Inv(Yield(s).value)
  {
    assert ShowSched(0);
    ReapKeeps(s);
    var r := Reap(s).value;
    var next := Select(r);
    if next != 0 && next != r.current {
      SelectReady(r);
      SwitchKeeps(r, next);
    }
  }
}

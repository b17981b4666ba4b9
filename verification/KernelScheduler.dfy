/** kernel/sched/ as written: thread objects in memory, the run queue linked through `next`,
    the wait queues through `wait_next`. Every method is proved to do what the step of the
    same name in Scheduler does; `ok` is false where the source panics. */
module KernelScheduler {
  import opened Links
  import opened Scheduler
  import opened ThreadQueues

  class Kernel {
    var threads: map<int, Thread>
    var next: map<int, int>
    var runHead: int
    var runTail: int
    var waitNext: map<int, int>
    var waitHead: map<int, int>
    var waitTail: map<int, int>
    var current: int
    var idle: int
    var tick: nat
    var nextId: nat
    var arrivals: nat
    ghost var runQueue: seq<int>
    ghost var waiters: map<int, seq<int>>
    ghost var untimed: set<int>
    ghost var released: set<nat>

    /** The abstract scheduler state. */
    ghost function Snapshot(): Sched
      reads this`threads, this`current, this`idle, this`tick, this`nextId, this`arrivals, this`runQueue, this`waiters, this`untimed, this`released
    {
      Sched(runQueue, threads, waiters, untimed, current, idle, tick, nextId, arrivals, released)
    }

    ghost predicate RunList()
      reads this`threads, this`next, this`runHead, this`runTail, this`runQueue, this`current, this`idle
    {
      RunListed(next, runHead, runTail, runQueue, threads, current, idle)
    }

    ghost predicate Waits()
      reads this`threads, this`waitNext, this`waitHead, this`waitTail, this`waiters
    {
      WaitLists(threads, waitNext, waitHead, waitTail, waiters)
    }

    /** The links agree with the queues. */
    ghost predicate Valid()
      reads this
    {
      RunList() && Waits()
    }

    /** sched_init(), and wait_queue_init() for each queue of a given set. */
    constructor (queues: set<int>, timed: set<int>, now: nat)
      requires 0 !in queues
      ensures Valid() && Snapshot() == Initial(queues, queues - timed, now)
    {
      threads, next, runHead, runTail, waitNext := map[], map[], 0, 0, map[];
      waitHead, waitTail := map q | q in queues :: 0, map q | q in queues :: 0;
      current, idle, tick, nextId, arrivals := 0, 0, now, 1, 0;
      runQueue, waiters, untimed, released := [], map q | q in queues :: [], queues - timed, {};
      new;
      assert forall q :: q in waiters ==> WaitList(threads, waitNext, q, waitHead[q], waitTail[q], waiters[q]);
    }

    // ----- kernel/sched/core.c -----

    /** enqueue_thread(). */
    method EnqueueThread(t: int)
      requires RunList() && t !in runQueue && t in threads
      modifies this`next, this`runHead, this`runTail, this`runQueue
      ensures RunList() && runQueue == old(runQueue) + [t]
    {
      assert ShowRun(0);
      AppendLinked(next, runHead, runQueue, t);
      next := next[t := 0];
      if runTail != 0 {
        next := next[runTail := t];
      } else {
        runHead := t;
      }
      runTail := t;
      runQueue := runQueue + [t];
    }

    /** One scan of next_runnable_thread(): from `from` up to the node `stop`. */
    method FindReady(from: int, stop: int, ghost i: nat, ghost k: nat) returns (found: int, ghost m: nat)
      requires RunList() && i <= k <= |runQueue|
      requires from == First(runQueue[i..]) && stop == First(runQueue[k..])
      ensures i <= m <= k && (forall j :: i <= j < m ==> !Runnable(threads, idle, runQueue[j]))
      ensures if m < k then found == runQueue[m] && found != 0 && Runnable(threads, idle, found) else found == 0
    {
      assert ShowRun(0);
      var thread := from;
      m := i;
      if i < k {
        FirstDiffers(runQueue, i, k);
      }
      while thread != stop
        invariant i <= m <= k && thread == First(runQueue[m..]) && (m < k ==> thread != stop)
        invariant forall j :: i <= j < m ==> !Runnable(threads, idle, runQueue[j])
        decreases k - m
      {
        assert m < k;
        NextIs(next, runHead, runQueue, m);
        if threads[thread].state == Ready && thread != idle {
          return thread, m;
        }
        thread := next[thread];
        m := m + 1;
        if m < k {
          FirstDiffers(runQueue, m, k);
        }
      }
      return 0, m;
    }

    /** Where next_runnable_thread() starts: after the current thread, or at the head. */
    method ScanStart() returns (start: int, ghost s: nat)
      requires RunList()
      ensures s <= |runQueue| && start == First(runQueue[s..]) && Order(runQueue, current) == Rotate(runQueue, s)
    {
      assert ShowRun(0);
      start := runHead;
      s := 0;
      if current != 0 {
        ghost var k := IndexOf(runQueue, current);
        NextIs(next, runHead, runQueue, k);
        if next[current] != 0 {
          start := next[current];
          s := k + 1;
        } else {
          assert Rotate(runQueue, |runQueue|) == Rotate(runQueue, 0);
        }
      } else {
        assert Rotate(runQueue, 0) == runQueue;
      }
    }

    /** next_runnable_thread(). */
    method NextRunnableThread() returns (found: int)
      requires RunList()
      ensures found == Select(Snapshot())
    {
      assert ShowRun(0);
      var start, s := ScanStart();
      ghost var m;
      found, m := FindReady(start, 0, s, |runQueue|);
      if found != 0 {
        ScanAfter(runQueue, s, threads, idle, m);
        return;
      }
      found, m := FindReady(runHead, start, 0, s);
      ScanBefore(runQueue, s, threads, idle, m);
      if found != 0 {
        return;
      }
      if idle != 0 && threads[idle].state == Ready {
        return idle;
      }
      return 0;
    }

    /** wake_sleeping_threads(). */
    method WakeSleepingThreads(now: nat)
      requires RunList()
      modifies this`threads
      ensures RunList() && threads.Keys == old(threads.Keys)
      ensures forall t :: t in threads ==> threads[t] == Woken(old(threads[t]), t in runQueue, now)
    {
      assert ShowRun(0);
      var thread := runHead;
      ghost var i := 0;
      while thread != 0
        invariant 0 <= i <= |runQueue| && thread == if i < |runQueue| then runQueue[i] else 0
        invariant RunList() && threads.Keys == old(threads.Keys)
        invariant forall j :: 0 <= j < |runQueue| ==> threads[runQueue[j]] == Woken(old(threads[runQueue[j]]), j < i, now)
        invariant forall t :: t in threads && t !in runQueue ==> threads[t] == old(threads[t])
        decreases |runQueue| - i
      {
        assert ShowRun(0);
        NextIs(next, runHead, runQueue, i);
        if threads[thread].state == Sleeping && threads[thread].wakeTick <= now {
          threads := threads[thread := threads[thread].(state := Ready, wakeTick := 0)];
        }
        thread := next[thread];
        i := i + 1;
      }
    }

    /** timer_tick(): advance the clock, then sched_tick(). */
    method TimerTick()
      requires Valid()
      modifies this`threads, this`tick
      ensures Valid() && Snapshot() == Tick(old(Snapshot()))
    {
      tick := tick + 1;
      WakeSleepingThreads(tick);
      SameQueues(old(threads), threads, waitNext, waitHead, waitTail, waiters);
      TickIs(old(Snapshot()), threads);
    }

    // ----- kernel/sched/thread.c -----

    /** release_thread(): its checks, then the object is freed. */
    method ReleaseThread(t: int) returns (ok: bool)
      requires t in threads && t in waitNext
      modifies this`threads
      ensures ok <==> t != 0 && t != current && old(threads[t]).state == Dead && old(threads[t]).queue == 0 && waitNext[t] == 0 && old(threads[t]).wakeTick == 0
      ensures threads == if ok then old(threads) - {t} else old(threads)
    {
      if t == 0 || t == current {
        return false;
      }
      if threads[t].state != Dead {
        return false;
      }
      if threads[t].queue != 0 || waitNext[t] != 0 {
        return false;
      }
      if threads[t].wakeTick != 0 {
        return false;
      }
      threads := threads - {t};
      return true;
    }

    /** Mark one zombie DEAD, unlink it from the run queue, push it on the reap list. */
    method DetachThread(prev: int, thread: int, reap: int)
      requires thread in threads && thread in next
      modifies this`next, this`runHead, this`runTail, this`threads
      ensures next == (if prev != 0 then old(next)[prev := old(next[thread])] else old(next))[thread := reap]
      ensures runHead == if prev != 0 then old(runHead) else old(next[thread])
      ensures runTail == if old(runTail) == thread then prev else old(runTail)
      ensures threads == old(threads)[thread := old(threads[thread]).(state := Dead, wakeTick := 0)]
    {
      var following := next[thread];
      threads := threads[thread := threads[thread].(state := Dead, wakeTick := 0)];
      if prev != 0 {
        next := next[prev := following];
      } else {
        runHead := following;
      }
      if runTail == thread {
        runTail := prev;
      }
      next := next[thread := reap];
    }

    /** The locked half of sched_reap_dead_threads(): non-current zombies leave the run queue,
        become DEAD, and are collected on a list of their own. */
    method DetachZombies() returns (reap: int, ghost gone: seq<int>)
      requires RunList()
      modifies this`next, this`runHead, this`runTail, this`threads, this`runQueue
      ensures runQueue == Kept(old(runQueue), old(threads), current)
      ensures Linked(next, runHead, runQueue) && runTail == Last(runQueue)
      ensures Linked(next, reap, gone) && forall t :: t in gone <==> t in old(runQueue) && Reapable(old(threads), current, t)
      ensures threads.Keys == old(threads.Keys)
      ensures forall t :: t in threads ==> threads[t] == if t in gone then old(threads[t]).(state := Dead, wakeTick := 0) else old(threads[t])
    {
      assert ShowRun(0);
      var prev, thread := 0, runHead;
      reap, gone := 0, [];
      ghost var q, i := runQueue, 0;
      ReapStart(next, runHead, runTail, q, threads, current);
      while thread != 0
        invariant Reaping(next, runHead, runTail, reap, prev, thread, threads, q, old(threads), current, i, gone)
        invariant i <= |q|
        decreases |q| - i
      {
        ReapStep(next, runHead, runTail, reap, prev, thread, threads, q, old(threads), current, i, gone);
        var following := next[thread];
        if threads[thread].state == Zombie && thread != current {
          DetachThread(prev, thread, reap);
          reap := thread;
          gone := [thread] + gone;
        } else {
          prev := thread;
        }
        thread := following;
        i := i + 1;
      }
      ReapDone(next, runHead, runTail, reap, prev, threads, q, old(threads), current, i, gone);
      runQueue := Kept(q, old(threads), current);
    }

    /** The unlocked half: release what was collected, or panic at the first bad one. */
    method ReleaseAll(first: int, ghost gone: seq<int>) returns (ok: bool)
      requires Linked(next, first, gone) && current !in gone
      requires forall t :: t in gone ==> t in threads && t in waitNext && threads[t].state == Dead && threads[t].wakeTick == 0 && (threads[t].queue == 0 ==> waitNext[t] == 0)
      modifies this`threads, this`next
      ensures ok <==> forall t :: t in gone ==> old(threads[t]).queue == 0
      ensures ok ==> threads == old(threads) - (set t | t in gone)
      ensures forall t :: t in old(next) && t !in gone ==> t in next && next[t] == old(next[t])
    {
      var reap := first;
      ghost var j := 0;
      while reap != 0
        invariant 0 <= j <= |gone| && Linked(next, reap, gone[j..])
        invariant forall t :: t in gone[..j] ==> old(threads[t]).queue == 0
        invariant threads == old(threads) - (set t | t in gone[..j])
        invariant forall t :: t in old(next) && t !in gone ==> t in next && next[t] == old(next[t])
        decreases |gone| - j
      {
        PopLinked(next, reap, gone[j..]);
        ghost var rest := gone[j..][1..];
        assert gone[j..][0] == gone[j] && rest == gone[j + 1..] && gone[..j + 1] == gone[..j] + [gone[j]];
        assert reap in gone && reap !in rest && reap !in gone[..j];
        var following := next[reap];
        ghost var was := next;
        next := next[reap := 0];
        SameLinks(was, next, following, rest);
        ok := ReleaseThread(reap);
        if !ok {
          return;
        }
        reap := following;
        j := j + 1;
      }
      assert gone[..j] == gone;
      ok := true;
    }

    /** Both halves of sched_reap_dead_threads(), on the run queue and the thread objects. */
    method DetachAndRelease() returns (ok: bool)
      requires Valid()
      modifies this`next, this`runHead, this`runTail, this`threads, this`runQueue
      ensures ok == Reap(old(Snapshot())).Ok?
      ensures ok ==> threads == Reap(old(Snapshot())).value.threads && runQueue == Kept(old(runQueue), old(threads), current)
      ensures ok ==> Linked(next, runHead, runQueue) && runTail == Last(runQueue)
    {
      RunThreads(next, runHead, runTail, runQueue, threads, current, idle);
      Unqueued(threads, waitNext, waitHead, waitTail, waiters);
      var reap, gone := DetachZombies();
      ghost var mid, links := threads, next;
      ReapTargets(old(Snapshot()), gone, mid);
      ok := ReleaseAll(reap, gone);
      ReapIs(old(Snapshot()), gone, mid, ok);
      if ok {
        ReapKept(old(Snapshot()), gone);
        SameLinks(links, next, runHead, runQueue);
      }
    }

    /** sched_reap_dead_threads(). */
    method ReapDeadThreads() returns (ok: bool)
      requires Valid()
      modifies this`next, this`runHead, this`runTail, this`threads, this`runQueue, this`released
      ensures ok == Reap(old(Snapshot())).Ok?
      ensures ok ==> Valid() && Snapshot() == Reap(old(Snapshot())).value
    {
      ok := DetachAndRelease();
      if ok {
        released := Reap(old(Snapshot())).value.released;
        ReapRunListed(old(next), old(runHead), old(runTail), next, runHead, runTail, old(Snapshot()));
        RunThreads(old(next), old(runHead), old(runTail), old(runQueue), old(threads), current, idle);
        ReapSameQueues(old(Snapshot()), waitNext, waitHead, waitTail);
      }
    }

    // ----- state setters (kernel/sched/sched.h) -----

    /** thread_set_ready(), thread_set_running(), thread_set_sleeping(), thread_set_waiting()
        and thread_set_zombie(), after their transition check. */
    method SetState(t: int, to: State, wakeTick: nat) returns (ok: bool)
      requires Valid() && t in threads && (t == idle ==> to != Zombie)
      modifies this`threads
      ensures Valid() && ok == Moved(old(threads[t]), to, wakeTick).Ok?
      ensures threads == if ok then old(threads)[t := Moved(old(threads[t]), to, wakeTick).value] else old(threads)
    {
      assert ShowRun(0);
      if !Allowed(threads[t].state, to) {
        return false;
      }
      ghost var was := threads;
      if to == Running {
        threads := threads[t := threads[t].(state := to)];
      } else {
        threads := threads[t := threads[t].(state := to, wakeTick := if to == Sleeping then wakeTick else 0)];
      }
      SameQueues(was, threads, waitNext, waitHead, waitTail, waiters);
      return true;
    }

    /** sched_yield(), from a context in which switching is allowed. */
    method SchedYield() returns (ok: bool)
      requires Valid()
      modifies this`next, this`runHead, this`runTail, this`threads, this`runQueue, this`released, this`current
      ensures ok == Yield(old(Snapshot())).Ok?
      ensures ok ==> Valid() && Snapshot() == Yield(old(Snapshot())).value
    {
      ok := ReapDeadThreads();
      if !ok {
        return;
      }
      ghost var s := Snapshot();
      RunThreads(next, runHead, runTail, runQueue, threads, current, idle);
      assert Reap(old(Snapshot())) == Outcome.Ok(s);
      var following := NextRunnableThread();
      if following == 0 || following == current {
        return;
      }
      SelectListed(s);
      ok := SwitchTo(following);
    }

    /** The tail of sched_yield(): the processor moves to another thread. */
    method SwitchTo(following: int) returns (ok: bool)
      requires Valid() && following in runQueue && following in threads
      modifies this`threads, this`current
      ensures ok == Switch(old(Snapshot()), following).Ok?
      ensures ok ==> Valid() && Snapshot() == Switch(old(Snapshot()), following).value
    {
      assert ShowRun(0);
      if current != 0 && threads[current].state == Running {
        ok := SetState(current, Ready, 0);
      }
      ok := SetState(following, Running, 0);
      if ok {
        current := following;
      }
    }

    // ----- kernel/sched/wait.c -----

    /** The link writes of wait_queue_enqueue_locked(). */
    method LinkWaiter(q: int, t: int)
      requires q in waitTail && q in waitHead
      modifies this`waitNext, this`waitHead, this`waitTail
      ensures waitNext == Appended(old(waitNext), old(waitTail[q]), t)
      ensures waitHead == if old(waitTail[q]) == 0 then old(waitHead)[q := t] else old(waitHead)
      ensures waitTail == old(waitTail)[q := t]
    {
      waitNext := waitNext[t := 0];
      if waitTail[q] != 0 {
        waitNext := waitNext[waitTail[q] := t];
      } else {
        waitHead := waitHead[q := t];
      }
      waitTail := waitTail[q := t];
    }

    /** wait_queue_enqueue_locked() of the current thread. */
    method WaitQueueEnqueue(q: int, resume: Resume) returns (ok: bool)
      requires Valid() && q in waiters && current != 0 && current in threads
      modifies this`threads, this`waitNext, this`waitHead, this`waitTail, this`waiters, this`arrivals
      ensures ok == Enqueue(old(Snapshot()), q, resume).Ok?
      ensures ok ==> Valid() && Snapshot() == Enqueue(old(Snapshot()), q, resume).value
    {
      if threads[current].queue != 0 {
        return false;
      }
      var th := threads[current].(queue := q, resume := resume, stamp := arrivals);
      QueueCurrent(q, th);
      arrivals := arrivals + 1;
      return true;
    }

    method QueueCurrent(q: int, th: Thread)
      requires Valid() && q in waiters && current != 0 && current in threads && threads[current].queue == 0
      requires th.queue == q && th.state == threads[current].state
      modifies this`threads, this`waitNext, this`waitHead, this`waitTail, this`waiters
      ensures Valid() && threads == old(threads)[current := th] && waiters == old(waiters)[q := old(waiters[q]) + [current]]
    {
      var t := current;
      Unqueued(threads, waitNext, waitHead, waitTail, waiters);
      EnqueueLists(threads, waitNext, waitHead, waitTail, waiters, q, t, th);
      SameRun(next, runHead, runTail, runQueue, threads, threads[t := th], current, idle);
      LinkWaiter(q, t);
      threads := threads[t := th];
      waiters := waiters[q := waiters[q] + [t]];
    }

    /** wait_queue_remove_head_locked(). */
    method WaitQueueRemoveHead(q: int) returns (t: int)
      requires Valid() && q in waiters
      modifies this`threads, this`waitNext, this`waitHead, this`waitTail, this`waiters
      ensures Valid()
      ensures t == First(old(waiters[q])) && (t == 0 <==> old(waiters[q]) == [])
      ensures t == 0 ==> threads == old(threads) && waiters == old(waiters)
      ensures t != 0 ==> t in old(threads) && threads == old(threads)[t := old(threads[t]).(queue := 0)] && waiters == old(waiters)[q := old(waiters[q])[1..]]
    {
      HeadIs(threads, waitNext, waitHead, waitTail, waiters, q);
      t := waitHead[q];
      if t == 0 {
        return;
      }
      var th := threads[t].(queue := 0);
      RemoveHeadLists(threads, waitNext, waitHead, waitTail, waiters, q, th);
      SameRun(next, runHead, runTail, runQueue, threads, threads[t := th], current, idle);
      DropHead(q, t);
      threads := threads[t := th];
      waiters := waiters[q := waiters[q][1..]];
    }

    /** Its writes to the links. */
    method DropHead(q: int, t: int)
      requires q in waitHead && q in waitTail && t in waitNext
      modifies this`waitNext, this`waitHead, this`waitTail
      ensures waitHead == old(waitHead)[q := old(waitNext)[t]] && waitNext == old(waitNext)[t := 0]
      ensures waitTail == if old(waitNext)[t] == 0 then old(waitTail)[q := 0] else old(waitTail)
    {
      waitHead := waitHead[q := waitNext[t]];
      if waitHead[q] == 0 {
        waitTail := waitTail[q := 0];
      }
      waitNext := waitNext[t := 0];
    }

    /** wait_queue_mark_ready_locked(): only a blocked thread may be woken. */
    method MarkReady(t: int) returns (ok: bool)
      requires Valid() && t in threads
      modifies this`threads
      ensures Valid()
      ensures ok <==> old(threads[t]).state == Waiting || old(threads[t]).state == Sleeping
      ensures ok ==> threads == old(threads)[t := old(threads[t]).(state := Ready, wakeTick := 0)]
    {
      if threads[t].state != Waiting && threads[t].state != Sleeping {
        return false;
      }
      ok := SetState(t, Ready, 0);
    }

    /** wait_queue_wake_one_locked(). */
    method WakeOneLocked(q: int) returns (ok: bool)
      requires Valid() && q in waiters
      modifies this`threads, this`waitNext, this`waitHead, this`waitTail, this`waiters
      ensures ok == WakeOne(old(Snapshot()), q).Ok?
      ensures ok ==> Valid() && Snapshot() == WakeOne(old(Snapshot()), q).value
    {
      var t := WaitQueueRemoveHead(q);
      if t == 0 {
        return true;
      }
      ok := MarkReady(t);
      ghost var th := old(threads[t]).(queue := 0, state := Ready, wakeTick := 0);
      assert ok ==> threads == old(threads)[t := th];
    }

    /** wait_queue_wake_all_locked(). */
    method WakeAllLocked(q: int) returns (ok: bool)
      requires Valid() && q in waiters
      modifies this`threads, this`waitNext, this`waitHead, this`waitTail, this`waiters
      ensures ok == WakeAll(old(Snapshot()), q).Ok?
      ensures ok ==> Valid() && Snapshot() == WakeAll(old(Snapshot()), q).value
    {
      HeadIs(threads, waitNext, waitHead, waitTail, waiters, q);
      while waitHead[q] != 0
        invariant Valid() && q in waiters && q in waitHead && (waitHead[q] == 0 <==> waiters[q] == [])
        invariant WakeAll(Snapshot(), q) == WakeAll(old(Snapshot()), q)
        decreases |waiters[q]|
      {
        ok := WakeOneLocked(q);
        if !ok {
          return;
        }
        HeadIs(threads, waitNext, waitHead, waitTail, waiters, q);
      }
      ok := true;
    }

    /** wait_queue_remove_locked() of the current thread, once its wait_queue field is q: the
        list is searched for it, and a miss is the "membership is inconsistent" panic. */
    method WaitQueueSearchRemove(q: int) returns (ok: bool)
      requires Valid() && q in waiters && current != 0 && current in threads && threads[current].queue == q
      modifies this`threads, this`waitNext, this`waitHead, this`waitTail, this`waiters
      ensures ok <==> current in old(waiters[q])
      ensures ok ==> Valid() && threads == old(threads)[current := old(threads[current]).(queue := 0)]
      ensures ok ==> waiters == old(waiters)[q := Without(old(waiters[q]), current)]
    {
      HeadIs(threads, waitNext, waitHead, waitTail, waiters, q);
      var prev, thread := 0, waitHead[q];
      ghost var w, i := waiters[q], 0;
      while thread != 0
        invariant 0 <= i <= |w| && thread == First(w[i..]) && prev == Last(w[..i])
        invariant current !in w[..i]
        invariant Valid() && threads == old(threads) && waiters == old(waiters)
        decreases |w| - i
      {
        assert i < |w| && w[i] == thread && w[..i + 1] == w[..i] + [thread];
        if thread == current {
          UnlinkWaiter(q, prev, w[..i], w[i + 1..]);
          WithoutAt(w, i);
          return true;
        }
        WaitNextIs(threads, waitNext, waitHead, waitTail, waiters, q, i);
        prev := thread;
        thread := waitNext[thread];
        i := i + 1;
      }
      if i < |w| {
        WaitNextIs(threads, waitNext, waitHead, waitTail, waiters, q, i);
      }
      assert w[..|w|] == w;
      return false;
    }

    /** Unlink the current thread, found after `prev`. */
    method UnlinkWaiter(q: int, prev: int, ghost a: seq<int>, ghost b: seq<int>)
      requires Valid() && q in waiters && current in threads && waiters[q] == a + [current] + b && prev == Last(a)
      modifies this`threads, this`waitNext, this`waitHead, this`waitTail, this`waiters
      ensures Valid() && threads == old(threads)[current := old(threads[current]).(queue := 0)] && waiters == old(waiters)[q := a + b]
    {
      var t := current;
      var th := threads[t].(queue := 0);
      HeadIs(threads, waitNext, waitHead, waitTail, waiters, q);
      RemoveLists(threads, waitNext, waitHead, waitTail, waiters, q, a, t, b, th);
      SameRun(next, runHead, runTail, runQueue, threads, threads[t := th], current, idle);
      assert prev == 0 <==> a == [] by {
        assert a != [] ==> Last(a) in waiters[q];
      }
      DropNode(q, prev, t);
      threads := threads[t := th];
      waiters := waiters[q := a + b];
    }

    /** Its writes to the links. */
    method DropNode(q: int, prev: int, t: int)
      requires q in waitHead && q in waitTail && t in waitNext && t != prev
      modifies this`waitNext, this`waitHead, this`waitTail
      ensures waitNext == Unlinked(old(waitNext), prev, t)[t := 0]
      ensures waitHead == if prev == 0 then old(waitHead)[q := old(waitNext)[t]] else old(waitHead)
      ensures waitTail == if old(waitTail)[q] == t then old(waitTail)[q := prev] else old(waitTail)
    {
      if prev != 0 {
        waitNext := waitNext[prev := waitNext[t]];
      } else {
        waitHead := waitHead[q := waitNext[t]];
      }
      if waitTail[q] == t {
        waitTail := waitTail[q := prev];
      }
      waitNext := waitNext[t := 0];
    }

    // ----- whole steps -----

    /** The blocking half of wait_queue_wait() and wait_queue_sleep(). */
    method BlockOn(q: int, resume: Resume) returns (ok: bool)
      requires Valid() && q in waiters && current != 0 && current in threads
      modifies this
      ensures ok == Wait(old(Snapshot()), q, resume).Ok?
      ensures ok ==> Valid() && Snapshot() == Wait(old(Snapshot()), q, resume).value
    {
      ok := WaitQueueEnqueue(q, resume);
      if !ok {
        return;
      }
      ghost var s := Snapshot();
      ok := SetState(current, Waiting, 0);
      if !ok {
        return;
      }
      assert Snapshot() == SetThread(s, current, threads[current]);
      ok := SchedYield();
    }

    /** One round of wait_queue_wait_timeout(): `now` was read before the lock was taken. */
    method WaitTimeoutRound(q: int, now: nat, deadline: nat, condition: bool) returns (ok: bool, verdict: Verdict)
      requires Valid() && q in waiters && current != 0 && current in threads
      modifies this
      ensures ok ==> verdict == TimedVerdict(now, deadline, condition)
      ensures ok == TimedRound(old(Snapshot()), q, now, deadline, condition).Ok?
      ensures ok ==> Valid() && Snapshot() == TimedRound(old(Snapshot()), q, now, deadline, condition).value
    {
      if condition {
        ClearDeadline();
        return true, Met;
      }
      if now >= deadline {
        ClearDeadline();
        return true, TimedOut;
      }
      verdict := Blocked;
      ok := SetState(current, Sleeping, deadline);
      if !ok {
        return;
      }
      ghost var s := Snapshot();
      assert s == SetThread(old(Snapshot()), current, threads[current]);
      ok := WaitQueueEnqueue(q, Remove(q));
      if !ok {
        return;
      }
      ok := SchedYield();
    }

    method ClearDeadline()
      requires Valid() && current in threads
      modifies this`threads
      ensures Valid() && Snapshot() == SetThread(old(Snapshot()), current, old(threads[current]).(wakeTick := 0))
    {
      ghost var was := threads;
      threads := threads[current := threads[current].(wakeTick := 0)];
      SameQueues(was, threads, waitNext, waitHead, waitTail, waiters);
      SameRun(next, runHead, runTail, runQueue, was, threads, current, idle);
    }

    /** What a blocked thread does when it runs again. */
    method ResumeThread() returns (ok: bool)
      requires Valid() && current != 0 && current in threads
      requires threads[current].resume.Remove? ==> threads[current].resume.queue in waiters
      modifies this
      ensures ok == Finish(old(Snapshot())).Ok?
      ensures ok ==> Valid() && Snapshot() == Finish(old(Snapshot())).value
    {
      var resume := threads[current].resume;
      match resume
      case Nothing =>
        return true;
      case Remove(q) =>
        ok := true;
        if threads[current].queue == q {
          ok := WaitQueueSearchRemove(q);
        }
        if ok {
          ForgetResume();
        }
      case Recheck(q) =>
        if threads[current].state == Waiting {
          ok := SchedYield();
        } else {
          ok := true;
          ForgetResume();
        }
    }

    method ForgetResume()
      requires Valid() && current in threads
      modifies this`threads
      ensures Valid() && threads == old(threads)[current := old(threads[current]).(resume := Nothing)]
    {
      ghost var was := threads;
      threads := threads[current := threads[current].(resume := Nothing)];
      SameQueues(was, threads, waitNext, waitHead, waitTail, waiters);
      SameRun(next, runHead, runTail, runQueue, was, threads, current, idle);
    }

    /** sched_sleep(): returns at once outside a thread or for 0 ticks. */
    method SchedSleep(ticks: nat) returns (ok: bool)
      requires Valid() && (current == 0 || current in threads)
      modifies this
      ensures old(current) == 0 || ticks == 0 ==> ok && Valid() && Snapshot() == old(Snapshot())
      ensures old(current) != 0 && ticks != 0 ==> ok == SleepUntil(old(Snapshot()), old(tick) + ticks).Ok?
      ensures old(current) != 0 && ticks != 0 && ok ==> Valid() && Snapshot() == SleepUntil(old(Snapshot()), old(tick) + ticks).value
    {
      if current == 0 || ticks == 0 {
        return true;
      }
      var deadline := tick + ticks;
      ok := SetState(current, Sleeping, deadline);
      if !ok {
        return;
      }
      assert Snapshot() == SetThread(old(Snapshot()), current, threads[current]);
      ok := SchedYield();
    }

    /** sched_thread_exit(), up to its first switch. */
    method ThreadExit() returns (ok: bool)
      requires Valid() && (current != 0 ==> current in threads && current != idle)
      modifies this
      ensures old(current) == 0 ==> !ok
      ensures old(current) != 0 ==> ok == Exit(old(Snapshot())).Ok?
      ensures ok ==> Valid() && Snapshot() == Exit(old(Snapshot())).value
    {
      if current == 0 {
        return false;
      }
      if threads[current].state == Zombie || threads[current].state == Dead {
        return false;
      }
      ok := SetState(current, Zombie, 0);
      if !ok {
        return;
      }
      assert Snapshot() == SetThread(old(Snapshot()), current, threads[current]);
      ok := SchedYield();
    }

    /** The list and id part of kernel_thread_create(), and of sched_idle_create(). */
    method CreateThread(t: int, asIdle: bool)
      requires Valid() && t != 0 && t !in threads && t !in runQueue && (asIdle ==> idle == 0)
      modifies this`threads, this`waitNext, this`next, this`runHead, this`runTail, this`runQueue, this`nextId, this`idle
      ensures Valid() && Snapshot() == Create(old(Snapshot()), t, asIdle)
    {
      AddThread(t);
      if asIdle {
        NewIdle(next, runHead, runTail, runQueue, threads, current, idle, t);
        idle := t;
      }
    }

    method AddThread(t: int)
      requires Valid() && t != 0 && t !in threads && t !in runQueue
      modifies this`threads, this`waitNext, this`next, this`runHead, this`runTail, this`runQueue, this`nextId
      ensures Valid() && Snapshot() == Create(old(Snapshot()), t, false)
    {
      NewThread(threads, waitNext, waitHead, waitTail, waiters, t, nextId);
      NewRun(next, runHead, runTail, runQueue, threads, t, Thread(nextId, Ready, 0, 0, Nothing, 0), current, idle);
      threads := threads[t := Thread(nextId, Ready, 0, 0, Nothing, 0)];
      waitNext := waitNext[t := 0];
      nextId := nextId + 1;
      EnqueueThread(t);
    }
  }
}

/** Link surgery on the run queue and the wait queues, as values: what each write sequence of
    kernel/sched/ does to the lists it threads through the thread objects. */
module ThreadQueues {
  import opened Links
  import opened Scheduler

  // ----- wait queues -----

  /** One wait queue: its links, its ends, and its threads' wait_queue fields. */
  ghost predicate WaitList(threads: map<int, Thread>, waitNext: map<int, int>, q: int, head: int, tail: int, w: seq<int>) {
    && q != 0
    && Linked(waitNext, head, w)
    && tail == Last(w)
    && forall t :: t in w ==> t in threads && threads[t].queue == q
  }

  ghost predicate WaitLists(threads: map<int, Thread>, waitNext: map<int, int>, head: map<int, int>, tail: map<int, int>, waiters: map<int, seq<int>>) {
    forall k {:trigger ShowWaits(k)} :: ShowWaits(k) ==> WaitListsCore(threads, waitNext, head, tail, waiters)
  }

  predicate ShowWaits(k: int) { true }

  ghost predicate WaitListsCore(threads: map<int, Thread>, waitNext: map<int, int>, head: map<int, int>, tail: map<int, int>, waiters: map<int, seq<int>>) {
    && head.Keys == waiters.Keys && tail.Keys == waiters.Keys
    && (forall q :: q in waiters ==> WaitList(threads, waitNext, q, head[q], tail[q], waiters[q]))
    && (forall t :: t in threads ==> t in waitNext && (threads[t].queue == 0 ==> waitNext[t] == 0))
  }

  lemma Unqueued(threads: map<int, Thread>, waitNext: map<int, int>, head: map<int, int>, tail: map<int, int>, waiters: map<int, seq<int>>)
    requires WaitLists(threads, waitNext, head, tail, waiters)
    ensures forall t :: t in threads ==> t in waitNext && (threads[t].queue == 0 ==> waitNext[t] == 0)
    ensures head.Keys == waiters.Keys && tail.Keys == waiters.Keys && 0 !in waiters
  {
    assert ShowWaits(0);
    assert 0 in waiters ==> WaitList(threads, waitNext, 0, head[0], tail[0], waiters[0]);
  }

  lemma HeadIs(threads: map<int, Thread>, waitNext: map<int, int>, head: map<int, int>, tail: map<int, int>, waiters: map<int, seq<int>>, q: int)
    requires WaitLists(threads, waitNext, head, tail, waiters) && q in waiters
    ensures head.Keys == waiters.Keys && tail.Keys == waiters.Keys
    ensures head[q] == First(waiters[q]) && (head[q] == 0 <==> waiters[q] == [])
    ensures forall t :: t in waiters[q] ==> t in threads && threads[t].queue == q && t != 0
    ensures forall t :: t in threads ==> t in waitNext
  {
    assert ShowWaits(0);
    assert WaitList(threads, waitNext, q, head[q], tail[q], waiters[q]);
    assert waiters[q] != [] ==> waiters[q][0] in waiters[q];
  }

  lemma WaitNextIs(threads: map<int, Thread>, waitNext: map<int, int>, head: map<int, int>, tail: map<int, int>, waiters: map<int, seq<int>>, q: int, i: nat)
    requires WaitLists(threads, waitNext, head, tail, waiters) && q in waiters && i < |waiters[q]|
    ensures var w := waiters[q]; w[i] in waitNext && w[i] != 0 && waitNext[w[i]] == First(w[i + 1..])
  {
    assert ShowWaits(0);
    assert WaitList(threads, waitNext, q, head[q], tail[q], waiters[q]);
    NextIs(waitNext, head[q], waiters[q], i);
  }

  lemma WithoutAt(w: seq<int>, i: nat)
    requires i < |w| && w[i] !in w[..i]
    ensures Without(w, w[i]) == w[..i] + w[i + 1..]
  {
  }

  /** A change to threads of queue q only, or of none, leaves every other queue as it was. */
  lemma OtherLists(threads: map<int, Thread>, threads': map<int, Thread>, waitNext: map<int, int>, waitNext': map<int, int>,
                   q: int, p: int, head: int, tail: int, w: seq<int>)
    requires WaitList(threads, waitNext, p, head, tail, w) && p != q
    requires forall t :: t in threads && threads[t].queue == p ==> t in threads' && threads'[t].queue == p
    requires forall t :: t in threads && threads[t].queue == p && t in waitNext ==> t in waitNext' && waitNext'[t] == waitNext[t]
    ensures WaitList(threads', waitNext', p, head, tail, w)
  {
    SameLinks(waitNext, waitNext', head, w);
  }

  /** States may change freely. */
  lemma SameQueues(threads: map<int, Thread>, threads': map<int, Thread>, waitNext: map<int, int>, head: map<int, int>, tail: map<int, int>, waiters: map<int, seq<int>>)
    requires WaitLists(threads, waitNext, head, tail, waiters)
    requires forall t :: t in threads' ==> t in threads && threads'[t].queue == threads[t].queue
    requires forall t :: t in threads && t !in threads' ==> threads[t].queue == 0
    ensures WaitLists(threads', waitNext, head, tail, waiters)
  {
  }

  /** wait_queue_enqueue_locked() on a thread that is on no queue. */
  lemma EnqueueLists(threads: map<int, Thread>, waitNext: map<int, int>, head: map<int, int>, tail: map<int, int>, waiters: map<int, seq<int>>,
                     q: int, t: int, th: Thread)
    requires WaitLists(threads, waitNext, head, tail, waiters) && q in waiters
    requires t != 0 && t in threads && threads[t].queue == 0 && th.queue == q
    requires tail.Keys == waiters.Keys
    ensures WaitLists(threads[t := th], Appended(waitNext, tail[q], t),
                      if tail[q] == 0 then head[q := t] else head, tail[q := t], waiters[q := waiters[q] + [t]])
  {
    assert ShowWaits(0);
    var threads', waitNext' := threads[t := th], Appended(waitNext, tail[q], t);
    var head' := if tail[q] == 0 then head[q := t] else head;
    assert WaitList(threads, waitNext, q, head[q], tail[q], waiters[q]);
    AppendLinked(waitNext, head[q], waiters[q], t);
    assert WaitList(threads', waitNext', q, head'[q], t, waiters[q] + [t]);
    assert tail[q] != 0 ==> tail[q] in waiters[q];
    forall p | p in waiters && p != q
      ensures WaitList(threads', waitNext', p, head[p], tail[p], waiters[p])
    {
      assert WaitList(threads, waitNext, p, head[p], tail[p], waiters[p]);
      OtherLists(threads, threads', waitNext, waitNext', q, p, head[p], tail[p], waiters[p]);
    }
  }

  /** wait_queue_remove_locked() of t, which stands between a and b; with a empty this is also
      wait_queue_remove_head_locked(). */
  lemma RemoveLists(threads: map<int, Thread>, waitNext: map<int, int>, head: map<int, int>, tail: map<int, int>, waiters: map<int, seq<int>>,
                    q: int, a: seq<int>, t: int, b: seq<int>, th: Thread)
    requires WaitLists(threads, waitNext, head, tail, waiters) && q in waiters && waiters[q] == a + [t] + b
    requires th.queue == 0 && tail.Keys == waiters.Keys
    ensures t in threads && t in waitNext && waitNext[t] == First(b) && (tail[q] == t <==> b == []) && t !in a + b
    ensures WaitLists(threads[t := th], Unlinked(waitNext, Last(a), t)[t := 0],
                      if a == [] then head[q := waitNext[t]] else head, if b == [] then tail[q := Last(a)] else tail, waiters[q := a + b])
  {
    assert ShowWaits(0);
    RemoveList(threads, waitNext, q, head[q], tail[q], a, t, b, th);
    var threads', waitNext' := threads[t := th], Unlinked(waitNext, Last(a), t)[t := 0];
    var head' := if a == [] then head[q := waitNext[t]] else head;
    var tail' := if b == [] then tail[q := Last(a)] else tail;
    assert WaitList(threads, waitNext, q, head[q], tail[q], waiters[q]);
    assert a != [] ==> Last(a) in waiters[q];
    assert WaitList(threads', waitNext', q, head'[q], tail'[q], a + b);
    forall p | p in waiters && p != q
      ensures WaitList(threads', waitNext', p, head'[p], tail'[p], waiters[p])
    {
      assert WaitList(threads, waitNext, p, head[p], tail[p], waiters[p]);
      OtherLists(threads, threads', waitNext, waitNext', q, p, head[p], tail[p], waiters[p]);
    }
    forall x | x in threads'
      ensures x in waitNext' && (threads'[x].queue == 0 ==> waitNext'[x] == 0)
    {
      assert a != [] ==> threads[Last(a)].queue == q;
    }
  }

  lemma RemoveHeadLists(threads: map<int, Thread>, waitNext: map<int, int>, head: map<int, int>, tail: map<int, int>, waiters: map<int, seq<int>>, q: int, th: Thread)
    requires WaitLists(threads, waitNext, head, tail, waiters) && q in waiters && waiters[q] != [] && th.queue == 0
    requires head.Keys == waiters.Keys && tail.Keys == waiters.Keys
    ensures var t := head[q];
      && t == waiters[q][0] && t in threads && t in waitNext
      && WaitLists(threads[t := th], waitNext[t := 0], head[q := waitNext[t]],
                   if waitNext[t] == 0 then tail[q := 0] else tail, waiters[q := waiters[q][1..]])
  {
    var w := waiters[q];
    HeadIs(threads, waitNext, head, tail, waiters, q);
    assert w == [] + [w[0]] + w[1..] && [] + w[1..] == w[1..];
    RemoveLists(threads, waitNext, head, tail, waiters, q, [], w[0], w[1..], th);
    assert w[1..] != [] ==> w[1] in w && w[1..][0] == w[1];
  }

  lemma RemoveList(threads: map<int, Thread>, waitNext: map<int, int>, q: int, head: int, tail: int, a: seq<int>, t: int, b: seq<int>, th: Thread)
    requires WaitList(threads, waitNext, q, head, tail, a + [t] + b) && th.queue == 0
    ensures t in threads && threads[t].queue == q && t in waitNext && waitNext[t] == First(b) && (tail == t <==> b == []) && t !in a + b
    ensures WaitList(threads[t := th], Unlinked(waitNext, Last(a), t)[t := 0], q,
                     if a == [] then waitNext[t] else head, if b == [] then Last(a) else tail, a + b)
  {
    var w := a + [t] + b;
    assert w[|a|] == t;
    RemoveLinked(waitNext, head, a, t, b);
    RemoveDistinct(a, t, b);
    var mid := Unlinked(waitNext, Last(a), t);
    SameLinks(mid, mid[t := 0], if a == [] then waitNext[t] else head, a + b);
    forall x | x in a + b
      ensures x in w
    {
    }
    assert b != [] ==> Last(b) == Last(w) && Last(b) in b && Last(b) in a + b;
  }

  // ----- the run queue -----

  lemma FoundFirst(o: seq<int>, threads: map<int, Thread>, idle: int, i: nat)
    requires i <= |o| && (i < |o| ==> Runnable(threads, idle, o[i]))
    requires forall j :: 0 <= j < i ==> !Runnable(threads, idle, o[j])
    ensures FirstRunnable(o, threads, idle) == if i < |o| then o[i] else 0
  {
  }

  /** Scanning from `start` to the end, then from the head to `start`, is scanning the order. */
  lemma ScanAfter(q: seq<int>, start: nat, threads: map<int, Thread>, idle: int, m: nat)
    requires start <= m < |q| && Runnable(threads, idle, q[m])
    requires forall k :: start <= k < m ==> !Runnable(threads, idle, q[k])
    ensures FirstRunnable(Rotate(q, start), threads, idle) == q[m]
  {
    var o := Rotate(q, start);
    assert o[m - start] == q[m];
    forall j | 0 <= j < m - start
      ensures !Runnable(threads, idle, o[j])
    {
      assert o[j] == q[start + j];
    }
    FoundFirst(o, threads, idle, m - start);
  }

  lemma ScanBefore(q: seq<int>, start: nat, threads: map<int, Thread>, idle: int, m: nat)
    requires m <= start <= |q| && (m < start ==> Runnable(threads, idle, q[m]))
    requires forall k :: start <= k < |q| ==> !Runnable(threads, idle, q[k])
    requires forall k :: 0 <= k < m ==> !Runnable(threads, idle, q[k])
    ensures FirstRunnable(Rotate(q, start), threads, idle) == if m < start then q[m] else 0
  {
    var o := Rotate(q, start);
    var i := |q| - start + m;
    assert m < start ==> o[i] == q[m];
    forall j | 0 <= j < i
      ensures !Runnable(threads, idle, o[j])
    {
      assert o[j] == q[if start + j < |q| then start + j else start + j - |q|];
    }
    FoundFirst(o, threads, idle, i);
  }

  /** The run queue's links and ends agree with it, and it holds the current and idle threads. */
  ghost predicate RunListed(next: map<int, int>, head: int, tail: int, q: seq<int>, threads: map<int, Thread>, current: int, idle: int) {
    forall k {:trigger ShowRun(k)} :: ShowRun(k) ==> RunCore(next, head, tail, q, threads, current, idle)
  }

  predicate ShowRun(k: int) { true }

  ghost predicate RunCore(next: map<int, int>, head: int, tail: int, q: seq<int>, threads: map<int, Thread>, current: int, idle: int) {
    && Linked(next, head, q) && tail == Last(q)
    && (forall t :: t in q ==> t in threads)
    && 0 !in threads
    && (current == 0 || current in q)
    && (idle == 0 || (idle in q && threads[idle].state != Zombie))
  }

  lemma ReapRunListed(next: map<int, int>, head: int, tail: int, next': map<int, int>, head': int, tail': int, s: Sched)
    requires RunListed(next, head, tail, s.runQueue, s.threads, s.current, s.idle) && Reap(s).Ok?
    requires Linked(next', head', Kept(s.runQueue, s.threads, s.current)) && tail' == Last(Kept(s.runQueue, s.threads, s.current))
    ensures RunListed(next', head', tail', Kept(s.runQueue, s.threads, s.current), Reap(s).value.threads, s.current, s.idle)
  {
    assert ShowRun(0);
    KeptMembers(s.runQueue, s.threads, s.current);
  }

  lemma RunThreads(next: map<int, int>, head: int, tail: int, q: seq<int>, threads: map<int, Thread>, current: int, idle: int)
    requires RunListed(next, head, tail, q, threads, current, idle)
    ensures forall t :: t in q ==> t in threads
    ensures (current == 0 <==> current !in threads) && (idle == 0 || idle in q)
  {
    assert ShowRun(0);
  }

  lemma SameRun(next: map<int, int>, head: int, tail: int, q: seq<int>, threads: map<int, Thread>, threads': map<int, Thread>, current: int, idle: int)
    requires RunListed(next, head, tail, q, threads, current, idle) && threads'.Keys == threads.Keys
    requires idle in threads' ==> threads'[idle].state != Zombie || threads'[idle].state == threads[idle].state
    ensures RunListed(next, head, tail, q, threads', current, idle)
  {
  }

  lemma NewRun(next: map<int, int>, head: int, tail: int, q: seq<int>, threads: map<int, Thread>, t: int, th: Thread, current: int, idle: int)
    requires RunListed(next, head, tail, q, threads, current, idle) && t !in threads && t != 0
    ensures RunListed(next, head, tail, q, threads[t := th], current, idle)
  {
  }

  lemma NewIdle(next: map<int, int>, head: int, tail: int, q: seq<int>, threads: map<int, Thread>, current: int, idle: int, t: int)
    requires RunListed(next, head, tail, q, threads, current, idle) && t in threads && t in q && threads[t].state != Zombie
    ensures RunListed(next, head, tail, q, threads, current, t)
  {
  }

  lemma NewThread(threads: map<int, Thread>, waitNext: map<int, int>, head: map<int, int>, tail: map<int, int>, waiters: map<int, seq<int>>, t: int, id: nat)
    requires WaitLists(threads, waitNext, head, tail, waiters) && t !in threads
    ensures WaitLists(threads[t := Thread(id, Ready, 0, 0, Nothing, 0)], waitNext[t := 0], head, tail, waiters)
  {
    assert ShowWaits(0);
    var threads', waitNext' := threads[t := Thread(id, Ready, 0, 0, Nothing, 0)], waitNext[t := 0];
    forall q | q in waiters
      ensures WaitList(threads', waitNext', q, head[q], tail[q], waiters[q])
    {
      assert WaitList(threads, waitNext, q, head[q], tail[q], waiters[q]);
      SameLinks(waitNext, waitNext', head[q], waiters[q]);
    }
  }

  lemma SelectListed(s: Sched)
    requires Select(s) != 0 && (s.idle == 0 || s.idle in s.runQueue)
    ensures Select(s) in s.runQueue && Select(s) in s.threads
  {
  }

  lemma TickIs(s: Sched, threads: map<int, Thread>)
    requires threads.Keys == s.threads.Keys && forall t :: t in threads ==> threads[t] == Woken(s.threads[t], t in s.runQueue, s.tick + 1)
    ensures Tick(s) == s.(tick := s.tick + 1, threads := threads)
  {
    var m := Tick(s).threads;
    assert m.Keys == threads.Keys;
    forall t | t in threads
      ensures m[t] == threads[t]
    {
      assert m[t] == Woken(s.threads[t], t in s.runQueue, s.tick + 1);
    }
    assert m == threads;
  }

  // ----- reaping -----

  /** sched_reap_dead_threads() after i of the queue's nodes: the run queue is the kept ones of
      these and then the rest, `gone` is linked from the reap list and marked DEAD. */
  ghost predicate Reaping(next: map<int, int>, head: int, tail: int, reap: int, prev: int, thread: int, threads: map<int, Thread>,
                          q: seq<int>, was: map<int, Thread>, current: int, i: nat, gone: seq<int>)
  {
    forall k {:trigger ShowReaping(k)} :: ShowReaping(k) ==>
      ReapingCore(next, head, tail, reap, prev, thread, threads, q, was, current, i, gone)
  }

  predicate ShowReaping(k: int) { true }

  ghost predicate ReapingCore(next: map<int, int>, head: int, tail: int, reap: int, prev: int, thread: int, threads: map<int, Thread>,
                              q: seq<int>, was: map<int, Thread>, current: int, i: nat, gone: seq<int>)
  {
    && i <= |q|
    && Listed(next, head, tail, prev, thread, Kept(q[..i], was, current), q[i..])
    && Linked(next, reap, gone)
    && (forall j :: 0 <= j < |q| ==> (q[j] in gone <==> j < i && Reapable(was, current, q[j])))
    && (forall t :: t in gone ==> t in q)
    && threads.Keys == was.Keys
    && (forall t :: t in threads ==> threads[t] == if t in gone then was[t].(state := Dead, wakeTick := 0) else was[t])
  }

  ghost predicate Listed(next: map<int, int>, head: int, tail: int, prev: int, thread: int, kept: seq<int>, rest: seq<int>) {
    && Linked(next, head, kept + rest) && tail == Last(kept + rest)
    && prev == Last(kept) && thread == First(rest)
  }

  lemma KeptNext(q: seq<int>, was: map<int, Thread>, current: int, i: nat)
    requires i < |q|
    ensures Kept(q[..i + 1], was, current) == Kept(q[..i], was, current) + if Reapable(was, current, q[i]) then [] else [q[i]]
  {
    assert q[..i + 1] == q[..i] + [q[i]];
    KeptConcat(q[..i], [q[i]], was, current);
    assert Kept([q[i]], was, current) == if Reapable(was, current, q[i]) then [] else [q[i]];
  }

  lemma ListedSkip(next: map<int, int>, head: int, tail: int, prev: int, thread: int, kept: seq<int>, rest: seq<int>)
    requires Listed(next, head, tail, prev, thread, kept, rest) && rest != []
    ensures thread in next && Listed(next, head, tail, thread, next[thread], kept + [thread], rest[1..])
  {
    NextIs(next, head, kept + rest, |kept|);
    assert kept + rest == kept + [thread] + rest[1..];
  }

  lemma ListedDetach(next: map<int, int>, head: int, tail: int, prev: int, thread: int, kept: seq<int>, rest: seq<int>, reap: int)
    requires Listed(next, head, tail, prev, thread, kept, rest) && rest != []
    ensures thread in next && thread !in kept + rest[1..] && thread != 0
    ensures var next' := if prev != 0 then next[prev := next[thread]] else next;
      Listed(next'[thread := reap], if prev != 0 then head else next[thread], if tail == thread then prev else tail, prev, next[thread], kept, rest[1..])
  {
    assert kept + rest == kept + [thread] + rest[1..];
    RemoveLinked(next, head, kept, thread, rest[1..]);
    RemoveDistinct(kept, thread, rest[1..]);
    var next' := if prev != 0 then next[prev := next[thread]] else next;
    assert kept != [] ==> Last(kept) == (kept + rest)[|kept| - 1] != 0;
    SameLinks(next', next'[thread := reap], if prev != 0 then head else next[thread], kept + rest[1..]);
    assert (kept + rest)[|kept|] == thread;
    assert tail == thread <==> rest[1..] == [] by {
      assert tail == (kept + rest)[|kept + rest| - 1];
    }
  }

  lemma ReapStep(next: map<int, int>, head: int, tail: int, reap: int, prev: int, thread: int, threads: map<int, Thread>,
                 q: seq<int>, was: map<int, Thread>, current: int, i: nat, gone: seq<int>)
    requires Reaping(next, head, tail, reap, prev, thread, threads, q, was, current, i, gone) && thread != 0
    requires Distinct(q) && forall t :: t in q ==> t in was
    ensures i < |q| && thread == q[i] && thread in next && thread in threads && threads[thread] == was[thread] && thread !in gone
    ensures !Reapable(was, current, thread) ==>
      Reaping(next, head, tail, reap, thread, next[thread], threads, q, was, current, i + 1, gone)
    ensures Reapable(was, current, thread) ==>
      var next' := if prev != 0 then next[prev := next[thread]] else next;
      Reaping(next'[thread := reap], if prev != 0 then head else next[thread], if tail == thread then prev else tail, thread, prev, next[thread],
              threads[thread := was[thread].(state := Dead, wakeTick := 0)], q, was, current, i + 1, [thread] + gone)
  {
    assert ShowReaping(0);
    var kept, rest := Kept(q[..i], was, current), q[i..];
    KeptNext(q, was, current, i);
    assert rest[1..] == q[i + 1..] && rest[0] == q[i];
    if Reapable(was, current, thread) {
      assert kept + [] == kept;
      ListedDetach(next, head, tail, prev, thread, kept, rest, reap);
      ReapDetach(next, head, tail, reap, prev, thread, threads, q, was, current, i, gone);
    } else {
      ListedSkip(next, head, tail, prev, thread, kept, rest);
    }
  }

  lemma ReapDetach(next: map<int, int>, head: int, tail: int, reap: int, prev: int, thread: int, threads: map<int, Thread>,
                   q: seq<int>, was: map<int, Thread>, current: int, i: nat, gone: seq<int>)
    requires Reaping(next, head, tail, reap, prev, thread, threads, q, was, current, i, gone)
    requires Distinct(q) && i < |q| && thread == q[i] && thread != 0 && thread in next && thread in threads && Reapable(was, current, thread)
    ensures var next' := if prev != 0 then next[prev := next[thread]] else next; Linked(next'[thread := reap], thread, [thread] + gone)
    ensures forall j :: 0 <= j < |q| ==> (q[j] in [thread] + gone <==> j < i + 1 && Reapable(was, current, q[j]))
  {
    assert ShowReaping(0);
    var next' := if prev != 0 then next[prev := next[thread]] else next;
    if prev != 0 {
      KeptMembers(q[..i], was, current);
      assert Last(Kept(q[..i], was, current)) in Kept(q[..i], was, current);
      assert prev in q[..i] && !Reapable(was, current, prev);
      assert prev !in gone;
    }
    SameLinks(next, next', reap, gone);
    PushLinked(next', reap, gone, thread);
  }

  lemma ReapStart(next: map<int, int>, head: int, tail: int, q: seq<int>, was: map<int, Thread>, current: int)
    requires Linked(next, head, q) && tail == Last(q)
    ensures Reaping(next, head, tail, 0, 0, head, was, q, was, current, 0, [])
  {
    assert Kept(q[..0], was, current) == [] && [] + q[0..] == q;
  }

  lemma ReapDone(next: map<int, int>, head: int, tail: int, reap: int, prev: int, threads: map<int, Thread>,
                 q: seq<int>, was: map<int, Thread>, current: int, i: nat, gone: seq<int>)
    requires Reaping(next, head, tail, reap, prev, 0, threads, q, was, current, i, gone)
    ensures Linked(next, reap, gone) && threads.Keys == was.Keys
    ensures forall t :: t in threads ==> threads[t] == if t in gone then was[t].(state := Dead, wakeTick := 0) else was[t]
    ensures Linked(next, head, Kept(q, was, current)) && tail == Last(Kept(q, was, current))
    ensures forall t :: t in gone <==> t in q && Reapable(was, current, t)
  {
    assert ShowReaping(0);
    var kept := Kept(q[..i], was, current);
    FirstZero(kept, q[i..]);
    assert q[..i] == q && kept + q[i..] == kept;
  }

  /** What DetachZombies() promises: exactly the reapable threads are collected and marked. */
  ghost predicate Collected(s: Sched, gone: seq<int>, mid: map<int, Thread>) {
    && (forall t :: t in s.runQueue ==> t in s.threads)
    && (forall t :: t in gone <==> t in s.runQueue && Reapable(s.threads, s.current, t))
    && mid.Keys == s.threads.Keys
    && (forall t :: t in mid ==> mid[t] == if t in gone then s.threads[t].(state := Dead, wakeTick := 0) else s.threads[t])
  }

  lemma ReapTargets(s: Sched, gone: seq<int>, mid: map<int, Thread>)
    requires Collected(s, gone, mid)
    ensures s.current !in gone
    ensures forall t :: t in gone ==> t in mid && mid[t].state == Dead && mid[t].wakeTick == 0 && mid[t].queue == s.threads[t].queue
  {
  }

  lemma ReapIs(s: Sched, gone: seq<int>, mid: map<int, Thread>, ok: bool)
    requires Collected(s, gone, mid) && (ok <==> forall t :: t in gone ==> mid[t].queue == 0)
    ensures ok == Reap(s).Ok?
    ensures ok ==> mid - (set t | t in gone) == Reap(s).value.threads
  {
    var dead := set t | t in s.runQueue && Reapable(s.threads, s.current, t);
    forall t
      ensures t in dead <==> t in gone
    {
    }
    assert dead == set t | t in gone;
    assert forall t :: t in dead ==> mid[t].queue == s.threads[t].queue;
    if ok {
      assert Reap(s).value.threads == s.threads - dead;
      assert forall t :: t in mid && t !in dead ==> mid[t] == s.threads[t];
      assert mid - dead == s.threads - dead;
    }
  }

  lemma ReapSameQueues(s: Sched, waitNext: map<int, int>, head: map<int, int>, tail: map<int, int>)
    requires WaitLists(s.threads, waitNext, head, tail, s.waiters) && Reap(s).Ok?
    requires forall t :: t in s.runQueue ==> t in s.threads
    ensures WaitLists(Reap(s).value.threads, waitNext, head, tail, s.waiters)
    ensures Reap(s).value == s.(runQueue := Kept(s.runQueue, s.threads, s.current), threads := Reap(s).value.threads, released := Reap(s).value.released)
  {
  }

  lemma ReapKept(s: Sched, gone: seq<int>)
    requires forall t :: t in s.runQueue ==> t in s.threads
    requires forall t :: t in gone <==> t in s.runQueue && Reapable(s.threads, s.current, t)
    ensures forall t :: t in Kept(s.runQueue, s.threads, s.current) <==> t in s.runQueue && t !in gone
  {
    KeptMembers(s.runQueue, s.threads, s.current);
  }
}

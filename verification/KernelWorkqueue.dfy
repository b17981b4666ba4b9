/** kernel/workqueue.c as written: work items in memory linked through `next`, a worker woken
    through the queue's wait queue. */
module KernelWorkqueue {
  import opened Errno
  import opened Links
  import Scheduler
  import KernelScheduler

  /** The list starts at `head` and ends at `tail`; the flag holds exactly for its members. */
  ghost predicate WorkList(next: map<int, int>, head: int, tail: int, pending: map<int, bool>, list: seq<int>) {
    && Linked(next, head, list) && tail == Last(list)
    && (forall w :: w in list <==> w in pending && pending[w])
  }

  /** What the writes of workqueue_pop() leave. */
  lemma PopWorkList(next: map<int, int>, head: int, tail: int, pending: map<int, bool>, list: seq<int>)
    requires WorkList(next, head, tail, pending, list)
    ensures head == 0 <==> list == []
    ensures head != 0 ==>
      && list == [head] + list[1..] && head in next
      && WorkList(next[head := 0], next[head], if next[head] == 0 then 0 else tail, pending[head := false], list[1..])
  {
    if list != [] {
      var rest := list[1..];
      assert head == list[0] && head in list;
      PopLinked(next, head, list);
      PopMembers(list);
      assert next[head] == 0 <==> rest == [];
      SameLinks(next, next[head := 0], next[head], rest);
    }
  }

  /** The members and the end of a list after its first. */
  lemma PopMembers(list: seq<int>)
    requires list != [] && Distinct(list)
    ensures list == [list[0]] + list[1..] && (list[1..] != [] ==> Last(list[1..]) == Last(list))
    ensures forall w :: w in list[1..] <==> w in list && w != list[0]
  {
    assert list == [list[0]] + list[1..];
  }

  class Workqueue {
    const kernel: KernelScheduler.Kernel
    const wait: int
    var head: int
    var tail: int
    var initialized: bool
    var next: map<int, int>
    var pending: map<int, bool>
    var callable: map<int, bool>
    ghost var list: seq<int>

    ghost predicate Listed()
      reads this
    {
      WorkList(next, head, tail, pending, list)
    }

    ghost predicate Valid()
      reads this, kernel
    {
      Listed() && kernel.Valid() && wait in kernel.waiters
    }

    ghost function Pending(): set<int>
      reads this
    {
      set w | w in pending && pending[w]
    }

    /** workqueue_init(). */
    constructor (kernel: KernelScheduler.Kernel, wait: int)
      requires kernel.Valid() && wait in kernel.waiters
      ensures Valid() && this.kernel == kernel && this.wait == wait && list == [] && initialized && Pending() == {}
    {
      this.kernel, this.wait := kernel, wait;
      head, tail, initialized, list := 0, 0, true, [];
      next, pending, callable := map[], map[], map[];
    }

    /** The list half of queue_work(). */
    method Append(w: int)
      requires Listed() && w != 0 && w !in list
      modifies this`head, this`tail, this`next, this`pending, this`list
      ensures Listed() && list == old(list) + [w]
      ensures Pending() == old(Pending()) + {w}
    {
      AppendLinked(next, head, list, w);
      next := next[w := 0];
      pending := pending[w := true];
      if tail != 0 {
        next := next[tail := w];
      } else {
        head := w;
      }
      tail := w;
      list := list + [w];
    }

    /** queue_work(): refuse an unusable or pending item, else append it and wake the worker.
        `ok` is false where the wakeup panics. */
    method QueueWork(w: int) returns (ok: bool, ret: int)
      requires Valid() && (w in callable ==> w != 0)
      modifies this`head, this`tail, this`next, this`pending, this`list, kernel
      ensures !initialized || w !in callable || !callable[w] ==>
        ok && ret == -EINVAL && list == old(list) && Pending() == old(Pending()) && kernel.Snapshot() == old(kernel.Snapshot())
      ensures initialized && w in callable && callable[w] && w in old(Pending()) ==>
        ok && ret == -EBUSY && list == old(list) && Pending() == old(Pending()) && kernel.Snapshot() == old(kernel.Snapshot())
      ensures initialized && w in callable && callable[w] && w !in old(Pending()) ==>
        && ok == Scheduler.WakeOne(old(kernel.Snapshot()), wait).Ok?
        && list == old(list) + [w] && Pending() == old(Pending()) + {w}
        && (ok ==> ret == 0 && kernel.Snapshot() == Scheduler.WakeOne(old(kernel.Snapshot()), wait).value)
      ensures ok ==> Valid()
    {
      if !initialized || w !in callable || !callable[w] {
        return true, -EINVAL;
      }
      if w in pending && pending[w] {
        return true, -EBUSY;
      }
      Append(w);
      ok := kernel.WakeOneLocked(wait);
      ret := 0;
    }

    /** workqueue_pop(). */
    method Pop() returns (w: int)
      requires Listed()
      modifies this`head, this`tail, this`next, this`pending, this`list
      ensures Listed()
      ensures w == 0 <==> old(list) == []
      ensures w == 0 ==> list == old(list) && Pending() == old(Pending())
      ensures w != 0 ==> old(list) == [w] + list && Pending() == old(Pending()) - {w}
    {
      PopWorkList(next, head, tail, pending, list);
      w := head;
      if w == 0 {
        return;
      }
      head := next[w];
      if head == 0 {
        tail := 0;
      }
      next := next[w := 0];
      pending := pending[w := false];
      list := list[1..];
    }
  }
}

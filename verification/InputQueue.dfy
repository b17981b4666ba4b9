/** drivers/input/input.c: the global event ring, its drop counter, and one wakeup per event. */
module InputQueue {
  import opened Errno
  import Ring
  import Scheduler
  import KernelScheduler

  const CAPACITY := 64

  class Input<T> {
    const kernel: KernelScheduler.Kernel
    const wait: int
    const ring: Ring.Queue<T>
    var initialized: bool
    var last: T
    var hasLast: bool

    ghost predicate Valid()
      reads this, kernel, ring, ring.data
    {
      ring.Valid() && ring.data.Length == CAPACITY && kernel.Valid() && wait in kernel.waiters
    }

    /** input_init(). */
    constructor (kernel: KernelScheduler.Kernel, wait: int, filler: T)
      requires kernel.Valid() && wait in kernel.waiters
      ensures Valid() && this.kernel == kernel && this.wait == wait && initialized && ring.items == [] && ring.dropped == 0
      ensures fresh(ring) && fresh(ring.data)
    {
      this.kernel, this.wait := kernel, wait;
      ring := new Ring.Queue(CAPACITY, filler);
      initialized, hasLast, last := true, false, filler;
    }

    /** input_report_event(): a full ring drops and wakes nobody; otherwise the event is queued,
        remembered as the last one, and the longest waiting reader is woken. */
    method ReportEvent(event: T) returns (ok: bool, ret: int)
      requires Valid()
      modifies this`last, this`hasLast, ring, ring.data, kernel
      ensures ok ==> Valid()
      ensures !initialized ==> ok && ret == -EINVAL && ring.items == old(ring.items) && kernel.Snapshot() == old(kernel.Snapshot())
      ensures initialized && |old(ring.items)| == CAPACITY ==>
        && ok && ret == -ENOSPC && ring.items == old(ring.items) && ring.dropped == old(ring.dropped) + 1
        && kernel.Snapshot() == old(kernel.Snapshot())
      ensures initialized && |old(ring.items)| < CAPACITY ==>
        && ring.items == old(ring.items) + [event] && ring.dropped == old(ring.dropped) && hasLast && last == event
        && ok == Scheduler.WakeOne(old(kernel.Snapshot()), wait).Ok?
        && (ok ==> ret == 0 && kernel.Snapshot() == Scheduler.WakeOne(old(kernel.Snapshot()), wait).value)
    {
      if !initialized {
        return true, -EINVAL;
      }
      var stored := ring.Push(event);
      if !stored {
        return true, -ENOSPC;
      }
      last, hasLast := event, true;
      ok := kernel.WakeOneLocked(wait);
      ret := 0;
    }

    /** input_has_event(), the condition blocking readers wait for. */
    method HasEvent() returns (r: bool)
      requires ring.Valid()
      ensures r <==> ring.items != []
    {
      return ring.count != 0;
    }

    /** input_try_read_event(), and the locked half of input_read_event(). */
    method TryReadEvent(filler: T) returns (ret: int, event: T)
      requires ring.Valid()
      modifies ring`head, ring`count, ring`items
      ensures ring.Valid()
      ensures !initialized ==> ret == -EINVAL && ring.items == old(ring.items)
      ensures initialized && old(ring.items) == [] ==> ret == -EAGAIN && ring.items == []
      ensures initialized && old(ring.items) != [] ==> ret == 0 && [event] + ring.items == old(ring.items)
    {
      if !initialized {
        return -EINVAL, filler;
      }
      var found, x := ring.Pop(filler);
      return if found then 0 else -EAGAIN, x;
    }
  }
}

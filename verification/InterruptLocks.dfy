/** Irq-saving spinlocks on one processor (kernel/locking/spinlock.c), interrupt nesting and the
    checks before a switch (kernel/sched/sched.h, kernel/sched/core.c). */
module InterruptLocks {

  datatype Reason = InvalidAcquire | Contention | InvalidRelease | Underflow | SwitchWhileHeld | SwitchInIrq | ExitWithoutEntry

  datatype Outcome<T> = Ok(value: T) | Panic(reason: Reason)

  /** A lock that is held: what RFLAGS.IF was at the acquire, and by whom it was taken. */
  datatype Hold = Hold(lock: int, saved: bool, owner: int)

  /** `frames` are the heights of the hold stack at each interrupt entry; `suspended` are the
      threads that were switched away from inside an interrupt exit and still have to return
      from it. A switch does not touch the interrupt flag. */
  datatype Cpu = Cpu(
    current: int,
    interrupts: bool,
    depth: int,
    irqDepth: int,
    locked: set<int>,
    needResched: bool,
    holds: seq<Hold>,
    frames: seq<nat>,
    suspended: set<int>)

  datatype Op = Acquire(lock: int) | Release | IrqEnter | IrqExit(next: int) | RequestResched | Yield(next: int) | ReturnFromIrq

  /** spin_lock_irqsave(). */
  function Lock(c: Cpu, l: int): Outcome<Cpu> {
    if l == 0 then Panic(InvalidAcquire)
    else if l in c.locked then Panic(Contention)
    else Ok(c.(interrupts := false, locked := c.locked + {l}, depth := c.depth + 1,
               holds := c.holds + [Hold(l, c.interrupts, c.current)]))
  }

  /** spin_unlock_irqrestore() with the flags its acquire saved. */
  function Unlock(c: Cpu, l: int, flags: bool): Outcome<Cpu> {
    if l == 0 || l !in c.locked then Panic(InvalidRelease)
    else if c.depth <= 0 then Panic(Underflow)
    else Ok(c.(depth := c.depth - 1, locked := c.locked - {l}, interrupts := flags || c.interrupts,
               holds := if c.holds == [] then [] else c.holds[..|c.holds| - 1]))
  }

  /** sched_yield() choosing `next`: sched_assert_can_switch(), then the switch. */
  function SwitchTo(c: Cpu, next: int): Outcome<Cpu> {
    if c.depth != 0 then Panic(SwitchWhileHeld)
    else if c.irqDepth != 0 then Panic(SwitchInIrq)
    else Ok(c.(current := next))
  }

  /** sched_irq_exit() and, unless it switched away, the return from the interrupt. */
  function Exit(c: Cpu, next: int): Outcome<Cpu>
    requires c.frames != []
  {
    if c.irqDepth <= 0 then Panic(ExitWithoutEntry)
    else
      var c1 := c.(irqDepth := c.irqDepth - 1, frames := c.frames[..|c.frames| - 1]);
      if c1.irqDepth != 0 || !c1.needResched || c1.current == 0 then Ok(c1.(interrupts := true))
      else if next == c1.current then
        match SwitchTo(c1.(needResched := false), next)
        case Ok(c2) => Ok(c2.(interrupts := true))
        case Panic(r) => Panic(r)
      else SwitchTo(c1.(needResched := false, suspended := c1.suspended + {c1.current}), next)
  }

  function Base(c: Cpu): nat {
    if c.frames == [] then 0 else c.frames[|c.frames| - 1]
  }

  /** Locks are released innermost first and by the context that took them; an interrupt comes
      only while the flag is set and ends with its own locks released. */
  predicate Legal(c: Cpu, op: Op) {
    match op
    case Acquire(_) => true
    case Release => |c.holds| > Base(c)
    case IrqEnter => c.interrupts
    case IrqExit(_) => c.frames != [] && |c.holds| == Base(c)
    case RequestResched => true
    case Yield(_) => true
    case ReturnFromIrq => c.frames == [] && c.holds == [] && c.current in c.suspended
  }

  function Step(c: Cpu, op: Op): Outcome<Cpu>
    requires Legal(c, op)
  {
    match op
    case Acquire(l) => Lock(c, l)
    case Release => var h := c.holds[|c.holds| - 1]; Unlock(c, h.lock, h.saved)
    case IrqEnter => Ok(c.(interrupts := false, irqDepth := c.irqDepth + 1, frames := c.frames + [|c.holds|]))
    case IrqExit(next) => Exit(c, next)
    case RequestResched => Ok(c.(needResched := true))
    case Yield(next) => SwitchTo(c, next)
    case ReturnFromIrq => Ok(c.(interrupts := true, suspended := c.suspended - {c.current}))
  }

  // ----- what every step keeps -----

  predicate HoldOk(c: Cpu, i: int)
    requires 0 <= i < |c.holds|
  {
    && c.holds[i].owner == c.current && c.holds[i].lock != 0 && c.holds[i].lock in c.locked
    && (c.holds[i].saved ==> i == 0 && c.frames == [])
  }

  /** The depth counter is the number of held locks; a held lock means interrupts are off and
      its owner is current; interrupts never nest, and they never find a lock held. */
  ghost predicate Inv(c: Cpu) {
    && c.depth == |c.holds| && c.irqDepth == |c.frames|
    && (c.holds != [] ==> !c.interrupts)
    && (c.frames != [] ==> !c.interrupts && c.frames == [0])
    && (forall i :: 0 <= i < |c.holds| ==> HoldOk(c, i))
    && (forall i, j :: 0 <= i < j < |c.holds| ==> c.holds[i].lock != c.holds[j].lock)
    && (forall l :: l in c.locked ==> exists i :: 0 <= i < |c.holds| && c.holds[i].lock == l)
  }

  lemma NoLocks(c: Cpu)
    requires Inv(c) && c.holds == []
    ensures c.locked == {}
  {
    forall l
      ensures l !in c.locked
    {
    }
  }

  lemma LockKeeps(c: Cpu, l: int)
    requires Inv(c)
    ensures Lock(c, l).Ok? ==> Inv(Lock(c, l).value)
  {
    if Lock(c, l).Ok? {
      var c' := Lock(c, l).value;
      forall i | 0 <= i < |c'.holds|
        ensures HoldOk(c', i)
      {
        if i < |c.holds| {
          assert HoldOk(c, i);
        }
      }
      forall i, j | 0 <= i < j < |c'.holds|
        ensures c'.holds[i].lock != c'.holds[j].lock
      {
        assert HoldOk(c, i);
      }
      assert c'.holds[|c.holds|].lock == l;
      forall x | x in c'.locked
        ensures exists i :: 0 <= i < |c'.holds| && c'.holds[i].lock == x
      {
        if x != l {
          var i :| 0 <= i < |c.holds| && c.holds[i].lock == x;
          assert c'.holds[i].lock == x;
        }
      }
    }
  }

  lemma ReleaseKeeps(c: Cpu)
    requires Inv(c) && Legal(c, Release)
    ensures Step(c, Release).Ok? && Inv(Step(c, Release).value)
  {
    var n := |c.holds| - 1;
    assert HoldOk(c, n);
    var c' := Step(c, Release).value;
    forall i | 0 <= i < |c'.holds|
      ensures HoldOk(c', i)
    {
      assert HoldOk(c, i);
    }
    forall x | x in c'.locked
      ensures exists i :: 0 <= i < |c'.holds| && c'.holds[i].lock == x
    {
      var i :| 0 <= i < |c.holds| && c.holds[i].lock == x;
      assert c'.holds[i].lock == x;
    }
  }

  lemma StepKeeps(c: Cpu, op: Op)
    requires Inv(c) && Legal(c, op)
    ensures Step(c, op).Ok? ==> Inv(Step(c, op).value)
  {
    match op
    case Acquire(l) => LockKeeps(c, l);
    case Release => ReleaseKeeps(c);
    case IrqEnter =>
    case IrqExit(next) =>
      NoLocks(c);
    case RequestResched =>
      var c' := Step(c, op).value;
      forall i | 0 <= i < |c'.holds|
        ensures HoldOk(c', i)
      {
        assert HoldOk(c, i);
      }
    case Yield(next) =>
    case ReturnFromIrq =>
  }

  predicate HeldByCurrent(c: Cpu, l: int) {
    exists i :: 0 <= i < |c.holds| && c.holds[i].lock == l && c.holds[i].owner == c.current
  }

  lemma LockedIsHeld(c: Cpu, l: int)
    requires Inv(c)
    ensures l in c.locked <==> HeldByCurrent(c, l)
    ensures l in c.locked ==> l != 0
  {
    if l in c.locked {
      var i :| 0 <= i < |c.holds| && c.holds[i].lock == l;
      assert HoldOk(c, i);
    }
    if HeldByCurrent(c, l) {
      var i :| 0 <= i < |c.holds| && c.holds[i].lock == l && c.holds[i].owner == c.current;
      assert HoldOk(c, i);
    }
  }

  /** Which steps panic: acquiring a lock one already holds, and switching while a lock is held
      or inside an interrupt. Nothing else does, and an interrupt exit never does. */
  lemma PanicsExactly(c: Cpu, op: Op)
    requires Inv(c) && Legal(c, op)
    ensures op.Acquire? ==>
      && (Step(c, op) == Panic(Contention) <==> HeldByCurrent(c, op.lock))
      && (Step(c, op) == Panic(InvalidAcquire) <==> op.lock == 0)
      && (Step(c, op).Ok? <==> op.lock != 0 && !HeldByCurrent(c, op.lock))
    ensures op.Yield? ==> (Step(c, op).Ok? <==> c.holds == [] && c.frames == [])
    ensures op.Release? || op.IrqEnter? || op.IrqExit? || op.RequestResched? || op.ReturnFromIrq? ==> Step(c, op).Ok?
  {
    match op
    case Release => ReleaseKeeps(c);
    case Acquire(l) => LockedIsHeld(c, l);
    case _ =>
  }

  /** A release panics exactly for NULL and for a lock that is not held; the depth never underflows. */
  lemma ReleasePanicsExactly(c: Cpu, l: int, flags: bool)
    requires Inv(c)
    ensures Unlock(c, l, flags).Ok? <==> HeldByCurrent(c, l)
    ensures Unlock(c, l, flags).Panic? ==> Unlock(c, l, flags).reason == InvalidRelease
  {
    LockedIsHeld(c, l);
    if l in c.locked {
      var i :| 0 <= i < |c.holds| && c.holds[i].lock == l;
    }
  }

  /** An interrupt never meets a held lock. */
  lemma InterruptFindsNoLock(c: Cpu)
    requires Inv(c) && Legal(c, IrqEnter)
    ensures c.holds == [] && c.locked == {} && c.depth == 0 && c.irqDepth == 0
  {
    NoLocks(c);
  }

  /** A switch happens only with nothing held and outside interrupts. */
  lemma SwitchesAreClear(c: Cpu, op: Op)
    requires Inv(c) && Legal(c, op) && Step(c, op).Ok? && Step(c, op).value.current != c.current
    ensures c.holds == [] && c.depth == 0 && Step(c, op).value.irqDepth == 0 && Step(c, op).value.holds == []
  {
  }

  /** An interrupt exit with a reschedule requested moves the processor to the chosen thread and
      takes the request back; the interrupted thread is suspended exactly if another was chosen.
      Without a request, or before there is a thread, the interrupted context goes on. */
  lemma ExitSwitches(c: Cpu, next: int)
    requires Inv(c) && Legal(c, IrqExit(next))
    ensures Step(c, IrqExit(next)).Ok?
    ensures var r := Step(c, IrqExit(next)).value;
      && r.frames == [] && r.irqDepth == 0 && r.holds == c.holds && r.locked == c.locked && r.depth == c.depth
      && (c.needResched && c.current != 0 ==>
            && r.current == next && !r.needResched
            && r.suspended == (if next == c.current then c.suspended else c.suspended + {c.current})
            && r.interrupts == (next == c.current))
      && (!c.needResched || c.current == 0 ==>
            r.current == c.current && r.needResched == c.needResched && r.suspended == c.suspended && r.interrupts)
  {
    assert c.frames == [0] && c.frames[..0] == [];
  }

  /** A yield that does not panic runs the chosen thread and changes nothing else. */
  lemma YieldSwitches(c: Cpu, next: int)
    requires Inv(c) && Step(c, Yield(next)).Ok?
    ensures Step(c, Yield(next)).value.current == next && Step(c, Yield(next)).value.(current := c.current) == c
  {
  }

  // ----- runs -----

  ghost predicate LegalRun(c: Cpu, ops: seq<Op>)
    decreases |ops|
  {
    ops == [] || (Legal(c, ops[0]) && (Step(c, ops[0]).Ok? ==> LegalRun(Step(c, ops[0]).value, ops[1..])))
  }

  function Run(c: Cpu, ops: seq<Op>): Outcome<Cpu>
    requires LegalRun(c, ops)
    decreases |ops|
  {
    if ops == [] then Ok(c)
    else match Step(c, ops[0])
      case Ok(c') => Run(c', ops[1..])
      case Panic(r) => Panic(r)
  }

  lemma {:induction false} RunKeeps(c: Cpu, ops: seq<Op>)
    requires Inv(c) && LegalRun(c, ops)
    ensures Run(c, ops).Ok? ==> Inv(Run(c, ops).value)
    ensures Run(c, ops).Panic? ==> Run(c, ops).reason in {InvalidAcquire, Contention, SwitchWhileHeld, SwitchInIrq}
    decreases |ops|
  {
    if ops != [] {
      StepKeeps(c, ops[0]);
      PanicsExactly(c, ops[0]);
      if Step(c, ops[0]).Ok? {
        RunKeeps(Step(c, ops[0]).value, ops[1..]);
      }
    }
  }

  /** An interrupt that finds and makes no request is not noticed. */
  lemma InterruptIsTransparent(c: Cpu, next: int)
    requires Inv(c) && c.interrupts && !c.needResched
    ensures LegalRun(c, [IrqEnter, IrqExit(next)]) && Run(c, [IrqEnter, IrqExit(next)]) == Ok(c)
  {
    InterruptFindsNoLock(c);
    var c1 := Step(c, IrqEnter).value;
    StepKeeps(c, IrqEnter);
    assert c.frames == [] && c1.frames == [0] && c1.frames[..0] == [];
    ExitSwitches(c1, next);
    RunOne(c1, IrqExit(next));
    assert [IrqEnter, IrqExit(next)][1..] == [IrqExit(next)];
  }

  /** A request made inside an interrupt preempts the interrupted thread when the interrupt ends. */
  lemma Preempts(c: Cpu, next: int)
    requires Inv(c) && c.interrupts && c.current != 0 && next != c.current
    ensures LegalRun(c, [IrqEnter, RequestResched, IrqExit(next)])
    ensures Run(c, [IrqEnter, RequestResched, IrqExit(next)])
         == Ok(c.(current := next, needResched := false, interrupts := false, suspended := c.suspended + {c.current}))
  {
    var c1 := Step(c, IrqEnter).value;
    var c2 := Step(c1, RequestResched).value;
    InterruptFindsNoLock(c);
    StepKeeps(c, IrqEnter);
    StepKeeps(c1, RequestResched);
    assert c.frames == [] && c2.frames == [0];
    ExitSwitches(c2, next);
    RunOne(c2, IrqExit(next));
    var ops := [IrqEnter, RequestResched, IrqExit(next)];
    assert ops[1..] == [RequestResched, IrqExit(next)] && ops[1..][1..] == [IrqExit(next)];
  }

  /** When a later yield chooses the preempted thread again, it returns from its interrupt, and
      everything but the request is as it was. */
  lemma PreemptedComesBack(c: Cpu, next: int)
    requires Inv(c) && c.interrupts && c.current != 0 && next != c.current && c.current !in c.suspended
    ensures var ops := [IrqEnter, RequestResched, IrqExit(next)] + [Yield(c.current), ReturnFromIrq];
      LegalRun(c, ops) && Run(c, ops) == Ok(c.(needResched := false))
  {
    Preempts(c, next);
    var c1 := Run(c, [IrqEnter, RequestResched, IrqExit(next)]).value;
    var c2 := c1.(current := c.current);
    InterruptFindsNoLock(c);
    assert Step(c1, Yield(c.current)) == Ok(c2);
    assert Legal(c2, ReturnFromIrq) && c1.suspended - {c.current} == c.suspended;
    RunOne(c2, ReturnFromIrq);
    assert [Yield(c.current), ReturnFromIrq][1..] == [ReturnFromIrq];
    RunConcat(c, [IrqEnter, RequestResched, IrqExit(next)], [Yield(c.current), ReturnFromIrq]);
  }

  /** Taking any number of distinct locks and releasing them in reverse order panics nowhere and
      restores everything, the interrupt flag included. */
  lemma {:induction false} NestingRestores(c: Cpu, locks: seq<int>)
    requires Inv(c) && (forall i :: 0 <= i < |locks| ==> locks[i] != 0 && locks[i] !in c.locked)
    requires forall i, j :: 0 <= i < j < |locks| ==> locks[i] != locks[j]
    ensures LegalRun(c, Nest(locks)) && Run(c, Nest(locks)) == Ok(c)
    decreases |locks|
  {
    if locks != [] {
      var rest := locks[1..];
      LockKeeps(c, locks[0]);
      LockUnlock(c, locks[0]);
      RestIsFree(c, locks);
      NestingRestores(Lock(c, locks[0]).value, rest);
      Around(c, locks[0], Nest(rest));
    }
  }

  /** After the first of distinct free locks is taken, the others are still free and distinct. */
  lemma RestIsFree(c: Cpu, locks: seq<int>)
    requires locks != [] && (forall i :: 0 <= i < |locks| ==> locks[i] != 0 && locks[i] !in c.locked)
    requires forall i, j :: 0 <= i < j < |locks| ==> locks[i] != locks[j]
    ensures Lock(c, locks[0]).Ok?
    ensures var c1, rest := Lock(c, locks[0]).value, locks[1..];
      && (forall i :: 0 <= i < |rest| ==> rest[i] != 0 && rest[i] !in c1.locked)
      && (forall i, j :: 0 <= i < j < |rest| ==> rest[i] != rest[j])
  {
    var rest := locks[1..];
    assert forall i :: 0 <= i < |rest| ==> rest[i] == locks[i + 1];
  }

  /** A run that restores the state still does so between an acquire and its release. */
  lemma Around(c: Cpu, l: int, ops: seq<Op>)
    requires Inv(c) && l != 0 && l !in c.locked
    requires LegalRun(Lock(c, l).value, ops) && Run(Lock(c, l).value, ops) == Ok(Lock(c, l).value)
    ensures LegalRun(c, [Acquire(l)] + (ops + [Release])) && Run(c, [Acquire(l)] + (ops + [Release])) == Ok(c)
  {
    var c1 := Lock(c, l).value;
    LockUnlock(c, l);
    RunOne(c1, Release);
    RunConcat(c1, ops, [Release]);
    var all := [Acquire(l)] + (ops + [Release]);
    assert all[0] == Acquire(l) && all[1..] == ops + [Release];
  }

  lemma LockUnlock(c: Cpu, l: int)
    requires Inv(c) && l != 0 && l !in c.locked
    ensures Lock(c, l).Ok? && Legal(Lock(c, l).value, Release) && Step(Lock(c, l).value, Release) == Ok(c)
  {
  }

  lemma RunOne(c: Cpu, op: Op)
    requires Legal(c, op)
    ensures LegalRun(c, [op]) && Run(c, [op]) == Step(c, op)
  {
  }

  function Nest(locks: seq<int>): seq<Op> {
    if locks == [] then [] else [Acquire(locks[0])] + (Nest(locks[1..]) + [Release])
  }

  lemma {:induction false} RunConcat(c: Cpu, a: seq<Op>, b: seq<Op>)
    requires LegalRun(c, a) && Run(c, a).Ok? && LegalRun(Run(c, a).value, b)
    ensures LegalRun(c, a + b) && Run(c, a + b) == Run(Run(c, a).value, b)
    decreases |a|
  {
    if a == [] {
      assert a + b == b;
    } else {
      assert (a + b)[0] == a[0] && (a + b)[1..] == a[1..] + b;
      RunConcat(Step(c, a[0]).value, a[1..], b);
    }
  }

  // ----- as written -----

  class Processor {
    var current: int
    var interrupts: bool
    var spinlockDepth: int
    var irqDepth: int
    var needResched: bool
    var locked: set<int>
    ghost var holds: seq<Hold>
    ghost var frames: seq<nat>
    ghost var suspended: set<int>

    ghost function Snapshot(): Cpu
      reads this
    {
      Cpu(current, interrupts, spinlockDepth, irqDepth, locked, needResched, holds, frames, suspended)
    }

    /** spin_lock_irqsave(); `ok` is false where it panics. */
    method SpinLockIrqsave(l: int) returns (ok: bool, flags: bool)
      modifies this
      ensures ok == Lock(old(Snapshot()), l).Ok?
      ensures ok ==> Snapshot() == Lock(old(Snapshot()), l).value && flags == old(interrupts)
    {
      flags := interrupts;
      if l == 0 {
        return false, flags;
      }
      interrupts := false;
      if l in locked {
        return false, flags;
      }
      locked := locked + {l};
      spinlockDepth := spinlockDepth + 1;
      holds := holds + [Hold(l, flags, current)];
      return true, flags;
    }

    /** spin_unlock_irqrestore(). */
    method SpinUnlockIrqrestore(l: int, flags: bool) returns (ok: bool)
      modifies this
      ensures ok == Unlock(old(Snapshot()), l, flags).Ok?
      ensures ok ==> Snapshot() == Unlock(old(Snapshot()), l, flags).value
    {
      if l == 0 || l !in locked {
        return false;
      }
      if spinlockDepth <= 0 {
        return false;
      }
      spinlockDepth := spinlockDepth - 1;
      locked := locked - {l};
      if flags {
        interrupts := true;
      }
      holds := if holds == [] then [] else holds[..|holds| - 1];
      return true;
    }

    /** sched_irq_exit() when it leaves with `next` chosen by sched_yield(). */
    method SchedIrqExit(next: int) returns (ok: bool)
      requires frames != []
      modifies this
      ensures ok == Exit(old(Snapshot()), next).Ok?
      ensures ok ==> Snapshot() == Exit(old(Snapshot()), next).value
    {
      if irqDepth <= 0 {
        return false;
      }
      irqDepth := irqDepth - 1;
      frames := frames[..|frames| - 1];
      if irqDepth != 0 || !needResched || current == 0 {
        interrupts := true;
        return true;
      }
      needResched := false;
      if spinlockDepth != 0 || irqDepth != 0 {
        return false;
      }
      if next == current {
        interrupts := true;
        return true;
      }
      suspended := suspended + {current};
      current := next;
      return true;
    }
  }
}

/** The work queue and the PS/2 byte ring it drains, under every interleaving of interrupts and
    the worker thread (kernel/workqueue.c, drivers/input/keyboard/ps2.c). Each locked region is
    one step. */
module DeferredWork {
  import opened Links

  /** Where the worker is: not created, about to test the queue under its lock, asleep, woken
      but not yet back at the test, about to pop, or inside the callback of a work item. */
  datatype Worker = Absent | Testing | Asleep | Woken | Draining | Calling(work: int)

  /** `keyboard` is the decoder's work item. `stored` marks an interrupt that has put a byte in
      the ring and not yet called queue_work(). */
  datatype System = System(
    keyboard: int,
    list: seq<int>,
    pending: set<int>,
    worker: Worker,
    accepted: seq<int>,
    started: seq<int>,
    capacity: nat,
    ring: seq<int>,
    stored: bool,
    kept: seq<int>,
    decoded: seq<int>,
    dropped: nat)

  datatype Event =
    | QueueWork(work: int)
    | IrqByte(byte: int)
    | IrqQueue
    | Start
    | Test
    | Continue
    | SelfResume
    | PopWork
    | PopByte
    | Return

  predicate Enabled(s: System, e: Event) {
    match e
    case QueueWork(w) => w != 0
    case IrqByte(_) => !s.stored
    case IrqQueue => s.stored
    case Start => s.worker == Absent
    case Test => s.worker == Testing
    case Continue => s.worker == Woken
    case SelfResume => s.worker == Asleep
    case PopWork => s.worker == Draining
    case PopByte => s.worker == Calling(s.keyboard)
    case Return => s.worker.Calling? && s.worker.work != s.keyboard
  }

  /** queue_work() with a valid callback: -EBUSY for a pending item, else append and wake. */
  function Queue(s: System, w: int): System {
    if w in s.pending then s
    else s.(list := s.list + [w], pending := s.pending + {w}, accepted := s.accepted + [w],
            worker := if s.worker == Asleep then Woken else s.worker)
  }

  function Next(s: System, e: Event): System
    requires Enabled(s, e)
  {
    match e
    case QueueWork(w) => Queue(s, w)
    case IrqByte(b) =>
      if |s.ring| == s.capacity then s.(dropped := s.dropped + 1)
      else s.(ring := s.ring + [b], kept := s.kept + [b], stored := true)
    case IrqQueue => Queue(s, s.keyboard).(stored := false)
    case Start => s.(worker := Testing)
    case Test => s.(worker := if s.list != [] then Draining else Asleep)
    case Continue => s.(worker := Testing)
    case SelfResume => s.(worker := Testing)
    case PopWork =>
      if s.list == [] then s.(worker := Testing)
      else s.(list := s.list[1..], pending := s.pending - {s.list[0]}, started := s.started + [s.list[0]], worker := Calling(s.list[0]))
    case PopByte =>
      if s.ring == [] then s.(worker := Draining)
      else s.(ring := s.ring[1..], decoded := s.decoded + [s.ring[0]])
    case Return => s.(worker := Draining)
  }

  ghost predicate Inv(s: System) {
    // `pending` holds exactly for items on the list, each there once.
    && Distinct(s.list) && (forall w :: w in s.pending <==> w in s.list)
    // Every accepted item is started once, in order.
    && s.accepted == s.started + s.list
    && (s.worker.Calling? ==> s.started != [] && s.worker.work == s.started[|s.started| - 1])
    // A byte in the ring has its decoder on the way.
    && (s.ring != [] ==> s.keyboard in s.pending || s.worker == Calling(s.keyboard) || s.stored)
    // Queued work has its worker awake.
    && (s.list != [] ==> s.worker != Asleep)
    && s.kept == s.decoded + s.ring && |s.ring| <= s.capacity
  }

  lemma QueueKeeps(s: System, w: int)
    requires Inv(s)
    ensures Inv(Queue(s, w)) && w in Queue(s, w).pending
    ensures Queue(s, w).ring == s.ring
  {
    if w !in s.pending {
      var s' := Queue(s, w);
      assert w !in s.list;
      assert s'.accepted == s'.started + s'.list;
      forall x
        ensures x in s'.pending <==> x in s'.list
      {
        assert x in s'.list <==> x in s.list || x == w;
      }
    }
  }

  lemma PopKeeps(s: System)
    requires Inv(s) && s.worker == Draining && s.list != []
    ensures Inv(Next(s, PopWork))
  {
    var s' := Next(s, PopWork);
    var w := s.list[0];
    assert s.list == [w] + s'.list;
    assert s'.started + s'.list == s.started + s.list;
    forall x
      ensures x in s'.pending <==> x in s'.list
    {
      assert x in s.list <==> x == w || x in s'.list;
    }
  }

  lemma NextKeeps(s: System, e: Event)
    requires Inv(s) && Enabled(s, e)
    ensures Inv(Next(s, e))
  {
    match e
    case QueueWork(w) => QueueKeeps(s, w);
    case IrqByte(b) => assert s.kept + [b] == s.decoded + (s.ring + [b]);
    case IrqQueue => QueueKeeps(s, s.keyboard);
    case PopWork =>
      if s.list != [] {
        PopKeeps(s);
      }
    case PopByte =>
      if s.ring != [] {
        assert s.decoded + s.ring == s.decoded + [s.ring[0]] + s.ring[1..];
      }
    case _ =>
  }

  // ----- runs -----

  ghost predicate CanRun(s: System, es: seq<Event>)
    decreases |es|
  {
    es == [] || (Enabled(s, es[0]) && CanRun(Next(s, es[0]), es[1..]))
  }

  function Run(s: System, es: seq<Event>): System
    requires CanRun(s, es)
    decreases |es|
  {
    if es == [] then s else Run(Next(s, es[0]), es[1..])
  }

  lemma {:induction false} RunKeeps(s: System, es: seq<Event>)
    requires Inv(s) && CanRun(s, es)
    ensures Inv(Run(s, es))
    decreases |es|
  {
    if es != [] {
      NextKeeps(s, es[0]);
      RunKeeps(Next(s, es[0]), es[1..]);
    }
  }

  function Initial(keyboard: int, capacity: nat): System {
    System(keyboard, [], {}, Absent, [], [], capacity, [], false, [], [], 0)
  }

  /** No stuck scancode, in every run: a byte in the ring means the decoder is pending, running,
      or about to be queued; a sleeping worker outside interrupts means nothing is left; and the
      bytes kept are decoded in order, none lost. */
  lemma NoStuckScancode(keyboard: int, capacity: nat, es: seq<Event>)
    requires CanRun(Initial(keyboard, capacity), es)
    ensures var s := Run(Initial(keyboard, capacity), es);
      && (s.ring != [] ==> keyboard in s.pending || s.worker == Calling(keyboard) || s.stored)
      && (s.pending != {} ==> s.worker != Asleep)
      && (s.worker == Asleep && !s.stored ==> s.ring == [] && s.decoded == s.kept)
      && s.kept == s.decoded + s.ring
  {
    var s0 := Initial(keyboard, capacity);
    RunKeeps(s0, es);
    var s := Run(s0, es);
    KeyboardStays(s0, es);
    if s.list == [] {
      assert forall w :: w in s.pending ==> w in s.list;
      assert s.pending == {};
    }
    assert s.worker == Asleep ==> s.list == [] && keyboard !in s.list;
  }

  lemma {:induction false} KeyboardStays(s: System, es: seq<Event>)
    requires CanRun(s, es)
    ensures Run(s, es).keyboard == s.keyboard
    decreases |es|
  {
    if es != [] {
      KeyboardStays(Next(s, es[0]), es[1..]);
    }
  }

  /** Exactly once and first in first out, in every run: what was accepted is what was started
      followed by what is queued, and an item is pending exactly while it is queued. */
  lemma ExactlyOnce(keyboard: int, capacity: nat, es: seq<Event>)
    requires CanRun(Initial(keyboard, capacity), es)
    ensures var s := Run(Initial(keyboard, capacity), es);
      && s.accepted == s.started + s.list
      && (forall w :: w in s.pending <==> w in s.list) && Distinct(s.list)
      && (s.worker.Calling? ==> s.started != [] && s.worker.work == s.started[|s.started| - 1])
  {
    RunKeeps(Initial(keyboard, capacity), es);
  }

  /** The bytes that interrupts brought in a run. */
  function Brought(es: seq<Event>): seq<int>
    decreases |es|
  {
    if es == [] then [] else (if es[0].IrqByte? then [es[0].byte] else []) + Brought(es[1..])
  }

  /** No byte is dropped before more came than the ring holds. */
  lemma {:induction false} NothingDroppedEarly(s: System, es: seq<Event>)
    requires Inv(s) && CanRun(s, es) && |s.kept| + |Brought(es)| <= s.capacity
    ensures Run(s, es).kept == s.kept + Brought(es) && Run(s, es).dropped == s.dropped
    decreases |es|
  {
    if es == [] {
      assert s.kept + [] == s.kept;
    } else {
      NextKeeps(s, es[0]);
      var s' := Next(s, es[0]);
      if es[0].IrqByte? {
        assert |s.ring| <= |s.kept|;
        assert s.kept + ([es[0].byte] + Brought(es[1..])) == (s.kept + [es[0].byte]) + Brought(es[1..]);
      } else {
        assert Brought(es) == Brought(es[1..]);
      }
      NothingDroppedEarly(s', es[1..]);
    }
  }
}

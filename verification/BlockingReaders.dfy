/** Any number of blocking readers on one bounded queue, one wake per item: the protocol of
    input_read_event() and tty_read_line() over wait_queue_wait(). Each locked region is one
    step; interrupts report items at any time. */
module BlockingReaders {
  import opened Links
  import Scheduler

  /** Where a reader is: outside, about to test the condition under the lock, asleep on the
      wait queue, woken but not yet back at the test, or past the test and about to pop. */
  datatype Place = Outside | Testing | Asleep | Woken | Popping

  datatype System<T> = System(
    capacity: nat,
    items: seq<T>,
    readers: map<int, Place>,
    asleep: seq<int>,
    accepted: seq<T>,
    taken: seq<T>,
    dropped: nat,
    reports: nat)

  datatype Event<T> =
    | Report(item: T)
    | Begin(reader: int)
    | Test(reader: int)
    | Continue(reader: int)
    | SelfResume(reader: int)
    | Pop(reader: int)
    | TryRead

  predicate At<T>(s: System<T>, r: int, p: Place) {
    r in s.readers && s.readers[r] == p
  }

  predicate Enabled<T>(s: System<T>, e: Event<T>) {
    match e
    case Report(_) => true
    case Begin(r) => At(s, r, Outside)
    case Test(r) => At(s, r, Testing)
    case Continue(r) => At(s, r, Woken)
    case SelfResume(r) => At(s, r, Asleep)
    case Pop(r) => At(s, r, Popping)
    case TryRead => true
  }

  function Move<T>(s: System<T>, r: int, p: Place): System<T> {
    s.(readers := s.readers[r := p])
  }

  /** wait_queue_wake_one_locked(). */
  function Wake<T>(s: System<T>): System<T> {
    if s.asleep == [] then s
    else Move(s, s.asleep[0], Woken).(asleep := s.asleep[1..])
  }

  /** input_pop_locked(): the oldest item, if any. */
  function TakeOne<T>(s: System<T>): System<T> {
    if s.items == [] then s else s.(items := s.items[1..], taken := s.taken + [s.items[0]])
  }

  function Next<T>(s: System<T>, e: Event<T>): System<T>
    requires Enabled(s, e)
  {
    match e
    case Report(x) =>
      if |s.items| == s.capacity then s.(dropped := s.dropped + 1, reports := s.reports + 1)
      else Wake(s.(items := s.items + [x], accepted := s.accepted + [x], reports := s.reports + 1))
    case Begin(r) => Move(s, r, Testing)
    case Test(r) =>
      if s.items != [] then Move(s, r, Popping) else Move(s, r, Asleep).(asleep := s.asleep + [r])
    case Continue(r) => Move(s, r, Testing)
    case SelfResume(r) => Move(s, r, Testing).(asleep := Scheduler.Without(s.asleep, r))
    case Pop(r) => Move(TakeOne(s), r, Outside)
    case TryRead => TakeOne(s)
  }

  // ----- the invariant -----

  predicate Heads(p: Place) {
    p == Testing || p == Woken || p == Popping
  }

  /** The awake readers on their way to a pop. */
  function Heading(readers: map<int, Place>): set<int> {
    set r | r in readers && Heads(readers[r])
  }

  ghost predicate Sleepers<T>(s: System<T>) {
    && Distinct(s.asleep)
    && (forall r :: r in s.asleep <==> At(s, r, Asleep))
  }

  /** No lost wakeup: while a reader sleeps, there are no more items than readers on their way
      to a pop. Items are taken in the order they were accepted, none twice. */
  ghost predicate Inv<T>(s: System<T>) {
    && Sleepers(s)
    && (s.asleep != [] ==> |s.items| <= |Heading(s.readers)|)
    && s.taken + s.items == s.accepted
    && |s.items| <= s.capacity
    && s.reports == |s.accepted| + s.dropped
  }

  lemma HeadingMoves(readers: map<int, Place>, r: int, p: Place)
    requires r in readers
    ensures |Heading(readers[r := p])| == |Heading(readers)| + Weight(p) - Weight(readers[r])
  {
    var before, after := Heading(readers), Heading(readers[r := p]);
    assert r in before <==> Heads(readers[r]);
    if Heads(p) == Heads(readers[r]) {
      assert after == before;
    } else if Heads(p) {
      assert after == before + {r} && r !in before;
    } else {
      assert before == after + {r} && r !in after;
    }
  }

  function Weight(p: Place): int {
    if Heads(p) then 1 else 0
  }

  /** Only falling asleep and waking change who sleeps. */
  lemma SameSleepers<T>(s: System<T>, s': System<T>, r: int, p: Place)
    requires Sleepers(s) && r in s.readers && s.readers[r] != Asleep && p != Asleep
    requires s'.readers == s.readers[r := p] && s'.asleep == s.asleep
    ensures Sleepers(s')
  {
  }

  lemma FallAsleep<T>(s: System<T>, s': System<T>, r: int)
    requires Sleepers(s) && r in s.readers && s.readers[r] != Asleep
    requires s'.readers == s.readers[r := Asleep] && s'.asleep == s.asleep + [r]
    ensures Sleepers(s')
  {
    assert r !in s.asleep;
    forall x
      ensures x in s'.asleep <==> At(s', x, Asleep)
    {
      assert x in s'.asleep <==> x in s.asleep || x == r;
      assert x in s.asleep <==> At(s, x, Asleep);
    }
  }

  lemma WakeUp<T>(s: System<T>, s': System<T>, r: int, p: Place)
    requires Sleepers(s) && r in s.asleep && p != Asleep
    requires s'.readers == s.readers[r := p] && s'.asleep == Scheduler.Without(s.asleep, r)
    ensures Sleepers(s') && At(s, r, Asleep)
  {
    var i := Scheduler.IndexOf(s.asleep, r);
    assert s.asleep == s.asleep[..i] + [r] + s.asleep[i + 1..];
    RemoveDistinct(s.asleep[..i], r, s.asleep[i + 1..]);
    Scheduler.WithoutMembers(s.asleep, r);
    forall x
      ensures x in s'.asleep <==> At(s', x, Asleep)
    {
      assert x in s.asleep <==> At(s, x, Asleep);
    }
  }

  lemma WakeKeeps<T>(s: System<T>, x: T)
    requires Inv(s) && |s.items| < s.capacity
    ensures Inv(Next(s, Report(x)))
  {
    var s' := Next(s, Report(x));
    assert s.taken + s.items + [x] == s.taken + (s.items + [x]);
    if s.asleep != [] {
      var r := s.asleep[0];
      assert Scheduler.Without(s.asleep, r) == s.asleep[1..];
      WakeUp(s, s', r, Woken);
      HeadingMoves(s.readers, r, Woken);
    }
  }

  lemma TakeKeeps<T>(s: System<T>)
    ensures var t := TakeOne(s); s.taken + s.items == s.accepted ==> t.taken + t.items == t.accepted
    ensures var t := TakeOne(s); t == s.(items := t.items, taken := t.taken) && |t.items| == if s.items == [] then 0 else |s.items| - 1
  {
  }

  lemma NextKeeps<T>(s: System<T>, e: Event<T>)
    requires Inv(s) && Enabled(s, e)
    ensures Inv(Next(s, e))
  {
    var s' := Next(s, e);
    match e
    case Report(x) =>
      if |s.items| < s.capacity {
        WakeKeeps(s, x);
      }
    case Begin(r) => ReaderMoves(s, s', r, Testing);
    case Test(r) =>
      if s.items != [] {
        ReaderMoves(s, s', r, Popping);
      } else {
        FallAsleep(s, s', r);
      }
    case Continue(r) => ReaderMoves(s, s', r, Testing);
    case SelfResume(r) =>
      assert r in s.asleep;
      WakeUp(s, s', r, Testing);
      HeadingMoves(s.readers, r, Testing);
    case Pop(r) =>
      TakeKeeps(s);
      SameSleepers(s, s', r, Outside);
      HeadingMoves(s.readers, r, Outside);
    case TryRead =>
      TakeKeeps(s);
  }

  /** A reader that stays awake and on its way changes nothing that matters. */
  lemma ReaderMoves<T>(s: System<T>, s': System<T>, r: int, p: Place)
    requires Inv(s) && r in s.readers && s.readers[r] != Asleep && Heads(p)
    requires s' == s.(readers := s.readers[r := p])
    ensures Inv(s')
  {
    SameSleepers(s, s', r, p);
    HeadingMoves(s.readers, r, p);
  }

  // ----- runs -----

  ghost predicate CanRun<T>(s: System<T>, es: seq<Event<T>>)
    decreases |es|
  {
    es == [] || (Enabled(s, es[0]) && CanRun(Next(s, es[0]), es[1..]))
  }

  function Run<T>(s: System<T>, es: seq<Event<T>>): System<T>
    requires CanRun(s, es)
    decreases |es|
  {
    if es == [] then s else Run(Next(s, es[0]), es[1..])
  }

  function Initial<T>(capacity: nat, readers: set<int>): System<T> {
    System(capacity, [], map r | r in readers :: Outside, [], [], [], 0, 0)
  }

  /** In every run of any number of readers: at every unlocked point, if a reader is asleep then
      the queued items are at most the awake readers on their way to a pop; the items taken so
      far followed by those queued are exactly the accepted ones in order; and every report was
      either accepted or counted as dropped. */
  lemma {:induction false} RunKeeps<T>(s: System<T>, es: seq<Event<T>>)
    requires Inv(s) && CanRun(s, es)
    ensures Inv(Run(s, es))
    decreases |es|
  {
    if es != [] {
      NextKeeps(s, es[0]);
      RunKeeps(Next(s, es[0]), es[1..]);
    }
  }

  lemma NoLostWakeup<T>(capacity: nat, readers: set<int>, es: seq<Event<T>>)
    requires CanRun(Initial<T>(capacity, readers), es)
    ensures var s := Run(Initial<T>(capacity, readers), es);
      && ((exists r :: At(s, r, Asleep)) ==> |s.items| <= |Heading(s.readers)|)
      && ((forall r :: r in s.readers ==> !Heads(s.readers[r])) && s.items != [] ==> forall r :: !At(s, r, Asleep))
      && s.taken + s.items == s.accepted && s.reports == |s.accepted| + s.dropped
  {
    var s0 := Initial<T>(capacity, readers);
    assert Inv(s0);
    RunKeeps(s0, es);
    var s := Run(s0, es);
    if r :| At(s, r, Asleep) {
      assert r in s.asleep;
    }
    if forall r :: r in s.readers ==> !Heads(s.readers[r]) {
      assert Heading(s.readers) == {};
    }
  }

  /** The items reported in a run. */
  function Reported<T>(es: seq<Event<T>>): seq<T>
    decreases |es|
  {
    if es == [] then [] else (if es[0].Report? then [es[0].item] else []) + Reported(es[1..])
  }

  /** Nothing is dropped before more was reported than the queue holds. */
  lemma {:induction false} NothingDroppedEarly<T>(s: System<T>, es: seq<Event<T>>)
    requires Inv(s) && CanRun(s, es) && |s.accepted| + |Reported(es)| <= s.capacity
    ensures Run(s, es).accepted == s.accepted + Reported(es) && Run(s, es).dropped == s.dropped
    decreases |es|
  {
    if es == [] {
      assert s.accepted + [] == s.accepted;
    } else {
      NextKeeps(s, es[0]);
      var s' := Next(s, es[0]);
      if es[0].Report? {
        assert |s.items| <= |s.accepted|;
        assert s.accepted + ([es[0].item] + Reported(es[1..])) == (s.accepted + [es[0].item]) + Reported(es[1..]);
      } else {
        assert Reported(es) == Reported(es[1..]);
      }
      NothingDroppedEarly(s', es[1..]);
    }
  }
}

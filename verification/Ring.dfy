/** A fixed-capacity ring in an array, as ps2.c and input.c keep one: `head` is the next slot to
    read, `tail` the next to write. It behaves as a bounded queue. */
module Ring {

  /** (i + 1) % n and (head + i) % n for offsets that wrap at most once. */
  function Wrap(i: nat, n: nat): nat {
    if i < n then i else i - n
  }

  lemma WrapIsMod(i: nat, n: nat)
    requires i < 2 * n
    ensures i % n == Wrap(i, n) < n
  {
  }

  class Queue<T> {
    const data: array<T>
    var head: nat
    var tail: nat
    var count: nat
    var dropped: nat
    ghost var items: seq<T>

    ghost predicate Valid()
      reads this, data
    {
      && data.Length > 0 && head < data.Length && tail < data.Length
      && count == |items| <= data.Length
      && tail == Wrap(head + count, data.Length)
      && forall i :: 0 <= i < |items| ==> data[Wrap(head + i, data.Length)] == items[i]
    }

    constructor (capacity: nat, filler: T)
      requires capacity > 0
      ensures Valid() && items == [] && dropped == 0 && data.Length == capacity && fresh(data)
    {
      data := new T[capacity](_ => filler);
      head, tail, count, dropped, items := 0, 0, 0, 0, [];
    }

    /** Store an item, or count it as dropped when the ring is full. */
    method Push(x: T) returns (stored: bool)
      requires Valid()
      modifies this`tail, this`count, this`dropped, this`items, data
      ensures Valid()
      ensures stored <==> |old(items)| < data.Length
      ensures items == if stored then old(items) + [x] else old(items)
      ensures dropped == old(dropped) + if stored then 0 else 1
    {
      if count == data.Length {
        dropped := dropped + 1;
        return false;
      }
      data[tail] := x;
      WrapIsMod(tail + 1, data.Length);
      tail := (tail + 1) % data.Length;
      count := count + 1;
      items := items + [x];
      return true;
    }

    /** Take the oldest item, if there is one. */
    method Pop(filler: T) returns (found: bool, x: T)
      requires Valid()
      modifies this`head, this`count, this`items
      ensures Valid()
      ensures found <==> old(items) != []
      ensures if found then [x] + items == old(items) else items == old(items)
    {
      if count == 0 {
        return false, filler;
      }
      x := data[head];
      WrapIsMod(head + 1, data.Length);
      head := (head + 1) % data.Length;
      count := count - 1;
      items := items[1..];
      return true, x;
    }
  }
}

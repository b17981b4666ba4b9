/** Singly linked lists threaded through memory by a link field, as the run queue, the wait
    queues and the work list are. Address 0 is NULL. */
module Links {

  ghost predicate Distinct(q: seq<int>) {
    forall i, j :: 0 <= i < j < |q| ==> q[i] != q[j]
  }

  function First(q: seq<int>): int {
    if q == [] then 0 else q[0]
  }

  function Last(q: seq<int>): int {
    if q == [] then 0 else q[|q| - 1]
  }

  predicate LinkAt(next: map<int, int>, q: seq<int>, i: int) {
    0 <= i < |q| ==> q[i] in next && next[q[i]] == First(q[i + 1..])
  }

  /** The list that starts at `head` is q. */
  ghost predicate Linked(next: map<int, int>, head: int, q: seq<int>) {
    && head == First(q)
    && 0 !in q
    && Distinct(q)
    && forall i :: 0 <= i < |q| ==> LinkAt(next, q, i)
  }

  lemma NextIs(next: map<int, int>, head: int, q: seq<int>, i: nat)
    requires Linked(next, head, q) && i < |q|
    ensures q[i] in next && next[q[i]] == (if i + 1 < |q| then q[i + 1] else 0) && q[i] != 0
  {
    assert LinkAt(next, q, i);
  }

  lemma FirstZero(a: seq<int>, b: seq<int>)
    requires 0 !in a + b
    ensures First(b) == 0 <==> b == []
  {
  }

  lemma FirstDiffers(q: seq<int>, m: nat, k: nat)
    requires Distinct(q) && 0 !in q && m < k <= |q|
    ensures First(q[m..]) != First(q[k..])
  {
  }

  /** Writes to other nodes do not matter. */
  lemma SameLinks(next: map<int, int>, next': map<int, int>, head: int, q: seq<int>)
    requires Linked(next, head, q) && forall x :: x in q && x in next ==> x in next' && next'[x] == next[x]
    ensures Linked(next', head, q)
  {
    forall i | 0 <= i < |q|
      ensures LinkAt(next', q, i)
    {
      assert LinkAt(next, q, i) && q[i] in q;
    }
  }

  /** Append: the new node ends the list, and the old tail, if any, points to it. */
  function Appended(next: map<int, int>, tail: int, t: int): map<int, int> {
    if tail != 0 then next[t := 0][tail := t] else next[t := 0]
  }

  lemma AppendLinked(next: map<int, int>, head: int, q: seq<int>, t: int)
    requires Linked(next, head, q) && t !in q && t != 0
    ensures Linked(Appended(next, Last(q), t), if q == [] then t else head, q + [t])
  {
    var next', q' := Appended(next, Last(q), t), q + [t];
    forall i | 0 <= i < |q'|
      ensures LinkAt(next', q', i)
    {
      if i < |q| {
        NextIs(next, head, q, i);
        assert q[i] == Last(q) <==> i == |q| - 1;
      }
    }
  }

  /** Unlink x, which stands between a and b. */
  function Unlinked(next: map<int, int>, prev: int, x: int): map<int, int>
    requires x in next
  {
    if prev != 0 then next[prev := next[x]] else next
  }

  lemma RemoveLinked(next: map<int, int>, head: int, a: seq<int>, x: int, b: seq<int>)
    requires Linked(next, head, a + [x] + b)
    ensures x in next && next[x] == First(b)
    ensures Linked(Unlinked(next, Last(a), x), if a == [] then next[x] else head, a + b)
  {
    var q, q' := a + [x] + b, a + b;
    assert q[|a|] == x;
    NextIs(next, head, q, |a|);
    var next' := Unlinked(next, Last(a), x);
    forall i | 0 <= i < |q'|
      ensures LinkAt(next', q', i)
    {
      var j := if i < |a| then i else i + 1;
      assert q[j] == q'[i];
      NextIs(next, head, q, j);
      assert a != [] ==> q[|a| - 1] == Last(a) && (q[j] == Last(a) <==> j == |a| - 1);
      if i + 1 < |q'| {
        assert q'[i + 1] == q[if i + 1 < |a| then i + 1 else i + 2];
      }
    }
    RemoveDistinct(a, x, b);
  }

  lemma RemoveDistinct(a: seq<int>, x: int, b: seq<int>)
    requires Distinct(a + [x] + b)
    ensures Distinct(a + b) && x !in a + b
  {
    var q, q' := a + [x] + b, a + b;
    assert q[|a|] == x;
    assert forall i :: 0 <= i < |q'| ==> q'[i] == q[if i < |a| then i else i + 1];
  }

  /** Push a node on the front. */
  lemma PushLinked(next: map<int, int>, head: int, q: seq<int>, x: int)
    requires Linked(next, head, q) && x !in q && x != 0
    ensures Linked(next[x := head], x, [x] + q)
  {
    var next', q' := next[x := head], [x] + q;
    forall i | 0 <= i < |q'|
      ensures LinkAt(next', q', i)
    {
      if i > 0 {
        NextIs(next, head, q, i - 1);
      }
    }
  }

  lemma PopLinked(next: map<int, int>, head: int, q: seq<int>)
    requires Linked(next, head, q) && q != []
    ensures q[0] in next && Linked(next, next[q[0]], q[1..])
  {
    NextIs(next, head, q, 0);
    forall i | 0 <= i < |q[1..]|
      ensures LinkAt(next, q[1..], i)
    {
      NextIs(next, head, q, i + 1);
    }
  }
}

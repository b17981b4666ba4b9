/** What the terminal's line discipline computes: a pure editing fold of the characters, and a
    bounded queue of completed lines (drivers/tty/tty.c). */
module LineDiscipline {

  const BS := 8
  const LF := 10
  const LINE_LENGTH := 128
  const QUEUE_SIZE := 8

  /** Editing one line: backspace takes back, and a full line ignores further characters. */
  function Edited(edit: seq<int>, ch: int): seq<int> {
    if ch == BS then if edit == [] then [] else edit[..|edit| - 1]
    else if |edit| + 1 >= LINE_LENGTH then edit
    else edit + [ch]
  }

  /** The lines completed by a stream of characters, and the line being edited. */
  function Fold(chars: seq<int>): (seq<seq<int>>, seq<int>)
    decreases |chars|
  {
    if chars == [] then ([], [])
    else
      var (lines, edit) := Fold(chars[..|chars| - 1]);
      var ch := chars[|chars| - 1];
      if ch == LF then (lines + [edit], []) else (lines, Edited(edit, ch))
  }

  /** The terminal: the edited line, the queued lines and the drop counter; and, as history, the
      characters received, which completed lines were queued, and the lines read. */
  datatype Tty = Tty(edit: seq<int>, queue: seq<seq<int>>, dropped: nat, received: seq<int>, kept: seq<bool>, read: seq<seq<int>>)

  datatype Event = Receive(ch: int) | ReadLine

  /** tty_receive_char(). */
  function Received(t: Tty, ch: int): Tty {
    var t := t.(received := t.received + [ch]);
    if ch != LF then t.(edit := Edited(t.edit, ch))
    else if |t.queue| == QUEUE_SIZE then t.(edit := [], dropped := t.dropped + 1, kept := t.kept + [false])
    else t.(edit := [], queue := t.queue + [t.edit], kept := t.kept + [true])
  }

  /** tty_pop_line_locked(): -EAGAIN on an empty queue changes nothing. */
  function Popped(t: Tty): Tty {
    if t.queue == [] then t else t.(queue := t.queue[1..], read := t.read + [t.queue[0]])
  }

  function Next(t: Tty, e: Event): Tty {
    match e
    case Receive(ch) => Received(t, ch)
    case ReadLine => Popped(t)
  }

  function Run(t: Tty, es: seq<Event>): Tty
    decreases |es|
  {
    if es == [] then t else Run(Next(t, es[0]), es[1..])
  }

  const START := Tty([], [], 0, [], [], [])

  function Select(lines: seq<seq<int>>, kept: seq<bool>): seq<seq<int>>
    requires |lines| == |kept|
    decreases |lines|
  {
    if lines == [] then []
    else
      var n := |lines| - 1;
      Select(lines[..n], kept[..n]) + if kept[n] then [lines[n]] else []
  }

  function Misses(kept: seq<bool>): nat
    decreases |kept|
  {
    if kept == [] then 0 else Misses(kept[..|kept| - 1]) + if kept[|kept| - 1] then 0 else 1
  }

  function Newlines(chars: seq<int>): nat
    decreases |chars|
  {
    if chars == [] then 0 else Newlines(chars[..|chars| - 1]) + if chars[|chars| - 1] == LF then 1 else 0
  }

  ghost predicate Inv(t: Tty) {
    && Fold(t.received).1 == t.edit && |t.edit| < LINE_LENGTH
    && |Fold(t.received).0| == |t.kept|
    && Select(Fold(t.received).0, t.kept) == t.read + t.queue
    && t.dropped == Misses(t.kept) && |t.queue| <= QUEUE_SIZE
    && forall i :: 0 <= i < |t.queue| ==> |t.queue[i]| < LINE_LENGTH
  }

  lemma ReceivedKeeps(t: Tty, ch: int)
    requires Inv(t)
    ensures Inv(Received(t, ch))
  {
    var t' := Received(t, ch);
    assert t'.received[..|t'.received| - 1] == t.received;
    if ch == LF {
      var lines, kept := Fold(t.received).0, t.kept;
      var lines', kept' := lines + [t.edit], t'.kept;
      assert lines'[..|lines|] == lines && kept'[..|kept|] == kept;
      assert |t.queue| < QUEUE_SIZE ==> t.read + t.queue + [t.edit] == t.read + (t.queue + [t.edit]);
      assert (t.read + t.queue) + [] == t.read + t.queue;
    }
  }

  lemma PoppedKeeps(t: Tty)
    requires Inv(t)
    ensures Inv(Popped(t))
  {
  }

  lemma {:induction false} RunKeeps(t: Tty, es: seq<Event>)
    requires Inv(t)
    ensures Inv(Run(t, es))
    decreases |es|
  {
    if es != [] {
      match es[0] {
        case Receive(ch) => ReceivedKeeps(t, ch);
        case ReadLine => PoppedKeeps(t);
      }
      RunKeeps(Next(t, es[0]), es[1..]);
    }
  }

  lemma {:induction false} Counts(lines: seq<seq<int>>, kept: seq<bool>)
    requires |lines| == |kept|
    ensures |Select(lines, kept)| + Misses(kept) == |lines|
    decreases |lines|
  {
    if lines != [] {
      Counts(lines[..|lines| - 1], kept[..|lines| - 1]);
    }
  }

  lemma {:induction false} OneLinePerNewline(chars: seq<int>)
    ensures |Fold(chars).0| == Newlines(chars)
    decreases |chars|
  {
    if chars != [] {
      OneLinePerNewline(chars[..|chars| - 1]);
    }
  }

  /** In every run: the lines read, then the lines queued, are the completed lines of the editing
      fold in order, less the dropped ones; and every newline is accounted for. */
  lemma LinesAccounted(es: seq<Event>)
    ensures var t := Run(START, es);
      && |Fold(t.received).0| == |t.kept|
      && t.read + t.queue == Select(Fold(t.received).0, t.kept)
      && Newlines(t.received) == |t.read| + |t.queue| + t.dropped
  {
    RunKeeps(START, es);
    Accounted(Run(START, es));
  }

  lemma Accounted(t: Tty)
    requires Inv(t)
    ensures Newlines(t.received) == |t.read| + |t.queue| + t.dropped
  {
    Counts(Fold(t.received).0, t.kept);
    OneLinePerNewline(t.received);
  }

  /** Typing a character and taking it back changes nothing, exactly when the line was not full. */
  lemma BackspaceUndoes(edit: seq<int>, ch: int)
    requires ch != BS && ch != LF
    ensures |edit| + 1 < LINE_LENGTH <==> Edited(Edited(edit, ch), BS) == edit
  {
  }

  /** What a reader with room for `size` bytes gets of a line: as much as fits before a NUL. */
  function Cut(line: seq<int>, size: nat): (r: seq<int>)
    requires size > 0
    ensures r <= line && |r| < size && (r == line || |r| == size - 1)
  {
    if |line| + 1 > size then line[..size - 1] else line
  }

  // ----- what a typist sees -----

  /** The text up to its first line feed. */
  function LineEnd(chars: seq<int>): (n: nat)
    ensures n <= |chars| && (forall i :: 0 <= i < n ==> chars[i] != LF) && (n < |chars| ==> chars[n] == LF)
  {
    if chars == [] || chars[0] == LF then 0
    else
      var r := LineEnd(chars[1..]);
      assert forall i :: 1 <= i < |chars| ==> chars[i] == chars[1..][i - 1];
      r + 1
  }

  /** The text cut at its line feeds: the finished lines and what follows the last line feed. */
  function Pieces(chars: seq<int>): (ps: seq<seq<int>>)
    ensures ps != []
    decreases |chars|
  {
    var n := LineEnd(chars);
    if n == |chars| then [chars] else [chars[..n]] + Pieces(chars[n + 1..])
  }

  /** The first 127 characters of a line. */
  function Clip(line: seq<int>): seq<int> {
    if |line| <= 127 then line else line[..127]
  }

  function ClipAll(lines: seq<seq<int>>): (r: seq<seq<int>>)
    ensures |r| == |lines|
  {
    seq(|lines|, i requires 0 <= i < |lines| => Clip(lines[i]))
  }

  lemma LineEndIs(chars: seq<int>, n: nat)
    requires n <= |chars| && (forall i :: 0 <= i < n ==> chars[i] != LF) && (n < |chars| ==> chars[n] == LF)
    ensures LineEnd(chars) == n
  {
  }

  /** One more character: a line feed begins another piece, anything else goes on with the last. */
  function Longer(ps: seq<seq<int>>, ch: int): seq<seq<int>>
    requires ps != []
  {
    var n := |ps| - 1;
    if ch == LF then ps + [[]] else ps[..n] + [ps[n] + [ch]]
  }

  lemma LongerBelow(line: seq<int>, ps: seq<seq<int>>, ch: int)
    requires ps != []
    ensures Longer([line] + ps, ch) == [line] + Longer(ps, ch)
  {
    var all := [line] + ps;
    assert all[..|all| - 1] == [line] + ps[..|ps| - 1] && all[|all| - 1] == ps[|ps| - 1];
  }

  lemma PiecesGoOn(chars: seq<int>, n: nat)
    requires n == LineEnd(chars) < |chars|
    ensures Pieces(chars) == [chars[..n]] + Pieces(chars[n + 1..])
  {
  }

  lemma PiecesEnd(chars: seq<int>)
    requires LineEnd(chars) == |chars|
    ensures Pieces(chars) == [chars]
  {
  }

  lemma {:induction false} PiecesMore(chars: seq<int>, ch: int)
    ensures Pieces(chars + [ch]) == Longer(Pieces(chars), ch)
    decreases |chars|
  {
    var n, more := LineEnd(chars), chars + [ch];
    if n < |chars| {
      var rest := chars[n + 1..];
      assert more[..n] == chars[..n] && more[n + 1..] == rest + [ch];
      LineEndIs(more, n);
      PiecesGoOn(chars, n);
      PiecesGoOn(more, n);
      PiecesMore(rest, ch);
      LongerBelow(chars[..n], Pieces(rest), ch);
    } else {
      PiecesEnd(chars);
      LastPieceMore(chars, ch);
    }
  }

  lemma LastPieceMore(chars: seq<int>, ch: int)
    requires LineEnd(chars) == |chars|
    ensures Pieces(chars + [ch]) == Longer([chars], ch)
  {
    var n, more := |chars|, chars + [ch];
    assert [chars][..0] == [] && [chars][0] == chars;
    if ch == LF {
      LineEndIs(more, n);
      PiecesGoOn(more, n);
      assert more[..n] == chars && more[n + 1..] == [];
      PiecesEnd([]);
    } else {
      LineEndIs(more, n + 1);
      PiecesEnd(more);
    }
  }

  /** Without backspaces, the lines completed are the lines typed, each up to 127 characters. */
  lemma {:induction false} TypedLines(chars: seq<int>)
    requires BS !in chars
    ensures var ps := Pieces(chars);
      Fold(chars) == (ClipAll(ps[..|ps| - 1]), Clip(ps[|ps| - 1]))
    decreases |chars|
  {
    if chars != [] {
      var n := |chars| - 1;
      var before, ch := chars[..n], chars[n];
      assert before + [ch] == chars;
      TypedLines(before);
      PiecesMore(before, ch);
      var ps := Pieces(before);
      if ch == LF {
        var all := ps + [[]];
        assert all[..|all| - 1] == ps;
        ClipLast(ps);
      } else {
        var all := ps[..|ps| - 1] + [ps[|ps| - 1] + [ch]];
        assert all[..|all| - 1] == ps[..|ps| - 1];
        ClipMore(ps[|ps| - 1], ch);
      }
    }
  }

  lemma ClipLast(ps: seq<seq<int>>)
    requires ps != []
    ensures ClipAll(ps) == ClipAll(ps[..|ps| - 1]) + [Clip(ps[|ps| - 1])]
  {
  }

  lemma ClipMore(line: seq<int>, ch: int)
    requires ch != BS && ch != LF
    ensures Edited(Clip(line), ch) == Clip(line + [ch])
  {
    if |line| >= 127 {
      assert (line + [ch])[..127] == line[..127];
    }
  }

  /** In every run: nothing is dropped before more lines than the queue holds have been completed. */
  lemma NothingDroppedEarly(es: seq<Event>)
    ensures var t := Run(START, es); Newlines(t.received) <= 8 ==> t.dropped == 0
  {
    RunDrops(START, es);
  }

  /** In every run without backspaces in which at most eight lines were completed: the lines read and
      queued are the lines typed, each up to 127 characters. */
  lemma TypedIsRead(es: seq<Event>)
    requires BS !in Run(START, es).received && Newlines(Run(START, es).received) <= 8
    ensures var t := Run(START, es);
      var ps := Pieces(t.received);
      t.read + t.queue == ClipAll(ps[..|ps| - 1])
  {
    RunKeeps(START, es);
    NothingDroppedEarly(es);
    var t := Run(START, es);
    TypedLines(t.received);
    SelectAll(Fold(t.received).0, t.kept);
  }

  lemma {:induction false} SelectAll(lines: seq<seq<int>>, kept: seq<bool>)
    requires |lines| == |kept| && Misses(kept) == 0
    ensures Select(lines, kept) == lines
    decreases |lines|
  {
    if lines != [] {
      var n := |lines| - 1;
      SelectAll(lines[..n], kept[..n]);
      assert lines == lines[..n] + [lines[n]];
    }
  }

  lemma {:induction false} RunDrops(t: Tty, es: seq<Event>)
    requires Inv(t) && (t.dropped > 0 ==> Newlines(t.received) > 8)
    ensures Run(t, es).dropped > 0 ==> Newlines(Run(t, es).received) > 8
    decreases |es|
  {
    if es != [] {
      match es[0] {
        case Receive(ch) =>
          ReceivedKeeps(t, ch);
          DropStep(t, ch);
        case ReadLine => PoppedKeeps(t);
      }
      RunDrops(Next(t, es[0]), es[1..]);
    }
  }

  lemma DropStep(t: Tty, ch: int)
    requires Inv(t) && (t.dropped > 0 ==> Newlines(t.received) > 8)
    ensures Received(t, ch).dropped > 0 ==> Newlines(Received(t, ch).received) > 8
  {
    Accounted(t);
    var all := t.received + [ch];
    assert all[..|all| - 1] == t.received;
  }
}

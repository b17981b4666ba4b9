/** The text screen that the framebuffer console shows: a grid of cells and a cursor
    (drivers/video/fbdev/core/fbcon.c). */
module TextScreen {
  import opened Division

  const BS := 8
  const LF := 10
  const CR := 13

  datatype Cell = Blank | Glyph(ch: int)

  datatype Screen = Screen(rows: nat, columns: nat, cells: seq<seq<Cell>>, x: nat, y: nat)

  /** The grid has its size and the cursor is inside it. */
  ghost predicate Valid(s: Screen) {
    && s.x < s.columns && s.y < s.rows
    && |s.cells| == s.rows
    && forall r :: 0 <= r < s.rows ==> |s.cells[r]| == s.columns
  }

  function BlankRow(columns: nat): (r: seq<Cell>)
    ensures |r| == columns && forall c :: 0 <= c < columns ==> r[c] == Blank
  {
    seq(columns, _ => Blank)
  }

  function Empty(rows: nat, columns: nat): Screen {
    Screen(rows, columns, seq(rows, _ => BlankRow(columns)), 0, 0)
  }

  function SetCell(s: Screen, row: nat, column: nat, cell: Cell): Screen
    requires row < |s.cells| && column < |s.cells[row]|
  {
    s.(cells := s.cells[row := s.cells[row][column := cell]])
  }

  /** scroll_up(): every line moves up by one and the last becomes blank. */
  function Scroll(s: Screen): Screen
    requires s.cells != []
  {
    s.(cells := s.cells[1..] + [BlankRow(s.columns)])
  }

  function NewLine(s: Screen): Screen
    requires s.cells != []
  {
    if s.y + 1 < s.rows then s.(x := 0, y := s.y + 1) else Scroll(s).(x := 0)
  }

  /** fbcon_putc() on a screen with room for text. */
  function Put(s: Screen, ch: int): (r: Screen)
    requires Valid(s)
    ensures Valid(r) && r.rows == s.rows && r.columns == s.columns
  {
    if ch == CR then s
    else if ch == BS then
      if s.x == 0 then s else SetCell(s, s.y, s.x - 1, Blank).(x := s.x - 1)
    else if ch == LF then NewLine(s)
    else
      var t := SetCell(s, s.y, s.x, Glyph(ch));
      if s.x + 1 >= s.columns then NewLine(t) else t.(x := s.x + 1)
  }

  /** fbcon_write(). */
  function Write(s: Screen, text: seq<int>): (r: Screen)
    requires Valid(s)
    ensures Valid(r) && r.rows == s.rows && r.columns == s.columns
    decreases |text|
  {
    if text == [] then s else Put(Write(s, text[..|text| - 1]), text[|text| - 1])
  }

  predicate Printable(ch: int) { ch != BS && ch != LF && ch != CR }

  /** A screen of one column, the cursor on its last line and every line above showing `ch`: printing
      it once more scrolls, and nobody sees that. */
  ghost predicate AllShow(s: Screen, ch: int) {
    s.columns == 1 && s.y + 1 == s.rows && forall r :: 0 <= r < |s.cells| - 1 ==> s.cells[r] == [Glyph(ch)]
  }

  /** Backspace takes a printed character back, leaving its cell blank, exactly when printing it did
      not wrap the line, except on one column that shows nothing else. */
  lemma BackspaceUndoes(s: Screen, ch: int)
    requires Valid(s) && Printable(ch)
    ensures Put(Put(s, ch), BS) == SetCell(s, s.y, s.x, Blank) <==> s.x + 1 < s.columns || AllShow(s, ch)
  {
    var t := Put(s, ch);
    if s.x + 1 < s.columns {
      assert t.cells[s.y][s.x := Blank] == s.cells[s.y][s.x := Blank];
      assert t.cells[s.y := t.cells[s.y][s.x := Blank]] == s.cells[s.y := s.cells[s.y][s.x := Blank]];
    } else {
      assert t.x == 0 && Put(t, BS) == t;
      if s.columns == 1 && s.y + 1 == s.rows {
        ScrollsOntoItself(s, ch);
      }
    }
  }

  /** On the last line of one column the screen scrolls onto itself exactly if all lines above show
      the character. */
  lemma ScrollsOntoItself(s: Screen, ch: int)
    requires Valid(s) && Printable(ch) && s.columns == 1 && s.y + 1 == s.rows
    ensures Put(s, ch).cells == SetCell(s, s.y, s.x, Blank).cells <==> AllShow(s, ch)
  {
    var n := s.rows - 1;
    var u, v := Put(s, ch).cells, SetCell(s, s.y, s.x, Blank).cells;
    assert BlankRow(1) == [Blank] && s.cells[n][0 := Blank] == [Blank] && s.cells[n][0 := Glyph(ch)] == [Glyph(ch)];
    if AllShow(s, ch) {
      assert forall r :: 0 <= r < n ==> u[r] == [Glyph(ch)];
      assert u == v;
    }
    if u == v {
      forall r | 0 <= r < n
        ensures Repeats(s.cells, n, [Glyph(ch)], r)
      {
        assert u[r] == v[r];
      }
      forall r | 0 <= r < n
        ensures s.cells[r] == [Glyph(ch)]
      {
        AllSame(s.cells, n, [Glyph(ch)], r);
      }
    }
  }

  /** Line r of the first n is like the one after it, and the last like `row`. */
  predicate Repeats(cells: seq<seq<Cell>>, n: nat, row: seq<Cell>, r: nat)
    requires r < n <= |cells|
  {
    cells[r] == if r + 1 == n then row else cells[r + 1]
  }

  lemma {:induction false} AllSame(cells: seq<seq<Cell>>, n: nat, row: seq<Cell>, r: nat)
    requires r < n <= |cells| && forall k :: 0 <= k < n ==> Repeats(cells, n, row, k)
    ensures cells[r] == row
    decreases n - r
  {
    assert Repeats(cells, n, row, r);
    if r + 1 < n {
      AllSame(cells, n, row, r + 1);
    }
  }

  /** The last k lines are blank. */
  ghost predicate BlankBelow(s: Screen, k: nat) {
    forall r, c :: 0 <= r < |s.cells| && r >= |s.cells| - k && 0 <= c < |s.cells[r]| ==> s.cells[r][c] == Blank
  }

  function LineFeeds(n: nat): seq<int> { seq(n, _ => LF) }

  /** A screenful of line feeds from the last line clears the screen. */
  lemma {:induction false} LineFeedsClear(s: Screen, n: nat)
    requires Valid(s) && s.y + 1 == s.rows
    ensures BlankBelow(Write(s, LineFeeds(n)), n) && Write(s, LineFeeds(n)).y == s.y
    decreases n
  {
    if n > 0 {
      LineFeedsClear(s, n - 1);
      assert LineFeeds(n)[..n - 1] == LineFeeds(n - 1);
      var t := Write(s, LineFeeds(n - 1));
      var u := Put(t, LF);
      forall r, c | 0 <= r < |u.cells| && r >= |u.cells| - n && 0 <= c < |u.cells[r]|
        ensures u.cells[r][c] == Blank
      {
        if r + 1 < |u.cells| {
          assert u.cells[r] == t.cells[r + 1];
        }
      }
    }
  }

  /** Printing characters without a control among them moves the cursor as the reader would
      expect: `n` cells on, wrapping at the line's end, staying on the last line at the bottom. */
  lemma {:induction false} CursorAfter(s: Screen, text: seq<int>)
    requires Valid(s) && forall i :: 0 <= i < |text| ==> Printable(text[i])
    ensures var r := Write(s, text);
      && r.x == (s.x + |text|) % s.columns
      && r.y == Min(s.y + (s.x + |text|) / s.columns, s.rows - 1)
    decreases |text|
  {
    if text == [] {
      Small(s.x, s.columns);
    } else {
      var n := |text| - 1;
      CursorAfter(s, text[..n]);
      NextColumn(s.x + n, s.columns);
    }
  }

  function Min(a: int, b: int): int { if a < b then a else b }

  lemma Small(x: nat, n: nat)
    requires x < n
    ensures x % n == x && x / n == 0
  {
  }

  lemma NextColumn(x: nat, n: nat)
    requires n > 0
    ensures x % n + 1 < n ==> (x + 1) % n == x % n + 1 && (x + 1) / n == x / n
    ensures x % n + 1 == n ==> (x + 1) % n == 0 && (x + 1) / n == x / n + 1
  {
    var q, r := x / n, x % n;
    assert x == q * n + r;
    if r + 1 < n {
      Unique(x + 1, n, q, r + 1);
    } else {
      assert x + 1 == (q + 1) * n + 0;
      Unique(x + 1, n, q + 1, 0);
    }
  }

  // ----- what a text looks like -----

  /** All lines written since the screen was empty, the one being written last: a roll of paper that
      never scrolls. What another character does to it. */
  function Typed(ls: seq<seq<int>>, ch: int, columns: nat): seq<seq<int>>
    requires ls != []
  {
    var n := |ls| - 1;
    var last := ls[n];
    if ch == CR then ls
    else if ch == BS then if last == [] then ls else ls[..n] + [last[..|last| - 1]]
    else if ch == LF then ls + [[]]
    else if |last| + 1 >= columns then ls[..n] + [last + [ch], []]
    else ls[..n] + [last + [ch]]
  }

  function Roll(text: seq<int>, columns: nat): (ls: seq<seq<int>>)
    ensures ls != []
    decreases |text|
  {
    if text == [] then [[]] else Typed(Roll(text[..|text| - 1], columns), text[|text| - 1], columns)
  }

  function CellOf(line: seq<int>, column: nat): Cell {
    if column < |line| then Glyph(line[column]) else Blank
  }

  /** Where the screen begins on the roll: it shows its last lines. */
  function Top(s: Screen, ls: seq<seq<int>>): nat {
    if |ls| <= s.rows then 0 else |ls| - s.rows
  }

  function LineAt(ls: seq<seq<int>>, k: nat): seq<int> {
    if k < |ls| then ls[k] else []
  }

  ghost predicate RowShows(row: seq<Cell>, line: seq<int>) {
    forall c :: 0 <= c < |row| ==> row[c] == CellOf(line, c)
  }

  /** The screen shows the last lines of the roll, one per row from column 0 with blanks after, and
      the cursor follows the last character. */
  ghost predicate Displays(s: Screen, ls: seq<seq<int>>) {
    && Valid(s) && ls != []
    && s.x == |ls[|ls| - 1]| && s.y + Top(s, ls) == |ls| - 1
    && forall r :: 0 <= r < s.rows ==> RowShows(s.cells[r], LineAt(ls, Top(s, ls) + r))
  }

  lemma CellShown(s: Screen, ls: seq<seq<int>>, row: nat, column: nat)
    requires Displays(s, ls) && row < s.rows && column < s.columns
    ensures s.cells[row][column] == CellOf(LineAt(ls, Top(s, ls) + row), column)
  {
    assert RowShows(s.cells[row], LineAt(ls, Top(s, ls) + row));
  }

  lemma EmptyDisplays(rows: nat, columns: nat)
    requires rows > 0 && columns > 0
    ensures Displays(Empty(rows, columns), [[]])
  {
  }

  /** A new line: the roll grows, and the screen moves down or along with it. */
  lemma NewLineDisplays(s: Screen, ls: seq<seq<int>>, t: Screen, ls': seq<seq<int>>)
    requires Valid(s) && ls != [] && s.y + Top(s, ls) == |ls| - 1 && t == NewLine(s) && ls' == ls + [[]]
    requires forall r :: 0 <= r < s.rows ==> RowShows(s.cells[r], LineAt(ls, Top(s, ls) + r))
    ensures Displays(t, ls')
  {
    forall r | 0 <= r < t.rows
      ensures RowShows(t.cells[r], LineAt(ls', Top(t, ls') + r))
    {
      if s.y + 1 < s.rows {
        assert RowShows(s.cells[r], LineAt(ls, Top(s, ls) + r));
      } else if r + 1 < s.rows {
        assert t.cells[r] == s.cells[r + 1];
        assert RowShows(s.cells[r + 1], LineAt(ls, Top(s, ls) + r + 1));
      }
    }
  }

  /** Another text in the last line: only the cursor's row changes. */
  lemma LastLineDisplays(s: Screen, ls: seq<seq<int>>, t: Screen, ls': seq<seq<int>>, line: seq<int>)
    requires Displays(s, ls) && ls' == ls[..|ls| - 1] + [line]
    requires Valid(t) && t.rows == s.rows && t.columns == s.columns && t.y == s.y
    requires RowShows(t.cells[s.y], line) && forall r :: 0 <= r < s.rows && r != s.y ==> t.cells[r] == s.cells[r]
    ensures t.y + Top(t, ls') == |ls'| - 1
    ensures forall r :: 0 <= r < t.rows ==> RowShows(t.cells[r], LineAt(ls', Top(t, ls') + r))
  {
    forall r | 0 <= r < t.rows
      ensures RowShows(t.cells[r], LineAt(ls', Top(t, ls') + r))
    {
      assert RowShows(s.cells[r], LineAt(ls, Top(s, ls) + r));
    }
  }

  lemma RowGrows(row: seq<Cell>, line: seq<int>, ch: int)
    requires RowShows(row, line) && |line| < |row|
    ensures RowShows(row[|line| := Glyph(ch)], line + [ch])
  {
  }

  lemma RowShrinks(row: seq<Cell>, line: seq<int>)
    requires RowShows(row, line) && 0 < |line| <= |row|
    ensures RowShows(row[|line| - 1 := Blank], line[..|line| - 1])
  {
  }

  /** The cursor is at the end of the last line. */
  lemma CursorLine(s: Screen, ls: seq<seq<int>>)
    requires Displays(s, ls)
    ensures RowShows(s.cells[s.y], ls[|ls| - 1])
  {
    assert RowShows(s.cells[s.y], LineAt(ls, Top(s, ls) + s.y));
  }

  lemma BackDisplays(s: Screen, ls: seq<seq<int>>)
    requires Displays(s, ls) && s.x > 0
    ensures Displays(Put(s, BS), Typed(ls, BS, s.columns))
  {
    var last := ls[|ls| - 1];
    CursorLine(s, ls);
    RowShrinks(s.cells[s.y], last);
    LastLineDisplays(s, ls, Put(s, BS), Typed(ls, BS, s.columns), last[..|last| - 1]);
  }

  lemma PrintDisplays(s: Screen, ls: seq<seq<int>>, ch: int)
    requires Displays(s, ls) && Printable(ch)
    ensures Displays(Put(s, ch), Typed(ls, ch, s.columns))
  {
    var n := |ls| - 1;
    var last := ls[n];
    CursorLine(s, ls);
    RowGrows(s.cells[s.y], last, ch);
    var t := SetCell(s, s.y, s.x, Glyph(ch));
    var ls' := ls[..n] + [last + [ch]];
    LastLineDisplays(s, ls, t, ls', last + [ch]);
    if s.x + 1 >= s.columns {
      assert Put(s, ch) == NewLine(t) && Typed(ls, ch, s.columns) == ls' + [[]];
      NewLineDisplays(t, ls', NewLine(t), ls' + [[]]);
    } else {
      assert Put(s, ch) == t.(x := s.x + 1);
      CursorMoves(t, ls', s.x + 1);
    }
  }

  /** Where the cursor stands in its row does not change what is shown. */
  lemma CursorMoves(s: Screen, ls: seq<seq<int>>, x: nat)
    requires Valid(s) && ls != [] && x < s.columns && x == |ls[|ls| - 1]| && s.y + Top(s, ls) == |ls| - 1
    requires forall r :: 0 <= r < s.rows ==> RowShows(s.cells[r], LineAt(ls, Top(s, ls) + r))
    ensures Displays(s.(x := x), ls)
  {
    forall r | 0 <= r < s.rows
      ensures RowShows(s.(x := x).cells[r], LineAt(ls, Top(s.(x := x), ls) + r))
    {
      assert RowShows(s.cells[r], LineAt(ls, Top(s, ls) + r));
    }
  }

  lemma PutDisplays(s: Screen, ls: seq<seq<int>>, ch: int)
    requires Displays(s, ls)
    ensures Displays(Put(s, ch), Typed(ls, ch, s.columns))
  {
    if ch == LF {
      NewLineDisplays(s, ls, NewLine(s), ls + [[]]);
    } else if ch == BS && s.x > 0 {
      BackDisplays(s, ls);
    } else if Printable(ch) {
      PrintDisplays(s, ls, ch);
    }
  }

  /** Whatever is written, the screen shows the end of the roll. */
  lemma {:induction false} WriteDisplays(rows: nat, columns: nat, text: seq<int>)
    requires rows > 0 && columns > 0
    ensures Displays(Write(Empty(rows, columns), text), Roll(text, columns))
    decreases |text|
  {
    if text == [] {
      EmptyDisplays(rows, columns);
    } else {
      WriteDisplays(rows, columns, text[..|text| - 1]);
      PutDisplays(Write(Empty(rows, columns), text[..|text| - 1]), Roll(text[..|text| - 1], columns), text[|text| - 1]);
    }
  }

  /** The length of the first line of a text: up to a line feed, and no more than the columns. */
  function LineLength(text: seq<int>, columns: nat): (n: nat)
    ensures n <= columns && n <= |text|
    ensures forall i :: 0 <= i < n ==> text[i] != LF
    ensures n < columns && n < |text| ==> text[n] == LF
    decreases columns
  {
    if columns == 0 || text == [] || text[0] == LF then 0
    else
      var r := LineLength(text[1..], columns - 1);
      assert forall i :: 1 <= i < |text| ==> text[i] == text[1..][i - 1];
      r + 1
  }

  /** A text cut at its line feeds and after every `columns` characters. */
  function Lines(text: seq<int>, columns: nat): (ls: seq<seq<int>>)
    requires columns > 0
    ensures ls != []
    decreases |text|
  {
    var n := LineLength(text, columns);
    if n == columns then [text[..n]] + Lines(text[n..], columns)
    else if n == |text| then [text]
    else [text[..n]] + Lines(text[n + 1..], columns)
  }

  lemma LineLengthIs(text: seq<int>, columns: nat, n: nat)
    requires n <= columns && n <= |text| && (forall i :: 0 <= i < n ==> text[i] != LF)
    requires n < columns && n < |text| ==> text[n] == LF
    ensures LineLength(text, columns) == n
  {
  }

  /** What follows the first line, when the text goes on after it. */
  function Rest(text: seq<int>, n: nat, columns: nat): seq<int>
    requires n <= |text| && (n == columns || n < |text|)
  {
    if n == columns then text[n..] else text[n + 1..]
  }

  lemma LinesGoOn(text: seq<int>, columns: nat, n: nat)
    requires columns > 0 && n == LineLength(text, columns) && (n == columns || n < |text|)
    ensures Lines(text, columns) == [text[..n]] + Lines(Rest(text, n, columns), columns)
  {
  }

  lemma LinesEnd(text: seq<int>, columns: nat)
    requires columns > 0 && |text| == LineLength(text, columns) < columns
    ensures Lines(text, columns) == [text]
  {
  }

  /** The first line of a text that goes on after it does not change. */
  lemma FirstLineStays(text: seq<int>, ch: int, columns: nat, n: nat)
    requires columns > 0 && n == LineLength(text, columns) && (n == columns || n < |text|)
    ensures var more := text + [ch];
      && LineLength(more, columns) == n && more[..n] == text[..n] && (n == columns || n < |more|)
      && Rest(more, n, columns) == Rest(text, n, columns) + [ch]
  {
    LineLengthIs(text + [ch], columns, n);
  }

  /** One more character in the last line. */
  lemma LastLineMore(text: seq<int>, ch: int, columns: nat)
    requires columns > 0 && |text| == LineLength(text, columns) < columns && (Printable(ch) || ch == LF)
    ensures Lines(text + [ch], columns) == Typed([text], ch, columns)
  {
    assert [text][..0] == [] && [text][0] == text;
    if ch == LF {
      LastLineEnds(text, columns);
    } else {
      LastLineGrows(text, ch, columns);
    }
  }

  lemma LastLineEnds(text: seq<int>, columns: nat)
    requires columns > 0 && |text| == LineLength(text, columns) < columns
    ensures Lines(text + [LF], columns) == [text] + [[]]
  {
    var n, more := |text|, text + [LF];
    LineLengthIs(more, columns, n);
    LinesGoOn(more, columns, n);
    assert more[..n] == text && Rest(more, n, columns) == [];
    LinesEnd([], columns);
  }

  lemma LastLineGrows(text: seq<int>, ch: int, columns: nat)
    requires columns > 0 && |text| == LineLength(text, columns) < columns && ch != LF
    ensures Lines(text + [ch], columns) == if |text| + 1 == columns then [text + [ch], []] else [text + [ch]]
  {
    var n, more := |text|, text + [ch];
    LineLengthIs(more, columns, n + 1);
    if n + 1 == columns {
      LinesGoOn(more, columns, n + 1);
      assert more[..n + 1] == more && Rest(more, n + 1, columns) == [];
      LinesEnd([], columns);
    } else {
      LinesEnd(more, columns);
    }
  }

  /** One more character of text is one more character on the roll. */
  lemma {:induction false} LinesMore(text: seq<int>, ch: int, columns: nat)
    requires columns > 0 && (Printable(ch) || ch == LF)
    ensures Lines(text + [ch], columns) == Typed(Lines(text, columns), ch, columns)
    decreases |text|
  {
    var n := LineLength(text, columns);
    if n == columns || n < |text| {
      var rest := Rest(text, n, columns);
      FirstLineStays(text, ch, columns, n);
      LinesMore(rest, ch, columns);
      LinesGoOn(text, columns, n);
      LinesGoOn(text + [ch], columns, n);
      TypedBelow(text[..n], Lines(rest, columns), ch, columns);
    } else {
      LinesEnd(text, columns);
      LastLineMore(text, ch, columns);
    }
  }

  /** Lines above the last are finished. */
  lemma TypedBelow(line: seq<int>, ls: seq<seq<int>>, ch: int, columns: nat)
    requires ls != [] && (Printable(ch) || ch == LF)
    ensures Typed([line] + ls, ch, columns) == [line] + Typed(ls, ch, columns)
  {
    var all := [line] + ls;
    assert all[..|all| - 1] == [line] + ls[..|ls| - 1] && all[|all| - 1] == ls[|ls| - 1];
  }

  /** Text without backspaces fills the roll with its lines. */
  lemma {:induction false} LinesAreRoll(text: seq<int>, columns: nat)
    requires columns > 0 && forall i :: 0 <= i < |text| ==> Printable(text[i]) || text[i] == LF
    ensures Roll(text, columns) == Lines(text, columns)
    decreases |text|
  {
    if text == [] {
      LinesEnd([], columns);
    } else {
      var before, ch := text[..|text| - 1], text[|text| - 1];
      LinesAreRoll(before, columns);
      LinesMore(before, ch, columns);
      assert before + [ch] == text && Roll(text, columns) == Typed(Roll(before, columns), ch, columns);
    }
  }

  /** The screen shows the last lines of the text written to it. */
  lemma WriteShowsLines(rows: nat, columns: nat, text: seq<int>)
    requires rows > 0 && columns > 0 && forall i :: 0 <= i < |text| ==> Printable(text[i]) || text[i] == LF
    ensures Displays(Write(Empty(rows, columns), text), Lines(text, columns))
  {
    WriteDisplays(rows, columns, text);
    LinesAreRoll(text, columns);
  }

  /** A carriage return changes nothing, nor does a backspace at the start of a line. */
  lemma NoEffect(s: Screen)
    requires Valid(s)
    ensures Put(s, CR) == s && (s.x == 0 ==> Put(s, BS) == s)
  {
  }
}

/** The framebuffer console as written: nested loops over a linear pixel buffer
    (drivers/video/fbdev/core/fbcon.c). Its text area always shows a TextScreen. */
module Fbcon {
  import opened Errno
  import opened Division
  import T = TextScreen

  const CELL_WIDTH := 6
  const CELL_HEIGHT := 9
  const FONT_WIDTH := 5
  const FONT_HEIGHT := 7

  /** Which pixels of a glyph are lit: character, row, column. */
  type Font = (int, int, int) -> bool

  /** pixel_color(): the two formats swap red and blue. */
  function PixelColor(rgb: bool, red: int, green: int, blue: int): int {
    if rgb then red + 0x100 * green + 0x1_0000 * blue else blue + 0x100 * green + 0x1_0000 * red
  }

  const BACKGROUND := 0
  const FOREGROUND := 0xdc_dcdc

  lemma GreysAgree(rgb: bool)
    ensures PixelColor(rgb, 0, 0, 0) == BACKGROUND && PixelColor(rgb, 220, 220, 220) == FOREGROUND
  {
  }

  /** The colour of a pixel of a cell, by its offset in the cell. */
  function CellColor(font: Font, cell: T.Cell, dx: int, dy: int): int {
    if cell.Glyph? && 1 <= dy <= FONT_HEIGHT && 0 <= dx < FONT_WIDTH && font(cell.ch, dy - 1, dx) then FOREGROUND else BACKGROUND
  }

  predicate InBox(y: int, x: int, top: int, bottom: int, left: int, right: int) {
    top <= y < bottom && left <= x < right
  }

  /** Pixel (y, x) belongs to cell (row, column). */
  predicate InCell(y: int, x: int, row: int, column: int) {
    InBox(y, x, row * CELL_HEIGHT, row * CELL_HEIGHT + CELL_HEIGHT, column * CELL_WIDTH, column * CELL_WIDTH + CELL_WIDTH)
  }

  lemma Distinct(y: int, x: int, v: int, u: int, stride: int)
    requires 0 <= x < stride && 0 <= u < stride && (y, x) != (v, u)
    ensures y * stride + x != v * stride + u
  {
    Bounded(y - v, stride);
    assert y * stride + x - (v * stride + u) == (y - v) * stride + (x - u);
  }

  lemma Inside(y: int, x: int, height: int, stride: int)
    requires 0 <= y < height && 0 <= x < stride
    ensures 0 <= y * stride + x < height * stride
  {
    Bounded(height - y, stride);
    assert height * stride == y * stride + (height - y) * stride;
    if y > 0 {
      Bounded(y, stride);
    }
  }

  /** Line y, column x of a buffer. */
  function PixelOf(buffer: array<int>, y: int, x: int, height: int, stride: int): int
    reads buffer
    requires buffer.Length == height * stride && 0 <= y < height && 0 <= x < stride
  {
    Inside(y, x, height, stride);
    buffer[y * stride + x]
  }

  ghost predicate ShowPixels(k: int) { true }

  class Console {
    var base: array<int>
    var width: int
    var height: int
    var stride: int
    var rgb: bool
    var columns: nat
    var rows: nat
    var cursorX: nat
    var cursorY: nat
    const font: Font
    ghost var cells: seq<seq<T.Cell>>

    /** No framebuffer yet. */
    constructor (font: Font)
      ensures this.font == font && rows == 0 && columns == 0 && fresh(base)
    {
      this.font := font;
      base := new int[0];
      width, height, stride, rgb, columns, rows := 0, 0, 0, true, 0, 0;
      cursorX, cursorY, cells := 0, 0, [];
    }

    predicate Framed()
      reads `base, `width, `height, `stride, `rows, `columns
    {
      && width >= 0 && height >= 0 && stride >= width
      && base.Length == height * stride
      && rows * CELL_HEIGHT <= height && columns * CELL_WIDTH <= width
    }

    predicate InFrame(y: int, x: int)
      reads `height, `stride
    {
      0 <= y < height && 0 <= x < stride
    }

    /** The pixel in line y at column x of the buffer, padding included. */
    function Pixel(y: int, x: int): int
      reads `base, `width, `height, `stride, `rows, `columns, base
      requires Framed() && InFrame(y, x)
    {
      PixelOf(base, y, x, height, stride)
    }

    method SetPixel(x: int, y: int, color: int)
      requires Framed() && InFrame(y, x)
      modifies base
      ensures forall v, u :: InFrame(v, u) ==> Pixel(v, u) == if (v, u) == (y, x) then color else old(Pixel(v, u))
    {
      Inside(y, x, height, stride);
      base[y * stride + x] := color;
      forall v, u | InFrame(v, u)
        ensures Pixel(v, u) == if (v, u) == (y, x) then color else old(Pixel(v, u))
      {
        Inside(v, u, height, stride);
        if (v, u) != (y, x) {
          Distinct(y, x, v, u, stride);
        }
      }
    }

    /** draw_pixel(): outside the visible area nothing happens. */
    method DrawPixel(x: int, y: int, color: int)
      requires Framed() && x >= 0 && y >= 0
      modifies base
      ensures forall v, u :: InFrame(v, u) ==> Pixel(v, u) == if (v, u) == (y, x) && x < width then color else old(Pixel(v, u))
    {
      if x >= width || y >= height {
        return;
      }
      SetPixel(x, y, color);
    }

    /** Fill the pixels of line y from `left` to `right`. */
    method FillLine(y: int, left: int, right: int, color: int)
      requires Framed() && 0 <= y < height && 0 <= left <= right <= width
      modifies base
      ensures forall v, u :: InFrame(v, u) ==> Pixel(v, u) == if InBox(v, u, y, y + 1, left, right) then color else old(Pixel(v, u))
    {
      var x := left;
      while x < right
        invariant left <= x <= right
        invariant forall v, u :: InFrame(v, u) ==> Pixel(v, u) == if InBox(v, u, y, y + 1, left, x) then color else old(Pixel(v, u))
      {
        DrawPixel(x, y, color);
        x := x + 1;
      }
    }

    /** The double loop of clear_cell() and clear_screen(). */
    method FillBox(top: int, bottom: int, left: int, right: int, color: int)
      requires Framed() && 0 <= top <= bottom <= height && 0 <= left <= right <= width
      modifies base
      ensures forall v, u :: InFrame(v, u) ==> Pixel(v, u) == if InBox(v, u, top, bottom, left, right) then color else old(Pixel(v, u))
    {
      var y := top;
      while y < bottom
        invariant top <= y <= bottom
        invariant forall v, u :: InFrame(v, u) ==> Pixel(v, u) == if InBox(v, u, top, y, left, right) then color else old(Pixel(v, u))
      {
        FillLine(y, left, right, color);
        y := y + 1;
      }
    }

    /** clear_cell(). */
    method ClearCell(column: int, row: int)
      requires Framed() && 0 <= row < rows && 0 <= column < columns
      modifies base
      ensures forall v, u :: InFrame(v, u) ==> Pixel(v, u) == if InCell(v, u, row, column) then BACKGROUND else old(Pixel(v, u))
    {
      var x, y := column * CELL_WIDTH, row * CELL_HEIGHT;
      FillBox(y, y + CELL_HEIGHT, x, x + CELL_WIDTH, PixelColor(rgb, 0, 0, 0));
    }

    /** draw_char(): clear the cell, then light the pixels of the glyph. */
    method DrawChar(ch: int, column: int, row: int)
      requires Framed() && 0 <= row < rows && 0 <= column < columns
      modifies base
      ensures forall v, u :: InFrame(v, u) ==>
        Pixel(v, u) == if InCell(v, u, row, column) then CellColor(font, T.Glyph(ch), u - column * CELL_WIDTH, v - row * CELL_HEIGHT) else old(Pixel(v, u))
    {
      ClearCell(column, row);
      var startX, startY := column * CELL_WIDTH, row * CELL_HEIGHT + 1;
      var glyphRow := 0;
      while glyphRow < FONT_HEIGHT
        invariant 0 <= glyphRow <= FONT_HEIGHT
        invariant forall v, u :: InFrame(v, u) ==>
          Pixel(v, u) == if InCell(v, u, row, column) then (if v < startY + glyphRow then CellColor(font, T.Glyph(ch), u - startX, v - startY + 1) else BACKGROUND) else old(Pixel(v, u))
      {
        DrawGlyphLine(ch, column, row, glyphRow);
        glyphRow := glyphRow + 1;
      }
    }

    /** One line of a glyph. */
    method DrawGlyphLine(ch: int, column: int, row: int, glyphRow: int)
      requires Framed() && 0 <= row < rows && 0 <= column < columns && 0 <= glyphRow < FONT_HEIGHT
      modifies base
      ensures forall v, u :: InFrame(v, u) ==>
        Pixel(v, u) == if v == row * CELL_HEIGHT + 1 + glyphRow && Lit(ch, column, glyphRow, u, FONT_WIDTH) then FOREGROUND else old(Pixel(v, u))
    {
      var startX, startY := column * CELL_WIDTH, row * CELL_HEIGHT + 1;
      var glyphCol := 0;
      while glyphCol < FONT_WIDTH
        invariant 0 <= glyphCol <= FONT_WIDTH
        invariant forall v, u :: InFrame(v, u) ==>
          Pixel(v, u) == if v == startY + glyphRow && Lit(ch, column, glyphRow, u, glyphCol) then FOREGROUND else old(Pixel(v, u))
      {
        if font(ch, glyphRow, glyphCol) {
          DrawPixel(startX + glyphCol, startY + glyphRow, PixelColor(rgb, 220, 220, 220));
        }
        glyphCol := glyphCol + 1;
      }
    }

    /** The glyph line lights buffer column u, looking at its first n columns. */
    predicate Lit(ch: int, column: int, glyphRow: int, u: int, n: int) {
      var dx := u - column * CELL_WIDTH;
      0 <= dx < n && font(ch, glyphRow, dx)
    }

    /** clear_text_row(). */
    method ClearTextRow(row: int)
      requires Framed() && 0 <= row < rows
      modifies base
      ensures forall v, u :: InFrame(v, u) ==>
        Pixel(v, u) == if InBox(v, u, row * CELL_HEIGHT, row * CELL_HEIGHT + CELL_HEIGHT, 0, columns * CELL_WIDTH) then BACKGROUND else old(Pixel(v, u))
    {
      var column := 0;
      while column < columns
        invariant 0 <= column <= columns
        invariant forall v, u :: InFrame(v, u) ==>
          Pixel(v, u) == if InBox(v, u, row * CELL_HEIGHT, row * CELL_HEIGHT + CELL_HEIGHT, 0, column * CELL_WIDTH) then BACKGROUND else old(Pixel(v, u))
      {
        ClearCell(column, row);
        column := column + 1;
      }
    }

    /** One line of scroll_up(): copy it one text line up. */
    method CopyLine(y: int)
      requires Framed() && CELL_HEIGHT <= y < rows * CELL_HEIGHT
      modifies base
      ensures forall v, u :: InFrame(v, u) ==>
        Pixel(v, u) == if v == y - CELL_HEIGHT && u < columns * CELL_WIDTH then old(Pixel(y, u)) else old(Pixel(v, u))
    {
      var x := 0;
      while x < columns * CELL_WIDTH
        invariant 0 <= x <= columns * CELL_WIDTH
        invariant forall v, u :: InFrame(v, u) ==>
          Pixel(v, u) == if v == y - CELL_HEIGHT && u < x then old(Pixel(y, u)) else old(Pixel(v, u))
      {
        SetPixel(x, y - CELL_HEIGHT, Pixel(y, x));
        x := x + 1;
      }
    }

    /** The copying loops of scroll_up(). */
    method CopyLines()
      requires Framed() && rows > 0
      modifies base
      ensures forall v, u :: InFrame(v, u) ==>
        Pixel(v, u) == if v < rows * CELL_HEIGHT - CELL_HEIGHT && u < columns * CELL_WIDTH then old(Pixel(v + CELL_HEIGHT, u)) else old(Pixel(v, u))
    {
      var y := CELL_HEIGHT;
      while y < rows * CELL_HEIGHT
        invariant CELL_HEIGHT <= y <= rows * CELL_HEIGHT
        invariant forall v, u :: InFrame(v, u) ==>
          Pixel(v, u) == if v < y - CELL_HEIGHT && u < columns * CELL_WIDTH then old(Pixel(v + CELL_HEIGHT, u)) else old(Pixel(v, u))
      {
        CopyLine(y);
        y := y + 1;
      }
    }

    // ----- the screen shown -----

    ghost function Screen(): T.Screen
      reads `rows, `columns, `cells, `cursorX, `cursorY
    {
      T.Screen(rows, columns, cells, cursorX, cursorY)
    }

    predicate InText(y: int, x: int)
      reads `rows, `columns
    {
      0 <= y < rows * CELL_HEIGHT && 0 <= x < columns * CELL_WIDTH
    }

    /** The text area is the rendering of the grid, and the cursor is inside it. */
    ghost predicate Shows()
      reads `base, `width, `height, `stride, `rows, `columns, base, `cells, `cursorX, `cursorY
    {
      GridShown() && cursorX < columns
    }

    ghost predicate GridShown()
      reads `base, `width, `height, `stride, `rows, `columns, base, `cells, `cursorX, `cursorY
    {
      Framed() && T.Valid(Screen().(x := 0)) && Painted()
    }

    /** Kept folded: `assert ShowPixels(0)` opens it. */
    ghost predicate Painted()
      reads `base, `width, `height, `stride, `rows, `columns, base, `cells
      requires Framed()
    {
      forall k {:trigger ShowPixels(k)} :: ShowPixels(k) ==>
        forall y, x :: InFrame(y, x) && InText(y, x) ==> Pixel(y, x) == Rendered(cells, y, x)
    }

    ghost function Rendered(cells: seq<seq<T.Cell>>, y: int, x: int): int
    {
      if 0 <= y / CELL_HEIGHT < |cells| && 0 <= x / CELL_WIDTH < |cells[y / CELL_HEIGHT]|
      then CellColor(font, cells[y / CELL_HEIGHT][x / CELL_WIDTH], x % CELL_WIDTH, y % CELL_HEIGHT)
      else BACKGROUND
    }

    /** scroll_up(). */
    method ScrollUp()
      requires GridShown()
      modifies base, this`cells
      ensures GridShown() && Screen() == T.Scroll(old(Screen()))
      ensures forall v, u :: InFrame(v, u) && !InText(v, u) ==> Pixel(v, u) == old(Pixel(v, u))
    {
      assert ShowPixels(0);
      CopyLines();
      ClearTextRow(rows - 1);
      ghost var was := cells;
      cells := cells[1..] + [T.BlankRow(columns)];
      forall y, x | InFrame(y, x) && InText(y, x)
        ensures Pixel(y, x) == Rendered(cells, y, x)
      {
        ScrolledPixel(was, y, x);
        if y < rows * CELL_HEIGHT - CELL_HEIGHT {
          assert InFrame(y + CELL_HEIGHT, x) && InText(y + CELL_HEIGHT, x);
        }
      }
    }

    /** A pixel of the scrolled grid is the one a text line below, or background at the bottom. */
    lemma ScrolledPixel(was: seq<seq<T.Cell>>, y: int, x: int)
      requires |was| == rows && InText(y, x) && forall r :: 0 <= r < rows ==> |was[r]| == columns
      ensures Rendered(was[1..] + [T.BlankRow(columns)], y, x) ==
        if y < rows * CELL_HEIGHT - CELL_HEIGHT then Rendered(was, y + CELL_HEIGHT, x) else BACKGROUND
    {
      ScrolledCell(y, x, rows, columns);
    }

    /** Show another cell where the pixels of one cell were replaced. */
    lemma CellReplaced(y: int, x: int, row: int, column: int, cell: T.Cell)
      requires T.Valid(Screen().(x := 0)) && InText(y, x) && row < rows && column < columns && 0 <= row && 0 <= column
      ensures Rendered(cells[row := cells[row][column := cell]], y, x) ==
        if InCell(y, x, row, column) then CellColor(font, cell, x - column * CELL_WIDTH, y - row * CELL_HEIGHT) else Rendered(cells, y, x)
    {
    }

    /** newline(). */
    method Newline()
      requires GridShown()
      modifies base, this`cells, this`cursorX, this`cursorY
      ensures Shows() && Screen() == T.NewLine(old(Screen()))
      ensures forall v, u :: InFrame(v, u) && !InText(v, u) ==> Pixel(v, u) == old(Pixel(v, u))
    {
      cursorX := 0;
      if cursorY + 1 < rows {
        cursorY := cursorY + 1;
        return;
      }
      ScrollUp();
      cursorY := rows - 1;
    }

    /** backspace(). */
    method Backspace()
      requires Shows()
      modifies base, this`cells, this`cursorX
      ensures Shows() && Screen() == T.Put(old(Screen()), T.BS)
      ensures forall v, u :: InFrame(v, u) && !InText(v, u) ==> Pixel(v, u) == old(Pixel(v, u))
    {
      assert ShowPixels(0);
      if cursorX == 0 {
        return;
      }
      cursorX := cursorX - 1;
      ClearCell(cursorX, cursorY);
      forall y, x | InFrame(y, x) && InText(y, x)
        ensures Pixel(y, x) == Rendered(cells[cursorY := cells[cursorY][cursorX := T.Blank]], y, x)
      {
        CellReplaced(y, x, cursorY, cursorX, T.Blank);
      }
      cells := cells[cursorY := cells[cursorY][cursorX := T.Blank]];
    }

    /** The printing half of fbcon_putc(). */
    method PrintCell(ch: int)
      requires Shows()
      modifies base, this`cells
      ensures Shows() && Screen() == T.SetCell(old(Screen()), cursorY, cursorX, T.Glyph(ch))
      ensures forall v, u :: InFrame(v, u) && !InText(v, u) ==> Pixel(v, u) == old(Pixel(v, u))
    {
      assert ShowPixels(0);
      DrawChar(ch, cursorX, cursorY);
      forall y, x | InFrame(y, x) && InText(y, x)
        ensures Pixel(y, x) == Rendered(cells[cursorY := cells[cursorY][cursorX := T.Glyph(ch)]], y, x)
      {
        CellReplaced(y, x, cursorY, cursorX, T.Glyph(ch));
      }
      cells := cells[cursorY := cells[cursorY][cursorX := T.Glyph(ch)]];
    }

    /** fbcon_putc(): nothing before a successful init, then one character. */
    method Putc(ch: int)
      requires rows != 0 && columns != 0 ==> Shows()
      modifies base, this`cells, this`cursorX, this`cursorY
      ensures rows == 0 || columns == 0 ==> Screen() == old(Screen()) && base[..] == old(base[..])
      ensures rows != 0 && columns != 0 ==>
        && Shows() && Screen() == T.Put(old(Screen()), ch)
        && forall v, u :: InFrame(v, u) && !InText(v, u) ==> Pixel(v, u) == old(Pixel(v, u))
    {
      if rows == 0 || columns == 0 {
        return;
      }
      PutReady(ch);
    }

    /** fbcon_putc() after a successful init: the screen shown becomes that of the text screen,
        and no pixel outside the text area changes. */
    method PutReady(ch: int)
      requires Shows()
      modifies base, this`cells, this`cursorX, this`cursorY
      ensures Shows() && Screen() == T.Put(old(Screen()), ch)
      ensures forall v, u :: InFrame(v, u) && !InText(v, u) ==> Pixel(v, u) == old(Pixel(v, u))
    {
      if ch == T.CR {
        return;
      }
      if ch == T.BS {
        Backspace();
        return;
      }
      if ch == T.LF {
        Newline();
        return;
      }
      PrintCell(ch);
      cursorX := cursorX + 1;
      if cursorX >= columns {
        Newline();
      }
    }

    /** fbcon_write(). */
    method Write(text: seq<int>)
      requires rows != 0 && columns != 0 ==> Shows()
      modifies base, this`cells, this`cursorX, this`cursorY
      ensures rows == 0 || columns == 0 ==> Screen() == old(Screen()) && base[..] == old(base[..])
      ensures rows != 0 && columns != 0 ==>
        && Shows() && Screen() == T.Write(old(Screen()), text)
        && forall v, u :: InFrame(v, u) && !InText(v, u) ==> Pixel(v, u) == old(Pixel(v, u))
    {
      var index := 0;
      while index < |text|
        invariant index <= |text|
        invariant rows == 0 || columns == 0 ==> Screen() == old(Screen()) && base[..] == old(base[..])
        invariant rows != 0 && columns != 0 ==>
          && Shows() && Screen() == T.Write(old(Screen()), text[..index])
          && forall v, u :: InFrame(v, u) && !InText(v, u) ==> Pixel(v, u) == old(Pixel(v, u))
      {
        Putc(text[index]);
        assert text[..index + 1][..index] == text[..index];
        index := index + 1;
      }
      assert text[..index] == text;
    }

    /** clear_screen(): an empty grid is shown, and the padding of each line is left alone. */
    method ClearScreen()
      requires Framed() && rows > 0 && columns > 0 && cursorX == 0 && cursorY == 0
      modifies base, this`cells
      ensures Shows() && Screen() == T.Empty(rows, columns)
      ensures forall v, u :: InFrame(v, u) && u >= width ==> Pixel(v, u) == old(Pixel(v, u))
    {
      FillBox(0, height, 0, width, PixelColor(rgb, 0, 0, 0));
      cells := T.Empty(rows, columns).cells;
      forall y, x
        ensures Rendered(cells, y, x) == BACKGROUND
      {
      }
    }

    /** What a cell of the screen shown looks like: cells are 6 by 9 pixels, and a glyph lights those
        of the 5 by 7 pixels below the first line that the font says. */
    lemma ShowsGlyph(row: nat, column: nat, dy: nat, dx: nat)
      requires Shows() && row < rows && column < columns && dy < 9 && dx < 6
      ensures InFrame(row * 9 + dy, column * 6 + dx)
      ensures Pixel(row * 9 + dy, column * 6 + dx) ==
        match cells[row][column]
        case Blank => 0
        case Glyph(ch) => if 1 <= dy < 8 && dx < 5 && font(ch, dy - 1, dx) then 0xdc_dcdc else 0
    {
      assert ShowPixels(0);
      Unique(row * 9 + dy, 9, row, dy);
      Unique(column * 6 + dx, 6, column, dx);
      assert InText(row * 9 + dy, column * 6 + dx);
    }

    /** After text was written to a cleared screen, the pixels are the text: the last lines of it, one
        under the other, each character drawn in its cell. */
    lemma PixelsAreText(text: seq<int>, row: nat, column: nat, dy: nat, dx: nat)
      requires Shows() && Screen() == T.Write(T.Empty(rows, columns), text)
      requires forall i :: 0 <= i < |text| ==> T.Printable(text[i]) || text[i] == T.LF
      requires row < rows && column < columns && dy < 9 && dx < 6
      ensures InFrame(row * 9 + dy, column * 6 + dx)
      ensures var ls := T.Lines(text, columns);
        var line := T.LineAt(ls, T.Top(Screen(), ls) + row);
        Pixel(row * 9 + dy, column * 6 + dx) ==
          if column < |line| && 1 <= dy < 8 && dx < 5 && font(line[column], dy - 1, dx) then 0xdc_dcdc else 0
    {
      T.WriteShowsLines(rows, columns, text);
      T.CellShown(Screen(), T.Lines(text, columns), row, column);
      ShowsGlyph(row, column, dy, dx);
    }

    /** fbcon_init() on a present framebuffer: it fails on an empty mode, and on one too small
        for a cell it fails with the old screen gone. */
    method Init(buffer: array<int>, newWidth: int, newHeight: int, newStride: int, format: int) returns (ret: int)
      requires newWidth >= 0 && newHeight >= 0 && newStride >= newWidth && buffer.Length == newHeight * newStride
      modifies this, buffer
      ensures ret == 0 || ret == -EINVAL
      ensures newWidth == 0 || newHeight == 0 || newStride == 0 || format < 0 || format > 1 ==>
        unchanged(this) && buffer[..] == old(buffer[..])
      ensures ret == 0 <==> newWidth >= CELL_WIDTH && newHeight >= CELL_HEIGHT && 0 <= format <= 1
      ensures ret == 0 ==>
        && base == buffer && width == newWidth && height == newHeight && stride == newStride && Shows() && Screen() == T.Empty(newHeight / CELL_HEIGHT, newWidth / CELL_WIDTH)
        && (forall v, u :: InFrame(v, u) && u >= width ==> Pixel(v, u) == old(PixelOf(buffer, v, u, newHeight, newStride)))
    {
      if newWidth == 0 || newHeight == 0 || newStride == 0 || format < 0 || format > 1 {
        return -EINVAL;
      }
      base, width, height, stride, rgb := buffer, newWidth, newHeight, newStride, format == 0;
      columns, rows := width / CELL_WIDTH, height / CELL_HEIGHT;
      cursorX, cursorY := 0, 0;
      if columns == 0 || rows == 0 {
        return -EINVAL;
      }
      ClearScreen();
      return 0;
    }
  }

  /** A line that is not in the last text line comes from the text line below. */
  lemma ScrolledCell(y: int, x: int, rows: nat, columns: nat)
    requires 0 <= y < rows * CELL_HEIGHT && 0 <= x < columns * CELL_WIDTH
    ensures (y + CELL_HEIGHT) / CELL_HEIGHT == y / CELL_HEIGHT + 1 && (y + CELL_HEIGHT) % CELL_HEIGHT == y % CELL_HEIGHT
    ensures y < rows * CELL_HEIGHT - CELL_HEIGHT <==> y / CELL_HEIGHT + 1 < rows
    ensures 0 <= y / CELL_HEIGHT < rows && 0 <= x / CELL_WIDTH < columns
  {
  }
}

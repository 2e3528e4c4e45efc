// The console's grid of character cells: where the cursor goes and which cells
// lie on the screen (kernel/arch/x86_64/console/console.cpp).
module Grid {
  import opened Bits
  import opened Digits
  import opened Format
  import opened Framebuffer

  // ------------------------------------------------------------- the cursor

  datatype Cursor = Cursor(x: nat, y: nat)

  // Where the cursor goes after one event, on a screen `width` pixels wide with
  // cells 8 * scale pixels wide.
  function Advance(cur: Cursor, e: Event, scale: nat, width: nat): Cursor {
    match e
    case Cleared(_) => Cursor(0, 0)
    case Glyph(c, _) =>
      if c == '\n' then Cursor(0, cur.y + 1)
      else if (cur.x + 1) * (8 * scale) >= width then Cursor(0, cur.y + 1)
      else Cursor(cur.x + 1, cur.y)
  }

  function AdvanceAll(cur: Cursor, es: seq<Event>, scale: nat, width: nat): Cursor {
    if es == [] then cur
    else Advance(AdvanceAll(cur, es[..|es| - 1], scale, width), es[|es| - 1], scale, width)
  }

  lemma AdvanceOne(cur: Cursor, es: seq<Event>, e: Event, scale: nat, width: nat)
    ensures AdvanceAll(cur, es + [e], scale, width) == Advance(AdvanceAll(cur, es, scale, width), e, scale, width)
  {
    assert (es + [e])[..|es + [e]| - 1] == es;
  }

  // Cells in a row: the width in cells, rounded up.
  function RowLength(scale: nat, width: nat): nat
    requires scale > 0
  {
    (width + 8 * scale - 1) / (8 * scale)
  }

  predicate NoBreaks(es: seq<Event>) {
    forall k :: 0 <= k < |es| ==> es[k].Glyph? && es[k].c != '\n'
  }

  // n characters from the origin fill n / C rows of C cells and n % C more.
  lemma CursorAfter(es: seq<Event>, scale: nat, width: nat)
    requires scale > 0 && width > 0 && NoBreaks(es)
    ensures RowLength(scale, width) > 0
    ensures AdvanceAll(Cursor(0, 0), es, scale, width)
         == Cursor(|es| % RowLength(scale, width), |es| / RowLength(scale, width))
  {
    TextFrom(0, es, scale, width);
    hide RowLength;
  }

  // The characters since the last newline.
  function LineLength(es: seq<Event>): nat {
    if es == [] then 0
    else
      var e := es[|es| - 1];
      if e.Glyph? && e.c == '\n' then 0 else LineLength(es[..|es| - 1]) + 1
  }

  // The rows that the finished lines take: a line of n characters takes the n / C
  // rows that it fills and one more.
  function RowsOfLines(es: seq<Event>, row: nat): nat
    requires row > 0
  {
    if es == [] then 0
    else
      var before, e := es[..|es| - 1], es[|es| - 1];
      RowsOfLines(before, row) + if e.Glyph? && e.c == '\n' then LineLength(before) / row + 1 else 0
  }

  predicate OnlyGlyphs(es: seq<Event>) {
    forall k :: 0 <= k < |es| ==> es[k].Glyph?
  }

  // The cursor after any text: the column counts the characters since the last
  // newline, the row all the rows before.
  lemma {:induction false} CursorAfterText(y: nat, es: seq<Event>, scale: nat, width: nat)
    requires scale > 0 && width > 0 && OnlyGlyphs(es)
    ensures RowLength(scale, width) > 0
    ensures AdvanceAll(Cursor(0, y), es, scale, width)
         == Wrapped(y + RowsOfLines(es, RowLength(scale, width)), LineLength(es), RowLength(scale, width))
    decreases |es|
  {
    var row := RowLength(scale, width);
    RowEnds(0, scale, width);
    hide RowLength, Advance, Wrapped;
    if es == [] {
      WrappedNone(y, row);
    } else {
      var before, e := es[..|es| - 1], es[|es| - 1];
      CursorAfterText(y, before, scale, width);
      NextWrapped(y + RowsOfLines(before, row), LineLength(before), e, scale, width);
    }
  }

  // n characters from the start of row y: n / C full rows and n % C more.
  function Wrapped(y: nat, n: nat, row: nat): Cursor
    requires row > 0
  {
    Cursor(n % row, y + n / row)
  }

  lemma WrappedNone(y: nat, row: nat)
    requires row > 0
    ensures Wrapped(y, 0, row) == Cursor(0, y)
  {
  }

  lemma NextWrapped(y: nat, n: nat, e: Event, scale: nat, width: nat)
    requires scale > 0 && width > 0 && RowLength(scale, width) > 0 && e.Glyph?
    ensures var row := RowLength(scale, width);
      Advance(Wrapped(y, n, row), e, scale, width) ==
      if e.c == '\n' then Wrapped(y + n / row + 1, 0, row) else Wrapped(y, n + 1, row)
  {
    var row := RowLength(scale, width);
    RowEnds(n % row, scale, width);
    NextInRow(n, row);
    hide RowLength;
    WrappedNone(y + n / row + 1, row);
  }

  // After a newline, or after clearing, a text starts at the left edge, wherever
  // the cursor was.
  lemma LineStarts(cur: Cursor, colours: Colours, es: seq<Event>, scale: nat, width: nat)
    requires scale > 0 && width > 0 && NoBreaks(es)
    ensures RowLength(scale, width) > 0
    ensures AdvanceAll(cur, [Glyph('\n', colours)] + es, scale, width)
         == Wrapped(cur.y + 1, |es|, RowLength(scale, width))
    ensures AdvanceAll(cur, [Cleared(colours.back)] + es, scale, width)
         == Wrapped(0, |es|, RowLength(scale, width))
  {
    hide AdvanceAll, RowLength, NoBreaks, Wrapped;
    AfterFirst(cur, Glyph('\n', colours), es, scale, width);
    AfterFirst(cur, Cleared(colours.back), es, scale, width);
    TextFrom(0, es, scale, width);
    TextFrom(cur.y + 1, es, scale, width);
  }

  lemma AfterFirst(cur: Cursor, e: Event, es: seq<Event>, scale: nat, width: nat)
    ensures AdvanceAll(cur, [e] + es, scale, width) == AdvanceAll(Advance(cur, e, scale, width), es, scale, width)
  {
    hide AdvanceAll, Advance;
    OneEvent(cur, e, scale, width);
    Advances(cur, [e], es, scale, width);
  }

  lemma OneEvent(cur: Cursor, e: Event, scale: nat, width: nat)
    ensures AdvanceAll(cur, [e], scale, width) == Advance(cur, e, scale, width)
  {
    AdvanceOne(cur, [], e, scale, width);
    assert [] + [e] == [e];
  }

  lemma TextFrom(y: nat, es: seq<Event>, scale: nat, width: nat)
    requires scale > 0 && width > 0 && NoBreaks(es)
    ensures RowLength(scale, width) > 0
    ensures AdvanceAll(Cursor(0, y), es, scale, width) == Wrapped(y, |es|, RowLength(scale, width))
  {
    CursorAfterText(y, es, scale, width);
    OneLine(es, RowLength(scale, width));
  }

  lemma {:induction false} OneLine(es: seq<Event>, row: nat)
    requires NoBreaks(es) && row > 0
    ensures LineLength(es) == |es| && RowsOfLines(es, row) == 0
  {
    if es != [] { OneLine(es[..|es| - 1], row); }
  }

  lemma {:induction false} Advances(cur: Cursor, es: seq<Event>, fs: seq<Event>, scale: nat, width: nat)
    ensures AdvanceAll(AdvanceAll(cur, es, scale, width), fs, scale, width) == AdvanceAll(cur, es + fs, scale, width)
    decreases |fs|
  {
    if fs == [] {
      assert es + fs == es;
    } else {
      var n := |fs| - 1;
      Advances(cur, es, fs[..n], scale, width);
      AdvanceOne(cur, es + fs[..n], fs[n], scale, width);
      assert es + fs == (es + fs[..n]) + [fs[n]];
    }
  }

  // The cell after x starts past the right edge exactly when x is the row's last.
  lemma RowEnds(x: nat, scale: nat, width: nat)
    requires scale > 0 && width > 0
    ensures RowLength(scale, width) > 0
    ensures (x + 1) * (8 * scale) >= width <==> x + 1 >= RowLength(scale, width)
  {
    var cell := 8 * scale;
    var row := RowLength(scale, width);
    assert width + cell - 1 == cell * row + (width + cell - 1) % cell;
    if x + 1 >= row {
      MulStepLe(cell, row, x + 1);
    } else {
      MulStepLe(cell, x + 2, row);
      assert cell * (x + 2) == cell * (x + 1) + cell;
    }
  }

  lemma NextInRow(n: nat, row: nat)
    requires row > 0
    ensures (n + 1) % row == if n % row + 1 == row then 0 else n % row + 1
    ensures (n + 1) / row == if n % row + 1 == row then n / row + 1 else n / row
  {
    var q, r := n / row, n % row;
    assert n == row * q + r;
    if r + 1 == row {
      assert n + 1 == row * (q + 1);
      ModUnique(n + 1, row, q + 1, 0);
    } else {
      ModUnique(n + 1, row, q, r + 1);
    }
  }

  // All cells of a row lie on the screen exactly when cells divide the width.
  lemma CellsFitIff(scale: nat, width: nat)
    requires scale > 0 && width > 0
    ensures (forall x :: 0 <= x < RowLength(scale, width) ==> CellEnd(x, scale) <= width) <==> width % (8 * scale) == 0
  {
    var cell, row := 8 * scale, RowLength(scale, width);
    RowEnds(0, scale, width);
    assert width + cell - 1 == cell * row + (width + cell - 1) % cell;
    if width % cell == 0 {
      var q := width / cell;
      assert width == cell * q;
      ModUnique(width + cell - 1, cell, q, cell - 1);
      forall x | 0 <= x < row ensures CellEnd(x, scale) <= width {
        MulStepLe(cell, x + 1, row);
      }
    } else {
      assert CellEnd(row - 1, scale) == cell * row;
      if cell * row <= width {
        ModUnique(width, cell, row, width - cell * row);
      }
    }
  }

  function CellEnd(x: nat, scale: nat): nat { (8 * scale) * (x + 1) }

  // An 8x8 glyph for every character.
  type Font = f: char -> seq<u8> | forall c :: |f(c)| == 8 witness (_ => [0, 0, 0, 0, 0, 0, 0, 0])

  // ------------------------------------------------------------- cells

  // Side of a character cell in pixels.
  function Side(scale: nat): (side: nat)
    ensures scale > 0 ==> side > 0
  {
    8 * scale
  }

  predicate CellFits(g: Geometry, scale: nat, cur: Cursor) {
    (cur.x + 1) * Side(scale) <= g.width && (cur.y + 1) * Side(scale) <= g.height
  }

  predicate InCell(scale: nat, cur: Cursor, u: nat, v: nat) {
    InBlock(cur.x * Side(scale), cur.y * Side(scale), Side(scale), u, v)
  }

  lemma NextEdge(k: nat, side: nat)
    ensures k * side + side == (k + 1) * side
  {
  }

  lemma SideTimes(scale: nat, k: nat)
    ensures k * Side(scale) == 8 * scale * k
  {
  }

  // A cell fits when its far corner is on the screen.
  lemma FitsInNumbers(g: Geometry, scale: nat, cur: Cursor)
    ensures CellFits(g, scale, cur) <==>
      8 * scale * cur.x + 8 * scale <= g.width && 8 * scale * cur.y + 8 * scale <= g.height
  {
    SideTimes(scale, cur.x + 1);
    SideTimes(scale, cur.y + 1);
    assert 8 * scale * (cur.x + 1) == 8 * scale * cur.x + 8 * scale;
    assert 8 * scale * (cur.y + 1) == 8 * scale * cur.y + 8 * scale;
  }

  // A pixel is in one cell only.
  lemma OneCell(scale: nat, c: Cursor, d: Cursor, u: nat, v: nat)
    requires InCell(scale, c, u, v) && InCell(scale, d, u, v)
    ensures c == d
  {
    InCellOf(c.x, Side(scale), u);
    InCellOf(d.x, Side(scale), u);
    InCellOf(c.y, Side(scale), v);
    InCellOf(d.y, Side(scale), v);
  }

  lemma InCellOf(k: nat, side: nat, u: nat)
    requires k * side <= u < k * side + side
    ensures u / side == k
  {
    ModUnique(u, side, k, u - k * side);
  }

  // ------------------------------------------------------------- events on the grid

  // Where the cursor is before event k, on a console that starts with es.
  function CursorAt(es: seq<Event>, k: nat, scale: nat, width: nat): Cursor
    requires k <= |es|
  {
    AdvanceAll(Cursor(0, 0), es[..k], scale, width)
  }

  lemma CursorStep(es: seq<Event>, k: nat, scale: nat, width: nat)
    requires k < |es|
    ensures CursorAt(es, k + 1, scale, width) == Advance(CursorAt(es, k, scale, width), es[k], scale, width)
  {
    assert es[..k + 1] == es[..k] + [es[k]];
    AdvanceOne(Cursor(0, 0), es[..k], es[k], scale, width);
  }

  predicate Earlier(c: Cursor, d: Cursor) {
    c.y < d.y || (c.y == d.y && c.x < d.x)
  }

  // No event from j up to k clears the screen.
  predicate NoClear(es: seq<Event>, j: nat, k: nat)
    requires j <= k <= |es|
  {
    forall i :: j <= i < k ==> es[i].Glyph?
  }

  // Between clearings printing never comes back to a cell.
  lemma {:induction false} CursorRises(es: seq<Event>, j: nat, k: nat, scale: nat, width: nat)
    requires j < k <= |es| && NoClear(es, j, k)
    ensures Earlier(CursorAt(es, j, scale, width), CursorAt(es, k, scale, width))
    decreases k
  {
    CursorStep(es, k - 1, scale, width);
    if j < k - 1 { CursorRises(es, j, k - 1, scale, width); }
  }

  // The event paints a cell.
  predicate Shows(e: Event) { e.Glyph? && e.c != '\n' }

  // Every character that shows has its cell on the screen.
  predicate CellsFit(g: Geometry, es: seq<Event>, scale: nat) {
    forall k :: 0 <= k < |es| && Shows(es[k]) ==> CellFits(g, scale, CursorAt(es, k, scale, g.width))
  }

  // n characters from the top left corner all have their cells on the screen
  // exactly when there are rows enough, and no cell is cut off at the right.
  lemma TextFitsIff(g: Geometry, es: seq<Event>, scale: nat)
    requires scale > 0 && g.width > 0 && NoBreaks(es)
    ensures RowLength(scale, g.width) > 0
    ensures CellsFit(g, es, scale) <==>
      (|es| <= Area(g, scale)
       && (g.width % Side(scale) == 0 || |es| < RowLength(scale, g.width)))
  {
    var row, n := RowLength(scale, g.width), |es|;
    RowEnds(0, scale, g.width);
    forall k | 0 <= k < n
      ensures CursorAt(es, k, scale, g.width) == Wrapped(0, k, row)
    {
      TextFrom(0, es[..k], scale, g.width);
    }
    hide CursorAt, CellFits, RowLength, Wrapped, Area, Side;
    GridFitsIff(g, n, scale);
  }

  // The first n cells, row by row.
  lemma GridFitsIff(g: Geometry, n: nat, scale: nat)
    requires scale > 0 && g.width > 0 && RowLength(scale, g.width) > 0
    ensures (forall k :: 0 <= k < n ==> CellFits(g, scale, Wrapped(0, k, RowLength(scale, g.width))))
       <==> (n <= Area(g, scale)
             && (g.width % Side(scale) == 0 || n < RowLength(scale, g.width)))
  {
    hide *;
    var row, area, whole := RowLength(scale, g.width), Area(g, scale), g.width % Side(scale) == 0;
    forall k | 0 <= k < n
      ensures CellFits(g, scale, Wrapped(0, k, row)) <==> InGrid(k, row, area, whole)
    {
      CellFitsIff(g, k, scale);
    }
    FirstCells(n, row, area, whole);
  }

  // How many cells the whole rows of the screen have.
  function Area(g: Geometry, scale: nat): nat
    requires scale > 0
  {
    Times(RowLength(scale, g.width), Rows(g.height, Side(scale)))
  }

  // Whole rows of cells.
  function Rows(height: nat, side: nat): nat
    requires side > 0
  {
    height / side
  }

  function Times(a: nat, b: nat): nat { a * b }

  lemma CellFitsIff(g: Geometry, k: nat, scale: nat)
    requires scale > 0 && g.width > 0 && RowLength(scale, g.width) > 0
    ensures var row := RowLength(scale, g.width);
      CellFits(g, scale, Wrapped(0, k, row)) <==> InGrid(k, row, Area(g, scale), g.width % Side(scale) == 0)
  {
    hide RowLength, Side, Times;
    var row := RowLength(scale, g.width);
    ColumnFits(g.width, scale, k % row);
    RowFits(g.height, Side(scale), k / row);
    RowBound(k, row, Rows(g.height, Side(scale)));
  }

  // Cell k of a grid with `area` cells in whole rows, whose last column is whole or not.
  predicate InGrid(k: nat, row: nat, area: nat, whole: bool)
    requires row > 0
  {
    (whole || k % row < row - 1) && k < area
  }

  lemma FirstCells(n: nat, row: nat, area: nat, whole: bool)
    requires row > 0
    ensures (forall k :: 0 <= k < n ==> InGrid(k, row, area, whole)) <==> n <= area && (whole || n < row)
  {
    if n > 0 && (forall k :: 0 <= k < n ==> InGrid(k, row, area, whole)) {
      assert InGrid(n - 1, row, area, whole);
      if n >= row {
        assert InGrid(row - 1, row, area, whole);
        ModUnique(row - 1, row, 0, row - 1);
      }
    }
    forall k | 0 <= k < n && n <= area && n < row ensures InGrid(k, row, area, whole) {
      ModUnique(k, row, 0, k);
    }
  }

  lemma ColumnFits(width: nat, scale: nat, x: nat)
    requires scale > 0 && width > 0 && x < RowLength(scale, width)
    ensures (x + 1) * Side(scale) <= width <==> width % Side(scale) == 0 || x < RowLength(scale, width) - 1
  {
    var row := RowLength(scale, width);
    RowEnds(x, scale, width);
    CellsFitIff(scale, width);
    if x == row - 1 {
      if (x + 1) * Side(scale) <= width {
        forall z | 0 <= z < row ensures CellEnd(z, scale) <= width { MulStepLe(Side(scale), z + 1, row); }
      } else {
        assert CellEnd(x, scale) > width;
      }
    }
  }

  lemma RowFits(height: nat, side: nat, y: nat)
    requires side > 0
    ensures (y + 1) * side <= height <==> y < Rows(height, side)
  {
    DivMod(height, side);
    if y < height / side { MulStepLe(side, y + 1, height / side); } else { MulStepLe(side, height / side, y); NextEdge(y, side); }
  }

  lemma RowBound(k: nat, row: nat, rows: nat)
    requires row > 0
    ensures k / row < rows <==> k < Times(row, rows)
  {
    DivMod(k, row);
    if k / row < rows { MulStepLe(row, k / row + 1, rows); NextEdge(k / row, row); } else { MulStepLe(row, rows, k / row); }
  }
}

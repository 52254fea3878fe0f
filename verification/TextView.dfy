/** The plain two-dimensional text screen that the double-buffered one stands for. */
module TextView {
  import opened Rows
  import opened Pixels

  const SIZE_LIMIT := 0x1_0000_0000_0000_0000
  const SPACE: Glyph := 0x20

  /** The text, row after row, with the cursor, the scroll region and the colours. */
  datatype View = View(
    rows: nat, cols: nat, text: seq<Cell>, x: nat, y: nat,
    top: nat, bottom: nat, scrolling: bool, fg: int, bg: int)

  ghost predicate Shaped(v: View) {
    && v.rows > 0 && v.cols > 0 && |v.text| == Times(v.rows, v.cols) < SIZE_LIMIT - 1
    && v.top < v.bottom <= v.rows
  }

  function Index(cols: nat, x: nat, y: nat): int { Times(y, cols) + x }

  /** The text with one cell replaced; positions off the screen are ignored. */
  function Put(rows: nat, cols: nat, text: seq<Cell>, x: nat, y: nat, c: Cell): (r: seq<Cell>)
    ensures |r| == |text|
  {
    if x < cols && y < rows && 0 <= Index(cols, x, y) < |text| then text[Index(cols, x, y) := c] else text
  }

  /** The cell at a position, or a filler off the screen. */
  function At(v: View, x: nat, y: nat): Cell {
    if x < v.cols && y < v.rows && 0 <= Index(v.cols, x, y) < |v.text| then v.text[Index(v.cols, x, y)]
      else Cell(SPACE, 0, 0)
  }

  function Empty(v: View): Cell { Cell(SPACE, v.fg, v.bg) }

  // ----- the operations -----

  /** Positions `lo` to `hi` move up or down by `d`; what they vacate becomes `blank`. */
  function Shifted(text: seq<Cell>, lo: int, hi: int, d: int, from: int, to: int, blank: Cell): (r: seq<Cell>)
    ensures |r| == |text|
  {
    seq(|text|, i requires 0 <= i < |text| =>
      if lo <= i < hi && 0 <= i + d < |text| then text[i + d] else if from <= i < to then blank else text[i])
  }

  function ScrollUp(v: View): View
    requires v.bottom > 0
  {
    var top, last, bottom := Times(v.top, v.cols), Times(v.bottom - 1, v.cols), Times(v.bottom, v.cols);
    v.(text := Shifted(v.text, top, last, v.cols, last, bottom, Empty(v)))
  }

  function ScrollDown(v: View): View {
    var top, next, bottom := Times(v.top, v.cols), Times(v.top + 1, v.cols), Times(v.bottom, v.cols);
    v.(text := Shifted(v.text, next, bottom, -(v.cols as int), top, next, Empty(v)))
  }

  function AllOf(n: nat, c: Cell): (r: seq<Cell>)
    ensures |r| == n && forall i :: 0 <= i < n ==> r[i] == c
  {
    seq(n, i => c)
  }

  function Clear(v: View, move: bool): View {
    v.(text := AllOf(|v.text|, Empty(v)), x := if move then 0 else v.x, y := if move then 0 else v.y)
  }

  /** A coordinate beyond the screen counts as negative when its low 32 bits do. */
  function Clamp(x: nat, size: nat): nat
    requires size > 0
  {
    if x < size then x else if x % 0x1_0000_0000 >= 0x8000_0000 then 0 else size - 1
  }

  function SetCursor(v: View, x: nat, y: nat): View
    requires v.cols > 0 && v.rows > 0
  {
    v.(x := Clamp(x, v.cols), y := Clamp(y, v.rows))
  }

  function MoveCell(v: View, newX: nat, newY: nat, oldX: nat, oldY: nat): View {
    if oldX < v.cols && oldY < v.rows then v.(text := Put(v.rows, v.cols, v.text, newX, newY, At(v, oldX, oldY))) else v
  }

  /** A line is full when the cursor has passed its last column. */
  predicate WrapsLine(v: View)
    requires v.bottom > 0
  {
    v.x >= v.cols && (v.y < v.bottom - 1 || v.scrolling)
  }

  /** The start of the next line, scrolling at the bottom margin. The row is limited by
      the number of columns, as in the original. */
  function NextLine(v: View): View
    requires v.bottom > 0 && v.cols > 0
  {
    var moved := if v.y + 1 == v.bottom then ScrollUp(v) else v.(y := v.y + 1);
    moved.(x := 0, y := if moved.y >= v.cols then v.cols - 1 else moved.y)
  }

  function PutChar(v: View, c: Glyph): View
    requires v.bottom > 0 && v.cols > 0
  {
    var at := if WrapsLine(v) then NextLine(v) else v;
    at.(text := Put(at.rows, at.cols, at.text, at.x, at.y, Cell(c, at.fg, at.bg)), x := at.x + 1)
  }

  // ----- what scrolling does, row by row -----

  /** A row starts before another exactly when it is above it. */
  lemma {:induction false} RowBefore(cols: nat, x: nat, y: nat, y': nat)
    requires x < cols
    ensures Times(y', cols) <= Index(cols, x, y) <==> y' <= y
    ensures Index(cols, x, y) < Times(y', cols) <==> y < y'
  {
    if y < y' { Ordered(y, y', cols); }
    if y' < y { Ordered(y', y, cols); }
  }

  lemma {:induction false} ScrolledRow(v: View, x: nat, y: nat)
    requires Shaped(v) && x < v.cols && y < v.rows
    ensures At(ScrollUp(v), x, y) ==
            if v.top <= y < v.bottom - 1 then At(v, x, y + 1) else if y == v.bottom - 1 then Empty(v) else At(v, x, y)
  {
    IndexInside(v.cols, v.rows, x, y);
    RowBefore(v.cols, x, y, v.top);
    RowBefore(v.cols, x, y, v.bottom - 1);
    RowBefore(v.cols, x, y, v.bottom);
    TimesMore(y, v.cols);
    if y + 1 < v.rows { IndexInside(v.cols, v.rows, x, y + 1); }
  }

  lemma {:induction false} ScrolledDownRow(v: View, x: nat, y: nat)
    requires Shaped(v) && x < v.cols && y < v.rows
    ensures At(ScrollDown(v), x, y) ==
            if v.top < y < v.bottom then At(v, x, y - 1) else if y == v.top then Empty(v) else At(v, x, y)
  {
    IndexInside(v.cols, v.rows, x, y);
    RowBefore(v.cols, x, y, v.top);
    RowBefore(v.cols, x, y, v.top + 1);
    RowBefore(v.cols, x, y, v.bottom);
    if y > 0 {
      TimesMore(y - 1, v.cols);
      IndexInside(v.cols, v.rows, x, y - 1);
    }
  }

  /** Scrolling down after scrolling up restores all but the first row of the region. */
  lemma {:induction false} UpThenDown(v: View, x: nat, y: nat)
    requires Shaped(v) && x < v.cols && y < v.rows
    ensures At(ScrollDown(ScrollUp(v)), x, y) == if y == v.top then Empty(v) else At(v, x, y)
  {
    ScrolledDownRow(ScrollUp(v), x, y);
    ScrolledRow(v, x, y);
    if v.top < y < v.bottom { ScrolledRow(v, x, y - 1); }
  }

  function ScrollUpBy(v: View, n: nat): (r: View)
    requires v.bottom > 0
    ensures r.bottom == v.bottom
  {
    if n == 0 then v else ScrollUp(ScrollUpBy(v, n - 1))
  }

  function ScrollDownBy(v: View, n: nat): View { if n == 0 then v else ScrollDown(ScrollDownBy(v, n - 1)) }

  ghost predicate SameShape(v: View, w: View) { w == v.(text := w.text) && |w.text| == |v.text| }

  lemma {:induction false} ScrollByShape(v: View, n: nat)
    ensures v.bottom > 0 ==> SameShape(v, ScrollUpBy(v, n))
    ensures SameShape(v, ScrollDownBy(v, n))
  {
    if n > 0 { ScrollByShape(v, n - 1); }
  }

  /** Row `y` after scrolling up by `n`. */
  function RowUp(v: View, n: nat, x: nat, y: nat): Cell {
    if !(v.top <= y < v.bottom) then At(v, x, y) else if y + n < v.bottom then At(v, x, y + n) else Empty(v)
  }

  function RowDown(v: View, n: nat, x: nat, y: nat): Cell {
    if !(v.top <= y < v.bottom) then At(v, x, y) else if v.top + n <= y then At(v, x, y - n) else Empty(v)
  }

  /** Scrolling `n` times shifts by `n` rows and blanks `n`. */
  lemma {:induction false} ScrolledRows(v: View, n: nat, x: nat, y: nat)
    requires Shaped(v) && x < v.cols && y < v.rows
    ensures At(ScrollUpBy(v, n), x, y) == RowUp(v, n, x, y)
  {
    if n > 0 {
      var w := ScrollUpBy(v, n - 1);
      ScrollByShape(v, n - 1);
      ScrolledRows(v, n - 1, x, y);
      if y + 1 < v.bottom { ScrolledRows(v, n - 1, x, y + 1); }
      OneRowUp(v, w, n, x, y);
    }
  }

  lemma {:induction false} OneRowUp(v: View, w: View, n: nat, x: nat, y: nat)
    requires Shaped(v) && x < v.cols && y < v.rows && n > 0 && SameShape(v, w)
    requires At(w, x, y) == RowUp(v, n - 1, x, y) && (y + 1 < v.bottom ==> At(w, x, y + 1) == RowUp(v, n - 1, x, y + 1))
    ensures At(ScrollUp(w), x, y) == RowUp(v, n, x, y)
  {
    ScrolledRow(w, x, y);
  }

  lemma {:induction false} OneRowDown(v: View, w: View, n: nat, x: nat, y: nat)
    requires Shaped(v) && x < v.cols && y < v.rows && n > 0 && SameShape(v, w)
    requires At(w, x, y) == RowDown(v, n - 1, x, y) && (v.top < y ==> At(w, x, y - 1) == RowDown(v, n - 1, x, y - 1))
    ensures At(ScrollDown(w), x, y) == RowDown(v, n, x, y)
  {
    ScrolledDownRow(w, x, y);
  }

  lemma {:induction false} ScrolledDownRows(v: View, n: nat, x: nat, y: nat)
    requires Shaped(v) && x < v.cols && y < v.rows
    ensures At(ScrollDownBy(v, n), x, y) == RowDown(v, n, x, y)
  {
    if n > 0 {
      var w := ScrollDownBy(v, n - 1);
      ScrollByShape(v, n - 1);
      ScrolledDownRows(v, n - 1, x, y);
      if v.top < y { ScrolledDownRows(v, n - 1, x, y - 1); }
      OneRowDown(v, w, n, x, y);
    }
  }

  /** Below its region scrolling down only blanks the row it starts from. */
  lemma {:induction false} ScrolledBelow(v: View, n: nat, x: nat, y: nat)
    requires |v.text| == Times(v.rows, v.cols) && 0 < v.bottom <= v.top < v.rows && x < v.cols && y < v.rows
    ensures At(ScrollDownBy(v, n), x, y) == if y == v.top && n > 0 then Empty(v) else At(v, x, y)
  {
    if n > 0 {
      ScrolledBelow(v, n - 1, x, y);
      ScrollByShape(v, n - 1);
      BlankedBelow(ScrollDownBy(v, n - 1), x, y);
    }
  }

  lemma {:induction false} BlankedBelow(v: View, x: nat, y: nat)
    requires |v.text| == Times(v.rows, v.cols) && 0 < v.bottom <= v.top < v.rows && x < v.cols && y < v.rows
    ensures At(ScrollDown(v), x, y) == if y == v.top then Empty(v) else At(v, x, y)
  {
    IndexInside(v.cols, v.rows, x, y);
    RowBefore(v.cols, x, y, v.top);
    RowBefore(v.cols, x, y, v.top + 1);
    RowBefore(v.cols, x, y, v.bottom);
  }

  // ----- what printing and clearing do, cell by cell -----

  lemma {:induction false} PutCell(v: View, w: View, x: nat, y: nat, c: Cell, cx: nat, cy: nat)
    requires Shaped(v) && x < v.cols && y < v.rows && cx < v.cols && cy < v.rows
    requires w.rows == v.rows && w.cols == v.cols && w.text == Put(v.rows, v.cols, v.text, x, y, c)
    ensures At(w, cx, cy) == if cx == x && cy == y then c else At(v, cx, cy)
  {
    IndexInside(v.cols, v.rows, x, y);
    IndexInside(v.cols, v.rows, cx, cy);
    IndexUnique(v.cols, x, y, cx, cy);
  }

  /** On a line with room the character is put at the cursor in the current colours, and
      the cursor moves on. */
  lemma {:induction false} PrintsHere(v: View, c: Glyph, cx: nat, cy: nat)
    requires Shaped(v) && v.x < v.cols && v.y < v.rows && cx < v.cols && cy < v.rows
    ensures var w := PutChar(v, c);
            && w == v.(text := w.text, x := v.x + 1)
            && At(w, cx, cy) == if cx == v.x && cy == v.y then Cell(c, v.fg, v.bg) else At(v, cx, cy)
  {
    PutCell(v, PutChar(v, c), v.x, v.y, Cell(c, v.fg, v.bg), cx, cy);
  }

  /** On a full line the character starts the next one, after scrolling at the bottom
      margin. */
  lemma {:induction false} PrintsOnNextLine(v: View, c: Glyph, cx: nat, cy: nat)
    requires Shaped(v) && v.x >= v.cols && v.scrolling && cx < v.cols && cy < v.rows
    requires v.y < v.rows && (v.y + 1 < v.rows || v.y + 1 == v.bottom) && v.rows <= v.cols
    ensures var w := PutChar(v, c);
            var down := v.y + 1 == v.bottom;
            var y := if down then v.y else v.y + 1;
            && w == v.(text := w.text, x := 1, y := y)
            && At(w, cx, cy) == if cx == 0 && cy == y then Cell(c, v.fg, v.bg)
                                else if down then RowUp(v, 1, cx, cy) else At(v, cx, cy)
  {
    var u := NextLine(v);
    PutCell(u, PutChar(v, c), 0, u.y, Cell(c, v.fg, v.bg), cx, cy);
    ScrolledRow(v, cx, cy);
  }

  /** Clearing leaves spaces in the current colours everywhere. */
  lemma {:induction false} ClearBlanks(v: View, move: bool, cx: nat, cy: nat)
    requires Shaped(v) && cx < v.cols && cy < v.rows
    ensures var w := Clear(v, move);
            && At(w, cx, cy) == Cell(0x20, v.fg, v.bg)
            && w == v.(text := w.text, x := if move then 0 else v.x, y := if move then 0 else v.y)
  {
    IndexInside(v.cols, v.rows, cx, cy);
  }

  /** Limiting the row by the number of columns lets the cursor leave the screen, in
      exactly one situation: wrapping below the scroll region on a wide screen. */
  lemma {:induction false} CursorKeptOnScreen(v: View, c: Glyph)
    requires Shaped(v) && v.y < v.rows
    ensures PutChar(v, c).y < v.rows <==>
            !(v.x >= v.cols && v.scrolling && v.y == v.rows - 1 && v.bottom < v.rows && v.rows < v.cols)
  {
  }

  lemma {:induction false} CursorLeavesScreen()
    ensures exists v: View, c: Glyph :: Shaped(v) && v.y < v.rows && PutChar(v, c).y >= v.rows
  {
    var blank := Cell(SPACE, 0, 0);
    var v := View(3, 4, seq(12, i => blank), 4, 2, 0, 2, true, 0, 0);
    assert Times(3, 4) == 12;
    CursorKeptOnScreen(v, SPACE);
  }
}

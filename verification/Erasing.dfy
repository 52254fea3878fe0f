/** Where printed spaces land: past the end of a line, and over whole rows. Erasing is
    done by printing with scrolling switched off. */
module Erasing {
  import opened Rows
  import opened Pixels
  import opened TextView
  import opened RowEdits

  // ----- past the end of a line -----

  /** The cursor's column, or the end of the line. */
  function Column(v: View): nat { if v.x > v.cols then v.cols else v.x }

  /** The cell at (cx, cy) after `n` spaces of which some do not fit on the line: those
      go to the start of the row after it, or are lost below the scroll region. */
  function SpilledCell(v: View, n: nat, cx: nat, cy: nat): Cell
    requires v.cols > 0
  {
    if cy == v.y && Column(v) <= cx then Empty(v)
    else if v.y + 1 < v.bottom && cy == RowAfter(v) && cx + v.cols < Column(v) + n then Empty(v)
    else At(v, cx, cy)
  }

  ghost predicate Spilled(v: View, w: View, n: nat) {
    && Alike(v, w) && v.cols > 0
    && forall cx: nat, cy: nat {:trigger At(w, cx, cy)} :: cx < v.cols && cy < v.rows ==>
         At(w, cx, cy) == SpilledCell(v, n, cx, cy)
  }

  lemma {:induction false} SpacesSpill(v: View, n: nat)
    requires Shaped(v) && v.y < v.rows && !v.scrolling && n <= v.cols < Column(v) + n
    ensures Spilled(v, Spaces(v, n), n)
  {
    var k := v.cols - Column(v);
    var mid, rest := Spaces(v, k), n - k;
    SpacesSum(v, k, rest);
    if v.x <= v.cols {
      SpacesFit(v, k);
    } else {
      ErasedNothing(v);
    }
    SpillRest(v, mid, n, rest);
  }

  lemma {:induction false} ErasedNothing(v: View)
    ensures Erased(v, v, Column(v), v.y, 0)
  {
  }

  lemma {:induction false} SpillRest(v: View, mid: View, n: nat, rest: nat)
    requires Shaped(v) && v.y < v.rows && !v.scrolling && 0 < rest == Column(v) + n - v.cols <= v.cols
    requires Erased(v, mid, Column(v), v.y, v.cols - Column(v)) && mid.x >= v.cols && mid.y == v.y
    ensures Spilled(v, Spaces(mid, rest), n)
  {
    var w := Spaces(mid, rest);
    if v.y + 1 < v.bottom {
      var u := mid.(x := 0, y := RowAfter(mid));
      SpacesWrap(mid, rest);
      SpacesFit(u, rest);
      assert Erased(u, w, 0, RowAfter(v), rest);
      forall cx: nat, cy: nat | cx < v.cols && cy < v.rows
        ensures At(w, cx, cy) == SpilledCell(v, n, cx, cy)
      {
        assert At(w, cx, cy) == ErasedCell(u, 0, RowAfter(v), rest, cx, cy);
        assert At(u, cx, cy) == At(mid, cx, cy) == ErasedCell(v, Column(v), v.y, v.cols - Column(v), cx, cy);
      }
    } else {
      SpacesLost(mid, rest);
      forall cx: nat, cy: nat | cx < v.cols && cy < v.rows
        ensures At(w, cx, cy) == SpilledCell(v, n, cx, cy)
      {
        assert At(w, cx, cy) == At(mid, cx, cy) == ErasedCell(v, Column(v), v.y, v.cols - Column(v), cx, cy);
      }
    }
  }

  // ----- whole rows -----

  /** The cells of `k` rows. */
  function Cells(k: nat, cols: nat): nat {
    TimesNat(k, cols);
    Times(k, cols)
  }

  /** Whether row `cy` is among the `k` rows printed after row `r`. The row is limited
      by the number of columns, so on a tall screen they pile up there. */
  predicate InRows(cols: nat, r: nat, k: nat, cy: nat) {
    k > 0 && ((r < cy <= r + k && cy < cols) || (r + k >= cols - 1 && cy == cols - 1))
  }

  function RowCell(v: View, r: nat, k: nat, cx: nat, cy: nat): Cell {
    if InRows(v.cols, r, k, cy) then Empty(v) else At(v, cx, cy)
  }

  ghost predicate RowsErased(v: View, w: View, k: nat) {
    && Alike(v, w)
    && forall cx: nat, cy: nat {:trigger At(w, cx, cy)} :: cx < v.cols && cy < v.rows ==>
         At(w, cx, cy) == RowCell(v, v.y, k, cx, cy)
  }

  /** The row reached after `k` full rows. */
  function RowReached(cols: nat, r: nat, k: nat): int {
    if k == 0 then r else if r + k >= cols then cols - 1 else r + k
  }

  /** Rows of spaces printed from the end of a line, inside the scroll region. */
  lemma {:induction false} SpaceRows(v: View, k: nat)
    requires Shaped(v) && !v.scrolling && v.x >= v.cols && (k == 0 || v.y + k < v.bottom)
    ensures RowsErased(v, Spaces(v, Cells(k, v.cols)), k)
    ensures Spaces(v, Cells(k, v.cols)).x >= v.cols && Spaces(v, Cells(k, v.cols)).y == RowReached(v.cols, v.y, k)
    decreases k
  {
    if k > 0 {
      SpaceRows(v, k - 1);
      var w := Spaces(v, Cells(k - 1, v.cols));
      SpacesSum(v, Cells(k - 1, v.cols), v.cols);
      OneMoreRow(v, w, k);
    }
  }

  lemma {:induction false} OneMoreRow(v: View, w: View, k: nat)
    requires Shaped(v) && !v.scrolling && v.y + k < v.bottom && k > 0
    requires RowsErased(v, w, k - 1) && w.x >= v.cols && w.y == RowReached(v.cols, v.y, k - 1)
    ensures RowsErased(v, Spaces(w, v.cols), k)
    ensures Spaces(w, v.cols).x == v.cols && Spaces(w, v.cols).y == RowReached(v.cols, v.y, k)
  {
    var u := w.(x := 0, y := RowAfter(w));
    SpacesWrap(w, v.cols);
    SpacesFit(u, v.cols);
    var t := Spaces(u, v.cols);
    forall cx: nat, cy: nat | cx < v.cols && cy < v.rows
      ensures At(t, cx, cy) == RowCell(v, v.y, k, cx, cy)
    {
      assert At(t, cx, cy) == ErasedCell(u, 0, u.y, v.cols, cx, cy);
      assert At(u, cx, cy) == At(w, cx, cy) == RowCell(v, v.y, k - 1, cx, cy);
    }
  }

  // ----- spaces that change nothing any more -----

  ghost predicate SameCells(v: View, w: View) {
    && Alike(v, w)
    && forall cx: nat, cy: nat {:trigger At(w, cx, cy)} :: cx < v.cols && cy < v.rows ==> At(w, cx, cy) == At(v, cx, cy)
  }

  /** At the end of the last line, or on the blank row that a tall screen does not get past. */
  ghost predicate Halted(v: View) {
    && !v.scrolling
    && ((v.x >= v.cols && v.y + 1 >= v.bottom)
        || (v.y == v.cols - 1 < v.rows && forall cx: nat {:trigger At(v, cx, v.cols - 1)} :: cx < v.cols ==>
             At(v, cx, v.cols - 1) == Empty(v)))
  }

  lemma {:induction false} BlankStays(v: View, w: View, x: nat)
    requires Shaped(v) && v.y == v.cols - 1 < v.rows && x < v.cols && !v.scrolling && Halted(v)
    requires forall cx: nat {:trigger At(v, cx, v.cols - 1)} :: cx < v.cols ==> At(v, cx, v.cols - 1) == Empty(v)
    requires Alike(v, w) && w.y == v.y && w.text == Put(v.rows, v.cols, v.text, x, v.cols - 1, Empty(v))
    ensures SameCells(v, w) && Halted(w)
  {
    forall cx: nat, cy: nat | cx < v.cols && cy < v.rows
      ensures At(w, cx, cy) == At(v, cx, cy)
    {
      PutCell(v, w, x, v.cols - 1, Empty(v), cx, cy);
    }
  }

  lemma {:induction false} HaltedStep(v: View)
    requires Shaped(v) && Halted(v)
    ensures SameCells(v, PutChar(v, SPACE)) && Halted(PutChar(v, SPACE))
  {
    var w := PutChar(v, SPACE);
    if v.x >= v.cols && v.y + 1 >= v.bottom {
      SpacesLost(v, 1);
      assert Spaces(v, 0) == v && Spaces(v, 1) == w;
    } else if v.x >= v.cols {
      var u := v.(x := 0, y := RowAfter(v));
      SpacesWrap(v, 1);
      assert Spaces(v, 0) == v && Spaces(v, 1) == w && Spaces(u, 0) == u && Spaces(u, 1) == PutChar(u, SPACE);
      PrintInside(u, SPACE);
      BlankStays(v, w, 0);
    } else {
      PrintInside(v, SPACE);
      BlankStays(v, w, v.x);
    }
  }

  lemma {:induction false} HaltedSpaces(v: View, n: nat)
    requires Shaped(v) && Halted(v)
    ensures SameCells(v, Spaces(v, n)) && Halted(Spaces(v, n))
    decreases n
  {
    if n > 0 {
      HaltedSpaces(v, n - 1);
      var u := Spaces(v, n - 1);
      HaltedStep(u);
      SameCellsChain(v, u, Spaces(v, n));
    }
  }

  lemma {:induction false} SameCellsChain(v: View, u: View, w: View)
    requires SameCells(v, u) && SameCells(u, w)
    ensures SameCells(v, w)
  {
    forall cx: nat, cy: nat | cx < v.cols && cy < v.rows
      ensures At(w, cx, cy) == At(v, cx, cy)
    {
      assert At(w, cx, cy) == At(u, cx, cy) == At(v, cx, cy);
    }
  }

  // ----- parts of the display -----

  /** How many rows after row `y` printing can go on to. */
  function RowsAfter(y: nat, bottom: nat): nat {
    if y < bottom then bottom - 1 - y else 0
  }

  /** Whether erasing from (x, y) to the end reaches a cell. */
  predicate Below(bottom: nat, cols: nat, x: nat, y: nat, cx: nat, cy: nat) {
    (cy == y && x <= cx) || InRows(cols, y, RowsAfter(y, bottom), cy)
  }

  ghost predicate ErasedBelow(v: View, w: View, x: nat, y: nat) {
    && Alike(v, w)
    && forall cx: nat, cy: nat {:trigger At(w, cx, cy)} :: cx < v.cols && cy < v.rows ==>
         At(w, cx, cy) == if Below(v.bottom, v.cols, x, y, cx, cy) then Empty(v) else At(v, cx, cy)
  }

  /** Enough spaces to reach the end of the scroll region blank the rest of the line and
      the rows after it; any more change nothing. */
  lemma {:induction false} SpacesBelow(v: View, n: nat)
    requires Shaped(v) && !v.scrolling && v.y < v.rows
             && n >= Cells(RowsAfter(v.y, v.bottom), v.cols) + (v.cols - Column(v))
    ensures ErasedBelow(v, Spaces(v, n), Column(v), v.y)
  {
    var k, a := RowsAfter(v.y, v.bottom), v.cols - Column(v);
    var mid := Spaces(v, a);
    if v.x <= v.cols {
      SpacesFit(v, a);
    } else {
      ErasedNothing(v);
    }
    SpaceRows(mid, k);
    var full, rest := Spaces(mid, Cells(k, v.cols)), n - a - Cells(k, v.cols);
    RegionEnd(mid, full, k);
    HaltedSpaces(full, rest);
    SpacesThrice(v, a, Cells(k, v.cols), rest, n);
    BelowCells(v, mid, full, Spaces(full, rest), k);
  }

  lemma {:induction false} SpacesThrice(v: View, a: nat, b: nat, c: nat, n: nat)
    requires v.bottom > 0 && v.cols > 0 && n == a + b + c
    ensures Spaces(v, n) == Spaces(Spaces(Spaces(v, a), b), c)
  {
    SpacesSum(v, a, b);
    SpacesSum(v, a + b, c);
  }

  lemma {:induction false} RegionEnd(mid: View, full: View, k: nat)
    requires Shaped(mid) && !mid.scrolling && mid.x >= mid.cols && k == RowsAfter(mid.y, mid.bottom)
    requires RowsErased(mid, full, k) && full.x >= mid.cols && full.y == RowReached(mid.cols, mid.y, k)
    ensures Halted(full)
  {
    if k > 0 && mid.y + k >= mid.cols {
      var row := mid.cols - 1;
      forall cx: nat | cx < mid.cols
        ensures At(full, cx, row) == Empty(full)
      {
        assert At(full, cx, row) == RowCell(mid, mid.y, k, cx, row);
      }
    }
  }

  lemma {:induction false} BelowCells(v: View, mid: View, full: View, w: View, k: nat)
    requires v.y < v.rows && k == RowsAfter(v.y, v.bottom) && SameCells(full, w)
    requires Erased(v, mid, Column(v), v.y, v.cols - Column(v)) && mid.y == v.y && RowsErased(mid, full, k)
    ensures ErasedBelow(v, w, Column(v), v.y)
  {
    forall cx: nat, cy: nat | cx < v.cols && cy < v.rows
      ensures At(w, cx, cy) == if Below(v.bottom, v.cols, Column(v), v.y, cx, cy) then Empty(v) else At(v, cx, cy)
    {
      assert At(w, cx, cy) == At(full, cx, cy) == RowCell(mid, v.y, k, cx, cy);
      assert At(mid, cx, cy) == ErasedCell(v, Column(v), v.y, v.cols - Column(v), cx, cy);
    }
  }

  /** That is everything after the cursor, exactly when the cursor is on the last row, or
      the scroll region ends with the screen and the screen is at least as wide as high. */
  lemma {:induction false} BelowIsRest(rows: nat, cols: nat, bottom: nat, y: nat)
    requires y < rows && cols > 0 && 0 < bottom <= rows
    ensures (forall cy {:trigger InRows(cols, y, RowsAfter(y, bottom), cy)} :: 0 <= cy < rows ==>
               (InRows(cols, y, RowsAfter(y, bottom), cy) <==> y < cy))
            <==> (y == rows - 1 || (bottom == rows && rows <= cols))
  {
    if y != rows - 1 && !(bottom == rows && rows <= cols) {
      assert !InRows(cols, y, RowsAfter(y, bottom), rows - 1);
    }
  }

  /** Whether erasing from the start to (x, y) reaches a cell. */
  predicate Above(bottom: nat, cols: nat, x: nat, y: nat, cx: nat, cy: nat) {
    cy < cols && cy < bottom && (cy < y || (cy == y && cx <= x))
  }

  ghost predicate ErasedAbove(v: View, w: View, x: nat, y: nat) {
    && Alike(v, w)
    && forall cx: nat, cy: nat {:trigger At(w, cx, cy)} :: cx < v.cols && cy < v.rows ==>
         At(w, cx, cy) == if Above(v.bottom, v.cols, x, y, cx, cy) then Empty(v) else At(v, cx, cy)
  }

  /** Erasing from the start of the screen to (x, y). */
  lemma {:induction false} SpacesAbove(v: View, x: nat, y: nat)
    requires Shaped(v) && !v.scrolling && v.x == v.y == 0 && x < v.cols && y < v.rows
    ensures ErasedAbove(v, Spaces(v, Cells(y, v.cols) + x + 1), x, y)
  {
    if y >= v.bottom {
      MoreRows(v.bottom - 1, y, v.cols);
      SpacesBelow(v, Cells(y, v.cols) + x + 1);
      AboveAll(v, Spaces(v, Cells(y, v.cols) + x + 1), x, y);
    } else if y == 0 {
      SpacesFit(v, x + 1);
      AboveFirst(v, Spaces(v, x + 1), x);
    } else {
      var first := Spaces(v, v.cols);
      SpacesFit(v, v.cols);
      SpaceRows(first, y - 1);
      var mid := Spaces(first, Cells(y - 1, v.cols));
      SpacesInRows(v, x, y);
      AboveRest(v, first, mid, x, y);
    }
  }

  lemma {:induction false} MoreRows(a: nat, b: nat, cols: nat)
    requires a <= b
    ensures Cells(a, cols) <= Cells(b, cols) && (a < b ==> Cells(a, cols) + cols <= Cells(b, cols))
  {
    if a < b {
      Ordered(a, b, cols);
    }
  }

  lemma {:induction false} AboveAll(v: View, w: View, x: nat, y: nat)
    requires Shaped(v) && v.x == v.y == 0 && v.bottom <= y && ErasedBelow(v, w, 0, 0)
    ensures ErasedAbove(v, w, x, y)
  {
    forall cx: nat, cy: nat | cx < v.cols && cy < v.rows
      ensures At(w, cx, cy) == if Above(v.bottom, v.cols, x, y, cx, cy) then Empty(v) else At(v, cx, cy)
    {
      assert Below(v.bottom, v.cols, 0, 0, cx, cy) == Above(v.bottom, v.cols, x, y, cx, cy);
    }
  }

  lemma {:induction false} SpacesInRows(v: View, x: nat, y: nat)
    requires v.bottom > 0 && v.cols > 0 && y > 0
    ensures Spaces(v, Cells(y, v.cols) + x + 1) == Spaces(Spaces(Spaces(v, v.cols), Cells(y - 1, v.cols)), x + 1)
  {
    TimesMore(y - 1, v.cols);
    SpacesThrice(v, v.cols, Cells(y - 1, v.cols), x + 1, Cells(y, v.cols) + x + 1);
  }

  lemma {:induction false} AboveFirst(v: View, w: View, x: nat)
    requires x < v.cols && v.bottom > 0 && Erased(v, w, 0, 0, x + 1)
    ensures ErasedAbove(v, w, x, 0)
  {
    forall cx: nat, cy: nat | cx < v.cols && cy < v.rows
      ensures At(w, cx, cy) == if Above(v.bottom, v.cols, x, 0, cx, cy) then Empty(v) else At(v, cx, cy)
    {
      assert At(w, cx, cy) == ErasedCell(v, 0, 0, x + 1, cx, cy);
    }
  }

  lemma {:induction false} AboveRest(v: View, first: View, mid: View, x: nat, y: nat)
    requires Shaped(v) && !v.scrolling && x < v.cols && 0 < y < v.bottom
    requires Erased(v, first, 0, 0, v.cols) && first.y == 0 && RowsErased(first, mid, y - 1)
    requires mid.x >= v.cols && mid.y == RowReached(v.cols, 0, y - 1)
    ensures ErasedAbove(v, Spaces(mid, x + 1), x, y)
  {
    var u := mid.(x := 0, y := RowAfter(mid));
    SpacesWrap(mid, x + 1);
    SpacesFit(u, x + 1);
    var w := Spaces(u, x + 1);
    forall cx: nat, cy: nat | cx < v.cols && cy < v.rows
      ensures At(w, cx, cy) == if Above(v.bottom, v.cols, x, y, cx, cy) then Empty(v) else At(v, cx, cy)
    {
      assert At(w, cx, cy) == ErasedCell(u, 0, u.y, x + 1, cx, cy);
      assert At(u, cx, cy) == At(mid, cx, cy) == RowCell(first, 0, y - 1, cx, cy);
      assert At(first, cx, cy) == ErasedCell(v, 0, 0, v.cols, cx, cy);
    }
  }

  /** That is everything up to (x, y), exactly when the row is one that printing reaches. */
  lemma {:induction false} AboveIsStart(bottom: nat, cols: nat, x: nat, y: nat)
    requires x < cols
    ensures (forall cx: nat, cy: nat {:trigger Above(bottom, cols, x, y, cx, cy)} :: cx < cols ==>
               (Above(bottom, cols, x, y, cx, cy) <==> (cy < y || (cy == y && cx <= x))))
            <==> y < cols && y < bottom
  {
    if y >= cols || y >= bottom {
      assert !Above(bottom, cols, x, y, 0, y);
    }
  }

  // ----- what the commands make of a screen -----

  function Limited(n: nat, limit: nat): nat { if n > limit then limit else n }

  /** Erase characters: at most a line of spaces from the cursor on. */
  function CharsErased(v: View, x: nat, y: nat, n: nat): View
    requires v.bottom > 0 && v.cols > 0 && v.rows > 0
  {
    SetCursor(Spaces(v, Limited(n, v.cols)), x, y)
  }

  /** Erase in line. */
  function LineErased(v: View, x: nat, y: nat, mode: nat): View
    requires v.bottom > 0 && x < v.cols && v.rows > 0
  {
    if mode == 0 then SetCursor(Spaces(v, v.cols - x), x, y)
    else if mode == 1 then Spaces(SetCursor(v, 0, y), x)
    else if mode == 2 then SetCursor(Spaces(SetCursor(v, 0, y), v.cols), x, y)
    else v
  }

  /** Erase in display. */
  function DisplayErased(v: View, x: nat, y: nat, mode: nat): View
    requires v.bottom > 0 && x < v.cols && y < v.rows
  {
    if mode == 0 then SetCursor(Spaces(v, Cells(v.rows - 1 - y, v.cols) + (v.cols - x)), x, y)
    else if mode == 1 then SetCursor(Spaces(SetCursor(v, 0, 0), Cells(y, v.cols) + x + 1), x, y)
    else if mode == 2 || mode == 3 then Clear(v, false)
    else v
  }

  /** Moving the cursor changes no cell. */
  lemma {:induction false} SpilledCursor(v: View, w: View, w': View, n: nat)
    requires Spilled(v, w, n) && Alike(w, w') && w'.text == w.text
    ensures Spilled(v, w', n)
  {
    forall cx: nat, cy: nat | cx < v.cols && cy < v.rows
      ensures At(w', cx, cy) == SpilledCell(v, n, cx, cy)
    {
      assert At(w, cx, cy) == SpilledCell(v, n, cx, cy);
    }
  }

  /** Spaces that fit blank a stretch of the cursor's line, and others go on to the next
      one. */
  lemma {:induction false} CharsErasedMeans(v: View, x: nat, y: nat, n: nat)
    requires Shaped(v) && !v.scrolling && v.y < v.rows
    ensures var k := Limited(n, v.cols);
            && (v.x + k <= v.cols ==> Erased(v, CharsErased(v, x, y, n), v.x, v.y, k))
            && (Column(v) + k > v.cols ==> Spilled(v, CharsErased(v, x, y, n), k))
  {
    var k := Limited(n, v.cols);
    var w := Spaces(v, k);
    if v.x + k <= v.cols {
      SpacesFit(v, k);
      ErasedFrom(v, v, CharsErased(v, x, y, n), w, v.x, v.x, v.y, k);
    }
    if Column(v) + k > v.cols {
      SpacesSpill(v, k);
      SpilledCursor(v, w, CharsErased(v, x, y, n), k);
    }
  }

  /** The modes of erasing in a line. Mode 0 goes wrong once the cursor has passed the
      last column: it reaches the next line instead. */
  lemma {:induction false} LineErasedMeans(v: View, x: nat, y: nat, mode: nat)
    requires Shaped(v) && !v.scrolling && v.y == y < v.rows && x < v.cols
             && x == (if v.x >= v.cols then v.cols - 1 else v.x)
    ensures var w := LineErased(v, x, y, mode);
            && (mode == 0 && v.x < v.cols ==> Erased(v, w, x, y, v.cols - x))
            && (mode == 0 && v.x >= v.cols ==> Spilled(v, w, 1))
            && (mode == 1 ==> Erased(v, w, 0, y, x))
            && (mode == 2 ==> Erased(v, w, 0, y, v.cols))
  {
    var w, u := LineErased(v, x, y, mode), SetCursor(v, 0, y);
    if mode == 0 && v.x < v.cols {
      SpacesFit(v, v.cols - x);
      ErasedFrom(v, v, w, Spaces(v, v.cols - x), x, x, y, v.cols - x);
    } else if mode == 0 {
      SpacesSpill(v, 1);
      SpilledCursor(v, Spaces(v, 1), w, 1);
    } else if mode == 1 {
      SpacesFit(u, x);
      ErasedFrom(v, u, w, w, 0, 0, y, x);
    } else if mode == 2 {
      SpacesFit(u, v.cols);
      ErasedFrom(v, u, w, Spaces(u, v.cols), 0, 0, y, v.cols);
    }
  }

  /** The modes of erasing in the display. From past the last column mode 0 leaves the
      cursor's line alone. */
  lemma {:induction false} DisplayErasedMeans(v: View, x: nat, y: nat, mode: nat)
    requires Shaped(v) && !v.scrolling && x < v.cols && y < v.rows
    ensures mode == 0 && v.y == y && x == (if v.x >= v.cols then v.cols - 1 else v.x) ==>
              ErasedBelow(v, DisplayErased(v, x, y, mode), Column(v), y)
    ensures mode == 1 ==> ErasedAbove(v, DisplayErased(v, x, y, mode), x, y)
  {
    if mode == 0 && v.y == y && x == (if v.x >= v.cols then v.cols - 1 else v.x) {
      BelowMeans(v, DisplayErased(v, x, y, mode), x, y);
    } else if mode == 1 {
      AboveMeans(v, DisplayErased(v, x, y, mode), x, y);
    }
  }

  /** Modes 2 and 3 blank every cell and leave the cursor; a mode beyond does nothing. */
  lemma {:induction false} WholeErased(v: View, x: nat, y: nat, mode: nat, cx: nat, cy: nat)
    requires Shaped(v) && x < v.cols && y < v.rows && mode >= 2 && cx < v.cols && cy < v.rows
    ensures var w := DisplayErased(v, x, y, mode);
            && w == v.(text := w.text)
            && At(w, cx, cy) == if mode <= 3 then Cell(0x20, v.fg, v.bg) else At(v, cx, cy)
  {
    ClearBlanks(v, false, cx, cy);
  }

  lemma {:induction false} BelowMeans(v: View, w: View, x: nat, y: nat)
    requires Shaped(v) && !v.scrolling && v.y == y < v.rows && x < v.cols && w == DisplayErased(v, x, y, 0)
    requires x == (if v.x >= v.cols then v.cols - 1 else v.x)
    ensures ErasedBelow(v, w, Column(v), y)
  {
    var n := Cells(v.rows - 1 - y, v.cols) + (v.cols - x);
    MoreRows(RowsAfter(y, v.bottom), v.rows - 1 - y, v.cols);
    SpacesBelow(v, n);
    var t := Spaces(v, n);
    forall cx: nat, cy: nat | cx < v.cols && cy < v.rows
      ensures At(w, cx, cy) == if Below(v.bottom, v.cols, Column(v), y, cx, cy) then Empty(v) else At(v, cx, cy)
    {
      assert At(w, cx, cy) == At(t, cx, cy);
    }
  }

  lemma {:induction false} AboveMeans(v: View, w: View, x: nat, y: nat)
    requires Shaped(v) && !v.scrolling && x < v.cols && y < v.rows && w == DisplayErased(v, x, y, 1)
    ensures ErasedAbove(v, w, x, y)
  {
    var u := SetCursor(v, 0, 0);
    SpacesAbove(u, x, y);
    var t := Spaces(u, Cells(y, v.cols) + x + 1);
    forall cx: nat, cy: nat | cx < v.cols && cy < v.rows
      ensures At(w, cx, cy) == if Above(v.bottom, v.cols, x, y, cx, cy) then Empty(v) else At(v, cx, cy)
    {
      assert At(w, cx, cy) == At(t, cx, cy) == if Above(v.bottom, v.cols, x, y, cx, cy) then Empty(u)
             else At(u, cx, cy);
      assert At(u, cx, cy) == At(v, cx, cy);
    }
  }

  // ----- deleting more than a line -----

  /** The start position of a deletion of more than a line wraps around: up to 2^31
      characters too many mean the start of the line, more mean its last cell. */
  function DeleteStart(cols: nat, n: nat): nat
    requires 0 < cols
  {
    if n <= cols then cols - n else if n - cols <= 0x8000_0000 then 0 else cols - 1
  }

  lemma {:induction false} WrappedStart(cols: nat, n: nat)
    requires 0 < cols < SIZE_LIMIT && n < 0x1_0000_0000 && 0 < n
    ensures Clamp(if cols >= n then cols - n else cols - n + SIZE_LIMIT, cols) == DeleteStart(cols, n)
  {
    if n > cols {
      var k := n - cols;
      assert (SIZE_LIMIT - k) % 0x1_0000_0000 == 0x1_0000_0000 - k;
    }
  }
}

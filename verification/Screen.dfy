/** The double-buffered screen: cells are queued as they change, and a flush plots them. */
module Screens {
  import opened Rows
  import opened Pixels
  import opened TextView
  import opened Framebuffers
  import opened DrawQueue

  const BLANK := Cell(SPACE, 0, 0)

  /** A position's cell, or none if it is off the screen. */
  function CellOf(rows: nat, cols: nat, x: nat, y: nat): int {
    if x < cols && y < rows then Index(cols, x, y) else -1
  }

  /** What is on display after a flush: the text, with foreground and background of the
      cursor's cell exchanged if there is one. */
  ghost predicate OnDisplay(text: seq<Cell>, shown: seq<Shown>, cursor: int) {
    |shown| == |text| && forall i :: 0 <= i < |text| ==>
        shown[i] == Text(if i == cursor then Cell(text[i].c, text[i].bg, text[i].fg) else text[i])
  }

  /** Pixel by pixel: where the font has a dot there is the foreground of the text, and
      elsewhere its background; in the cursor's cell it is the other way round. */
  lemma {:induction false} DisplayPixels(s: Surface, text: seq<Cell>, shown: seq<Shown>, p: seq<int>, cursor: int,
                                         cx: nat, cy: nat, fx: nat, fy: nat, i: nat, j: nat)
    requires Fits(s) && Painted(s, shown, p) && OnDisplay(text, shown, cursor) && |text| == Times(s.rows, s.cols)
    requires cx < s.cols && cy < s.rows && fx < s.fontWidth && fy < s.fontHeight && i < s.scaleX && j < s.scaleY
    ensures 0 <= Index(s.cols, cx, cy) < |text|
    ensures var x, y := s.offsetX + cx * s.glyphWidth + fx * s.scaleX + i,
                        s.offsetY + cy * s.glyphHeight + fy * s.scaleY + j;
            var k := Index(s.cols, cx, cy);
            var fg, bg := if k == cursor then text[k].bg else text[k].fg, if k == cursor then text[k].fg
              else text[k].bg;
            OnScreen(s, x, y) && PixelOf(s, p, x, y) == DotColour(s, Cell(text[k].c, fg, bg), fx, fy, Paper(s, x, y))
  {
    IndexInside(s.cols, s.rows, cx, cy);
    var k := Index(s.cols, cx, cy);
    CellPixels(s, shown, p, shown[k].cell, cx, cy, fx, fy, i, j);
  }

  /** Restoring the cell the cursor has left completes a flush. */
  lemma {:induction false} OldCursorRestored(text: seq<Cell>, shown: seq<Shown>, drawn: int, was: int)
    requires |shown| == |text|
    requires forall i :: 0 <= i < |text| && i != drawn && i != was ==> shown[i] == Text(text[i])
    requires 0 <= drawn < |text| ==> shown[drawn] == Text(Swapped(text[drawn]))
    ensures 0 <= was < |text| && was != drawn ==> OnDisplay(text, shown[was := Text(text[was])], drawn)
    ensures !(0 <= was < |text|) || was == drawn ==> OnDisplay(text, shown, drawn)
  {
  }

  class Screen {
    const rows: nat
    const cols: nat
    const grid: array<Cell>
    const queue: array<Item>
    const slots: array<int>
    const frame: Framebuffer
    var queueI: nat
    var cursorX: nat
    var cursorY: nat
    var oldCursorX: nat
    var oldCursorY: nat
    var cursorEnabled: bool
    var scrollTop: nat
    var scrollBottom: nat
    var scrollEnabled: bool
    var textFg: int
    var textBg: int
    /** The cells a client has put on the screen. */
    ghost var text: seq<Cell>
    ghost const seal: nat

    ghost predicate Parts() {
      && rows > 0 && cols > 0 && Times(rows, cols) < SIZE_LIMIT - 1 && seal >= 3
      && grid.Length == queue.Length == slots.Length == Times(rows, cols)
      && slots != frame.pixels && frame.s.rows == rows && frame.s.cols == cols
    }

    ghost predicate Queued()
      reads this`queueI, this`text, grid, queue, slots
    {
      Parts() && Consistent(grid[..], queue[..], slots[..], queueI, rows, cols, text)
    }

    ghost predicate Margins()
      reads this`scrollTop, this`scrollBottom
    {
      scrollTop < scrollBottom <= rows
    }

    /** The last flush is still on display. */
    ghost predicate Drawn()
      reads this`oldCursorX, this`oldCursorY, grid, frame, frame.pixels
    {
      frame.Valid() && Displays(grid[..], frame.shown, CellOf(rows, cols, oldCursorX, oldCursorY))
    }

    ghost predicate Intact()
      reads this`queueI, this`text, this`scrollTop, this`scrollBottom, this`oldCursorX, this`oldCursorY
      reads grid, queue, slots, frame, frame.pixels
    {
      Queued() && Margins() && Drawn()
    }

    /** `Intact`, `n` steps removed: callers keep it whole and see only what the ensures
        says. `Open` and `Close` go from one to the other. */
    ghost predicate Held(n: nat)
      reads this`queueI, this`text, this`scrollTop, this`scrollBottom, this`oldCursorX, this`oldCursorY
      reads grid, queue, slots, frame, frame.pixels
      ensures Held(n) ==> Parts() && Margins() && |text| == Times(rows, cols)
    {
      if n == 0 then Intact() else Held(n - 1)
    }

    ghost predicate Valid()
      reads this`queueI, this`text, this`scrollTop, this`scrollBottom, this`oldCursorX, this`oldCursorY
      reads grid, queue, slots, frame, frame.pixels
    {
      Held(seal)
    }

    lemma {:induction false} Open(n: nat)
      requires Held(n)
      ensures Intact()
    {
      if n > 0 { Open(n - 1); }
    }

    lemma {:induction false} Close(n: nat)
      requires Intact()
      ensures Held(n)
    {
      if n > 0 { Close(n - 1); }
    }

    ghost function V(): View
      reads this
    {
      View(rows, cols, text, cursorX, cursorY, scrollTop, scrollBottom, scrollEnabled, textFg, textBg)
    }

    /** Nothing has changed since the last flush. */
    ghost predicate Flushed()
      reads this, grid
    {
      queueI == 0 && grid[..] == text && oldCursorX == cursorX && oldCursorY == cursorY
    }

    /** The cell the cursor is drawn in, if any. */
    ghost function CursorCell(): (r: int)
      reads this
      ensures r == if cursorEnabled && cursorX < cols && cursorY < rows then cursorY * cols + cursorX else -1
    {
      TimesIs(cursorY, cols);
      if cursorEnabled then CellOf(rows, cols, cursorX, cursorY) else -1
    }

    /** A blank screen on a frame buffer, drawn in full. */
    constructor (f: Framebuffer, fg: int)
      requires f.Ready() && f.s.rows > 0 && f.s.cols > 0 && Times(f.s.rows, f.s.cols) < SIZE_LIMIT - 1
      modifies f, f.pixels
      ensures Valid() && frame == f && rows == f.s.rows && cols == f.s.cols
      ensures fresh(grid) && fresh(queue) && fresh(slots)
      ensures OnDisplay(text, frame.shown, CursorCell()) && queueI == 0
      ensures V() == View(rows, cols, AllOf(Times(rows, cols), Cell(SPACE, fg, TRANSPARENT)), 0, 0, 0, rows, true, fg,
              TRANSPARENT)
    {
      TimesNat(f.s.rows, f.s.cols);
      var n := Times(f.s.rows, f.s.cols);
      rows, cols, frame := f.s.rows, f.s.cols, f;
      var empty := Cell(SPACE, fg, TRANSPARENT);
      grid := new Cell[n](i => empty);
      queue := new Item[n](i => Item(BLANK, 0, 0));
      slots := new int[n](i => NONE);
      queueI := 0;
      cursorX, cursorY, oldCursorX, oldCursorY, cursorEnabled := 0, 0, 0, 0, true;
      scrollTop, scrollBottom, scrollEnabled := 0, f.s.rows, true;
      textFg, textBg, seal := fg, TRANSPARENT, 3;
      text := AllOf(n, empty);
      new;
      assert grid[..] == text;
      EmptyQueue(grid[..], queue[..], slots[..], rows, cols);
      Redraw();
      Close(seal);
    }

    // ----- queueing -----

    method PushToQueue(c: Cell, x: nat, y: nat)
      requires Queued()
      modifies this`queueI, this`text, queue, slots
      ensures Queued() && text == Put(rows, cols, old(text), x, y, c)
    {
      if x >= cols || y >= rows {
        return;
      }
      IndexInside(cols, rows, x, y);
      var i := Index(cols, x, y);
      ghost var g, q, m := grid[..], queue[..], slots[..];
      if slots[i] == NONE {
        if grid[i] == c {
          PushSame(g, q, m, queueI, rows, cols, text, i, c);
          return;
        }
        QueueRoom(g, q, m, queueI, rows, cols, text, i);
        PushNew(g, q, m, queueI, rows, cols, text, x, y, i, c);
        slots[i] := queueI;
        queue[queueI] := Item(c, x, y);
        queueI := queueI + 1;
      } else {
        PushOld(g, q, m, queueI, rows, cols, text, i, c);
        queue[slots[i]] := queue[slots[i]].(c := c);
      }
      text := text[i := c];
    }

    /** The logical cell: the queued one, or else the drawn one. */
    method CellAt(i: nat) returns (c: Cell)
      requires Queued() && i < Times(rows, cols)
      ensures c == text[i]
    {
      assert CellOk(grid[..], queue[..], slots[..], queueI, cols, text, i);
      c := if slots[i] != NONE then queue[slots[i]].c else grid[i];
    }

    /** Queues cell `i`, given by its place in the grid. */
    method PushAt(c: Cell, i: nat)
      requires Queued() && i < Times(rows, cols)
      modifies this`queueI, this`text, queue, slots
      ensures Queued() && text == old(text)[i := c]
    {
      Rebuilt(i, cols);
      Divided(i, cols, rows);
      PushToQueue(c, Rem(i, cols), Quot(i, cols));
    }

    method BlankRow(y: nat)
      requires Queued() && y < rows
      modifies this`queueI, this`text, queue, slots
      ensures Queued() && Blanked(old(text), text, Times(y, cols), cols, Cell(SPACE, textFg, textBg))
    {
      ghost var was := text;
      var empty := Cell(SPACE, textFg, textBg);
      for x := 0 to cols
        invariant Queued() && Blanked(was, text, Times(y, cols), x, empty)
      {
        IndexInside(cols, rows, x, y);
        PushToQueue(empty, x, y);
      }
    }

    // ----- scrolling -----

    /** Moves the rows after `lo` up by one in place, reading each cell before it is
        overwritten. */
    method MoveRowsUp(lo: nat, hi: nat)
      requires Queued() && lo + cols <= hi <= Times(rows, cols)
      modifies this`queueI, this`text, queue, slots
      ensures Queued() && Moved(old(text), text, lo, hi - cols, cols)
    {
      ghost var was := text;
      var i := lo + cols;
      while i < hi
        invariant lo + cols <= i <= hi && Queued()
        invariant Moved(was, text, lo, i - cols, cols)
      {
        var c := CellAt(i);
        MovedUp(was, text, lo, i - cols, cols);
        PushAt(c, i - cols);
        i := i + 1;
      }
    }

    method ScrollRegion()
      requires Queued() && Margins()
      modifies this`queueI, this`text, queue, slots
      ensures Queued() && V() == ScrollUp(old(V()))
    {
      ghost var v, was := V(), text;
      RegionBounds(scrollTop, scrollBottom, rows, cols);
      var lo, hi := Times(scrollTop, cols), Times(scrollBottom, cols);
      MoveRowsUp(lo, hi);
      ghost var moved := text;
      BlankRow(scrollBottom - 1);
      ScrolledUp(v, was, moved, text, lo, hi - cols, cols, Times(scrollBottom - 1, cols), Cell(SPACE, textFg, textBg));
    }

    /** Moves the rows before `start` down by one, from the last cell to the first; the
        index wraps below zero. */
    method MoveRowsDown(lo: nat, start: nat, ghost d: int)
      requires Queued() && lo < SIZE_LIMIT && start + cols <= Times(rows, cols) && d + cols == 0
      modifies this`queueI, this`text, queue, slots
      ensures Queued() && Moved(old(text), text, lo + cols, start + cols, d)
    {
      ghost var was, p := text, start - 1;
      var i := if start == 0 then SIZE_LIMIT - 1 else start - 1;
      while i >= lo
        invariant (lo - 1 <= p < start || p == start - 1) && i == (if p < 0 then SIZE_LIMIT - 1 else p) && Queued()
        invariant Moved(was, text, p + 1 + cols, start + cols, d)
        decreases p
      {
        if i == SIZE_LIMIT - 1 {
          break;
        }
        var c := CellAt(i);
        MovedDown(was, text, i, start + cols, cols, d);
        PushAt(c, i + cols);
        p := p - 1;
        i := if i == 0 then SIZE_LIMIT - 1 else i - 1;
      }
    }

    method RevScrollRegion()
      requires Queued() && scrollTop < rows && 0 < scrollBottom <= rows
      modifies this`queueI, this`text, queue, slots
      ensures Queued() && V() == ScrollDown(old(V()))
    {
      ghost var v, was := V(), text;
      TimesNat(scrollTop, cols);
      RegionBounds(scrollTop, scrollTop + 1, rows, cols);
      RegionBounds(scrollBottom - 1, scrollBottom, rows, cols);
      var lo, start := Times(scrollTop, cols), Times(scrollBottom - 1, cols);
      ghost var d := -(cols as int);
      MoveRowsDown(lo, start, d);
      ghost var moved := text;
      BlankRow(scrollTop);
      ScrolledDown(v, was, moved, text, lo + cols, start + cols, d, cols, Times(scrollTop, cols),
        Cell(SPACE, textFg, textBg));
    }

    // ----- other operations -----

    method BlankAll()
      requires Queued()
      modifies this`queueI, this`text, queue, slots
      ensures Queued() && text == AllOf(|old(text)|, Cell(SPACE, textFg, textBg))
    {
      ghost var was := text;
      var empty := Cell(SPACE, textFg, textBg);
      TimesNat(rows, cols);
      for i := 0 to Times(rows, cols)
        invariant Queued() && Blanked(was, text, 0, i, empty)
      {
        PushAt(empty, i);
      }
      AllBlanked(was, text, empty);
    }

    method ClearScreen(move: bool)
      requires Valid()
      modifies this`queueI, this`text, this`cursorX, this`cursorY, queue, slots
      ensures Valid() && V() == Clear(old(V()), move)
    {
      Open(seal);
      BlankAll();
      Close(seal);
      if move {
        cursorX, cursorY := 0, 0;
      }
    }

    method SetCursorPos(x: nat, y: nat)
      requires Parts()
      modifies this`cursorX, this`cursorY
      ensures V() == SetCursor(old(V()), x, y)
    {
      var x', y' := x, y;
      if x' >= cols {
        x' := if x' % 0x1_0000_0000 >= 0x8000_0000 then 0 else cols - 1;
      }
      if y' >= rows {
        y' := if y' % 0x1_0000_0000 >= 0x8000_0000 then 0 else rows - 1;
      }
      cursorX, cursorY := x', y';
    }

    /** The cursor as a client sees it: never off the screen. */
    method GetCursorPos() returns (x: nat, y: nat)
      requires Parts()
      ensures x < cols && y < rows
      ensures x == if cursorX >= cols then cols - 1 else cursorX
      ensures y == if cursorY >= rows then rows - 1 else cursorY
    {
      x := if cursorX >= cols then cols - 1 else cursorX;
      y := if cursorY >= rows then rows - 1 else cursorY;
    }

    method MoveCharacter(newX: nat, newY: nat, oldX: nat, oldY: nat)
      requires Valid()
      modifies this`queueI, this`text, queue, slots
      ensures Valid() && V() == MoveCell(old(V()), newX, newY, oldX, oldY)
    {
      if oldX >= cols || oldY >= rows || newX >= cols || newY >= rows {
        return;
      }
      Open(seal);
      IndexInside(cols, rows, oldX, oldY);
      var c := CellAt(Index(cols, oldX, oldY));
      PushToQueue(c, newX, newY);
      Close(seal);
    }

    method StartNextLine()
      requires Queued() && Margins()
      modifies this`queueI, this`text, this`cursorX, this`cursorY, queue, slots
      ensures Queued() && V() == NextLine(old(V()))
    {
      cursorX := 0;
      cursorY := cursorY + 1;
      if cursorY == scrollBottom {
        cursorY := cursorY - 1;
        ScrollRegion();
      }
      if cursorY >= cols {
        cursorY := cols - 1;
      }
    }

    method RawPutchar(c: Glyph)
      requires Valid()
      modifies this`queueI, this`text, this`cursorX, this`cursorY, queue, slots
      ensures Valid() && V() == PutChar(old(V()), c)
    {
      Open(seal);
      if cursorX >= cols && (cursorY < scrollBottom - 1 || scrollEnabled) {
        StartNextLine();
      }
      PushToQueue(Cell(c, textFg, textBg), cursorX, cursorY);
      cursorX := cursorX + 1;
      Close(seal);
    }

    method Scroll()
      requires Valid()
      modifies this`queueI, this`text, queue, slots
      ensures Valid() && V() == ScrollUp(old(V()))
    {
      Open(seal);
      ScrollRegion();
      Close(seal);
    }

    method RevScroll()
      requires Valid()
      modifies this`queueI, this`text, queue, slots
      ensures Valid() && V() == ScrollDown(old(V()))
    {
      Open(seal);
      RevScrollRegion();
      Close(seal);
    }

    /** Scrolls down what lies from row `y` to the bottom margin. The top margin is out
        of order while it does so if `y` is below the region. */
    method InsertLines(y: nat, n: nat)
      requires Valid() && y < rows
      modifies this`queueI, this`text, this`scrollTop, queue, slots
      ensures Valid() && V() == ScrollDownBy(old(V()).(top := y), n).(top := old(scrollTop))
    {
      Open(seal);
      var oldTop := scrollTop;
      scrollTop := y;
      ScrollDownLines(n);
      ScrollByShape(old(V()).(top := y), n);
      scrollTop := oldTop;
      Close(seal);
    }

    method ScrollDownLines(n: nat)
      requires Queued() && scrollTop < rows && 0 < scrollBottom <= rows
      modifies this`queueI, this`text, queue, slots
      ensures Queued() && V() == ScrollDownBy(old(V()), n)
    {
      ghost var v := V();
      for i := 0 to n
        invariant Queued() && V() == ScrollDownBy(v, i)
      {
        RevScrollRegion();
      }
    }

    method SetMargins(top: nat, bottom: nat)
      requires Valid() && top < bottom <= rows
      modifies this`scrollTop, this`scrollBottom
      ensures Valid() && V() == old(V()).(top := top, bottom := bottom)
    {
      Open(seal);
      scrollTop, scrollBottom := top, bottom;
      Close(seal);
    }

    // ----- drawing -----

    /** Plots the cursor's cell with its colours swapped, which settles that cell; its
        queue item, if any, stays behind. */
    method DrawCursor()
      requires Queued() && frame.Valid()
      modifies grid, slots, frame, frame.pixels
      ensures frame.Valid()
      ensures var at := CellOf(rows, cols, cursorX, cursorY);
              if at < 0 then grid[..] == old(grid[..]) && slots[..] == old(slots[..]) && frame.shown == old(frame.shown)
              else at < |text| && grid[..] == old(grid[..])[at := text[at]] && slots[..] == old(slots[..])[at := NONE]
                   && frame.shown == old(frame.shown)[at := Text(Swapped(text[at]))]
    {
      if cursorX >= cols || cursorY >= rows {
        return;
      }
      IndexInside(cols, rows, cursorX, cursorY);
      var i := Index(cols, cursorX, cursorY);
      var c := CellAt(i);
      assert CellOk(grid[..], queue[..], slots[..], queueI, cols, text, i);
      frame.PlotChar(Cell(c.c, c.bg, c.fg), cursorX, cursorY);
      if slots[i] != NONE {
        grid[i] := queue[slots[i]].c;
        slots[i] := NONE;
      }
    }

    /** The loop of a flush. */
    method FlushQueue(ghost drawn: int, ghost was: int)
      requires Parts() && frame.Valid()
      requires Flushing(grid[..], queue[..], slots[..], 0, queueI, rows, cols, text, frame.shown, drawn, was)
      modifies grid, slots, frame, frame.pixels
      ensures frame.Valid()
      ensures Flushing(grid[..], queue[..], slots[..], queueI, queueI, rows, cols, text, frame.shown, drawn, was)
    {
      for k := 0 to queueI
        invariant frame.Valid() && queue[..] == old(queue[..])
        invariant Flushing(grid[..], queue[..], slots[..], k, queueI, rows, cols, text, frame.shown, drawn, was)
      {
        FlushNext(k, drawn, was);
      }
    }

    method FlushNext(k: nat, ghost drawn: int, ghost was: int)
      requires Parts() && frame.Valid() && k < queueI
      requires Flushing(grid[..], queue[..], slots[..], k, queueI, rows, cols, text, frame.shown, drawn, was)
      modifies grid, slots, frame, frame.pixels
      ensures frame.Valid()
      ensures Flushing(grid[..], queue[..], slots[..], k + 1, queueI, rows, cols, text, frame.shown, drawn, was)
    {
      ghost var g, q, m, shown := grid[..], queue[..], slots[..], frame.shown;
      FlushSkip(g, q, m, k, queueI, rows, cols, text, shown, drawn, was);
      var item := queue[k];
      var offset := Index(cols, item.x, item.y);
      if slots[offset] == NONE {
        return;
      }
      FlushOne(g, q, m, k, queueI, rows, cols, text, shown, drawn, was, offset);
      frame.PlotChar(item.c, item.x, item.y);
      grid[offset] := item.c;
      slots[offset] := NONE;
      assert grid[..] == g[offset := item.c] && slots[..] == m[offset := NONE];
    }

    /** After a flush the display is the text, with the cursor on it. */
    method DoubleBufferFlush()
      requires Valid()
      modifies this`queueI, this`oldCursorX, this`oldCursorY, grid, slots, frame, frame.pixels
      ensures Valid() && Flushed() && OnDisplay(text, frame.shown, CursorCell()) && queueI == 0
    {
      Open(seal);
      ghost var was := CellOf(rows, cols, oldCursorX, oldCursorY);
      ghost var g, q, m, shown := grid[..], queue[..], slots[..], frame.shown;
      FlushStart(g, q, m, queueI, rows, cols, text, shown, was);
      CellOfRange(rows, cols, cursorX, cursorY);
      ghost var drawn := CursorCell();
      if cursorEnabled {
        DrawCursor();
        if drawn >= 0 { FlushCursor(g, q, m, queueI, rows, cols, text, shown, drawn, was); }
      }
      FlushQueue(drawn, was);
      FlushEnd(grid[..], queue[..], slots[..], queueI, rows, cols, text, frame.shown, drawn, was);
      RestoreOldCursor(drawn, was);
      oldCursorX, oldCursorY := cursorX, cursorY;
      queueI := 0;
      Close(seal);
    }

    method RestoreOldCursor(ghost drawn: int, ghost was: int)
      requires Parts() && frame.Valid() && drawn == CursorCell() && was == CellOf(rows, cols, oldCursorX, oldCursorY)
      requires |text| == Times(rows, cols) && grid[..] == text
      requires forall i :: 0 <= i < |text| && i != drawn && i != was ==> frame.shown[i] == Text(text[i])
      requires 0 <= drawn < |text| ==> frame.shown[drawn] == Text(Swapped(text[drawn]))
      modifies frame, frame.pixels
      ensures frame.Valid() && OnDisplay(text, frame.shown, drawn)
    {
      OldCursorRestored(text, frame.shown, drawn, was);
      if oldCursorX < cols && oldCursorY < rows {
        IndexInside(cols, rows, oldCursorX, oldCursorY);
        if cursorX < cols && cursorY < rows {
          IndexUnique(cols, oldCursorX, oldCursorY, cursorX, cursorY);
        }
      }
      if oldCursorX != cursorX || oldCursorY != cursorY || !cursorEnabled {
        if oldCursorX < cols && oldCursorY < rows {
          frame.PlotChar(grid[Index(cols, oldCursorX, oldCursorY)], oldCursorX, oldCursorY);
        }
      }
    }

    method PlotGrid()
      requires Parts() && frame.Ready()
      modifies frame, frame.pixels
      ensures frame.Valid() && Displays(grid[..], frame.shown, -1)
    {
      frame.PaintBackground();
      TimesNat(rows, cols);
      for i := 0 to Times(rows, cols)
        invariant frame.Valid() && forall j :: 0 <= j < i ==> frame.shown[j] == Text(grid[j])
      {
        Rebuilt(i, cols);
        Divided(i, cols, rows);
        frame.PlotChar(grid[i], Rem(i, cols), Quot(i, cols));
      }
    }

    /** Redraws everything. Right for a screen that has just been set up or flushed. */
    method FullRefresh()
      requires Valid() && Flushed()
      modifies grid, slots, frame, frame.pixels
      ensures Valid() && OnDisplay(text, frame.shown, CursorCell())
    {
      Open(seal);
      Redraw();
      Close(seal);
    }

    method Redraw()
      requires Queued() && Margins() && frame.Ready() && queueI == 0 && grid[..] == text
      requires oldCursorX == cursorX && oldCursorY == cursorY
      modifies grid, slots, frame, frame.pixels
      ensures Intact() && OnDisplay(text, frame.shown, CursorCell())
    {
      PlotGrid();
      NothingQueued(grid[..], queue[..], slots[..], rows, cols, text);
      if cursorEnabled {
        DrawCursor();
      }
      EmptyQueue(grid[..], queue[..], slots[..], rows, cols);
    }
  }

  lemma {:induction false} EmptyQueue(grid: seq<Cell>, queue: seq<Item>, slots: seq<int>, rows: nat, cols: nat)
    requires |grid| == |queue| == |slots| == Times(rows, cols) && forall i :: 0 <= i < |slots| ==> slots[i] == NONE
    ensures Consistent(grid, queue, slots, 0, rows, cols, grid)
  {
  }

  lemma {:induction false} NothingQueued(grid: seq<Cell>, queue: seq<Item>, slots: seq<int>, rows: nat, cols: nat,
                                         text: seq<Cell>)
    requires Consistent(grid, queue, slots, 0, rows, cols, text)
    ensures forall i :: 0 <= i < |slots| ==> slots[i] == NONE
  {
    forall i | 0 <= i < |slots|
      ensures slots[i] == NONE
    {
      assert CellOk(grid, queue, slots, 0, cols, text, i);
    }
  }

  /** `x` cells from `from` on have become `blank`. */
  ghost predicate Blanked(was: seq<Cell>, text: seq<Cell>, from: int, x: int, blank: Cell) {
    |text| == |was| && forall i {:trigger text[i]} :: 0 <= i < |text| ==>
        text[i] == if from <= i < from + x then blank else was[i]
  }

  lemma {:induction false} AllBlanked(was: seq<Cell>, text: seq<Cell>, blank: Cell)
    requires Blanked(was, text, 0, |was|, blank)
    ensures text == AllOf(|was|, blank)
  {
  }

  /** The cells from `lo` to `hi` have been replaced by those `d` further on. */
  ghost predicate Moved(was: seq<Cell>, text: seq<Cell>, lo: int, hi: int, d: int) {
    |text| == |was| && forall i {:trigger text[i]} :: 0 <= i < |text| ==>
        text[i] == if lo <= i < hi && 0 <= i + d < |was| then was[i + d] else was[i]
  }

  lemma {:induction false} ShiftDone(was: seq<Cell>, moved: seq<Cell>, text: seq<Cell>, lo: int, hi: int, d: int,
                                     from: int, x: int, blank: Cell)
    requires Moved(was, moved, lo, hi, d) && Blanked(moved, text, from, x, blank) && (from + x <= lo || hi <= from)
    ensures text == Shifted(was, lo, hi, d, from, from + x, blank)
  {
    var r := Shifted(was, lo, hi, d, from, from + x, blank);
    forall i | 0 <= i < |was|
      ensures text[i] == r[i]
    {
    }
  }

  lemma {:induction false} ScrolledUp(v: View, was: seq<Cell>, moved: seq<Cell>, text: seq<Cell>, lo: int, hi: int,
                                      cols: nat, from: int, blank: Cell)
    requires Shaped(v) && v.text == was && v.cols == cols && blank == Empty(v)
    requires lo == Times(v.top, cols) && hi == Times(v.bottom, cols) - cols && from == Times(v.bottom - 1, cols)
    requires Moved(was, moved, lo, hi, cols) && Blanked(moved, text, from, cols, blank)
    ensures v.(text := text) == ScrollUp(v)
  {
    RegionBounds(v.top, v.bottom, v.rows, cols);
    ShiftDone(was, moved, text, lo, hi, cols, from, cols, blank);
  }

  lemma {:induction false} ScrolledDown(v: View, was: seq<Cell>, moved: seq<Cell>, text: seq<Cell>, lo: int, hi: int,
                                        d: int, cols: nat, from: int, blank: Cell)
    requires v.text == was && v.cols == cols && blank == Empty(v) && d == -(cols as int) && v.bottom > 0
    requires lo == Times(v.top, cols) + cols && hi == Times(v.bottom - 1, cols) + cols && from == Times(v.top, cols)
    requires Moved(was, moved, lo, hi, d) && Blanked(moved, text, from, cols, blank)
    ensures v.(text := text) == ScrollDown(v)
  {
    TimesMore(v.top, cols);
    TimesMore(v.bottom - 1, cols);
    ShiftDone(was, moved, text, lo, hi, d, from, cols, blank);
  }

  lemma {:induction false} MovedUp(was: seq<Cell>, text: seq<Cell>, lo: int, k: int, d: nat)
    requires Moved(was, text, lo, k, d) && 0 <= lo <= k && k + d < |was|
    ensures Moved(was, text[k := text[k + d]], lo, k + 1, d)
  {
  }

  lemma {:induction false} MovedDown(was: seq<Cell>, text: seq<Cell>, k: nat, hi: int, cols: nat, d: int)
    requires cols > 0 && d + cols == 0 && Moved(was, text, k + 1 + cols, hi, d) && k + cols < hi <= |was|
    ensures Moved(was, text[k + cols := text[k]], k + cols, hi, d)
  {
  }

  lemma {:induction false} CellOfRange(rows: nat, cols: nat, x: nat, y: nat)
    ensures CellOf(rows, cols, x, y) == -1 || 0 <= CellOf(rows, cols, x, y) < Times(rows, cols)
  {
    if x < cols && y < rows { IndexInside(cols, rows, x, y); }
  }

  lemma {:induction false} RegionBounds(top: nat, bottom: nat, rows: nat, cols: nat)
    requires top < bottom <= rows
    ensures 0 <= Times(top, cols) <= Times(bottom - 1, cols)
    ensures Times(bottom - 1, cols) + cols == Times(bottom, cols) <= Times(rows, cols)
    ensures Times(top, cols) + cols == Times(top + 1, cols) <= Times(bottom, cols)
  {
    TimesNat(top, cols);
    TimesMore(top, cols);
    TimesMore(bottom - 1, cols);
    Ordered(top, bottom, cols);
    if top < bottom - 1 { Ordered(top, bottom - 1, cols); }
    if bottom < rows { Ordered(bottom, rows, cols); }
  }
}

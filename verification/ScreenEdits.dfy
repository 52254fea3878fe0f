/** The editing commands of control sequences, carried out on the screen. */
module ScreenEdits {
  import opened Rows
  import opened Pixels
  import opened TextView
  import opened RowEdits
  import opened Erasing
  import opened Screens

  /** Insert characters: moves each character right, from the end of the line. */
  method InsertBlanks(s: Screen, x: nat, y: nat, n: nat)
    requires s.Valid() && x < s.cols && y < s.rows
    modifies s`queueI, s`text, s`cursorX, s`cursorY, s.queue, s.slots
    ensures s.Valid() && Inserted(old(s.V()), s.V(), x, y, n)
    ensures s.cursorX == x && s.cursorY == y
  {
    ghost var v := s.V();
    InsertNothing(v, y, n);
    var i := s.cols - 1;
    while true
      invariant x <= i < s.cols && s.Valid() && Inserted(v, s.V(), i + 1, y, n)
      decreases i
    {
      InsertStep(v, s.V(), i, y, n);
      MoveAndBlank(s, i, y, n);
      if i == x {
        break;
      }
      i := i - 1;
    }
    ghost var w := s.V();
    s.SetCursorPos(x, y);
    InsertedCursor(v, w, s.V(), x, y, n);
  }

  /** One character moves right by `n` and leaves a space. */
  method MoveAndBlank(s: Screen, i: nat, y: nat, n: nat)
    requires s.Valid() && i < s.cols && y < s.rows
    modifies s`queueI, s`text, s`cursorX, s`cursorY, s.queue, s.slots
    ensures s.Valid() && s.V() == PutChar(SetCursor(MoveCell(old(s.V()), i + n, y, i, y), i, y), SPACE)
  {
    s.MoveCharacter(i + n, y, i, y);
    s.SetCursorPos(i, y);
    s.RawPutchar(SPACE);
  }

  /** The loop of a deletion; past the end of the line there is nothing to move. */
  method MoveTail(s: Screen, x: nat, y: nat, n: nat)
    requires s.Valid() && y < s.rows && x < s.cols
    modifies s`queueI, s`text, s.queue, s.slots
    ensures s.Valid() && MovedLeft(old(s.V()), s.V(), x, y, n, if x + n < s.cols then s.cols - n else x)
    ensures x + n >= s.cols ==> s.V() == old(s.V())
  {
    ghost var v, k := s.V(), x;
    var i := x + n;
    while i < s.cols
      invariant x <= k && i == k + n && (i <= s.cols || k == x) && s.Valid() && MovedLeft(v, s.V(), x, y, n, k)
      invariant x + n >= s.cols ==> s.V() == v
    {
      MoveLeftStep(v, s.V(), x, y, n, k);
      s.MoveCharacter(i - n, y, i, y);
      i, k := i + 1, k + 1;
    }
  }

  /** `n` spaces from the cursor on. */
  method PrintSpaces(s: Screen, n: nat)
    requires s.Valid()
    modifies s`queueI, s`text, s`cursorX, s`cursorY, s.queue, s.slots
    ensures s.Valid() && s.V() == Spaces(old(s.V()), n)
  {
    ghost var v := s.V();
    for i := 0 to n
      invariant s.Valid() && s.V() == Spaces(v, i)
    {
      s.RawPutchar(SPACE);
    }
  }

  method EraseChars(s: Screen, x: nat, y: nat, n: nat)
    requires s.Valid()
    modifies s`queueI, s`text, s`cursorX, s`cursorY, s.queue, s.slots
    ensures s.Valid() && s.V() == CharsErased(old(s.V()), x, y, n)
  {
    PrintSpaces(s, if n > s.cols then s.cols else n);
    s.SetCursorPos(x, y);
  }

  /** Delete characters: what follows moves up, and the line is blanked from where the
      start position, which wraps around, ends up. */
  method DeleteChars(s: Screen, x: nat, y: nat, n: nat)
    requires s.Valid() && x < s.cols && y < s.rows && n < 0x1_0000_0000
    modifies s`queueI, s`text, s`cursorX, s`cursorY, s.queue, s.slots
    ensures s.Valid() && s.cursorX == x && s.cursorY == y
    ensures n <= s.cols ==> Deleted(old(s.V()), s.V(), x, y, n)
    ensures n > s.cols ==> s.V() == CharsErased(old(s.V()).(x := DeleteStart(s.cols, n), y := y), x, y, n)
  {
    ghost var v := s.V();
    MoveTail(s, x, y, n);
    ghost var w := s.V();
    Ordered(0, s.rows, s.cols);
    if n > 0 { WrappedStart(s.cols, n); }
    s.SetCursorPos(WrapBelow(s.cols - n), y);
    ghost var u := s.V();
    EraseChars(s, x, y, n);
    if n <= s.cols {
      DeletedLine(v, w, u, s.V(), x, y, n);
    }
  }

  lemma {:induction false} DeletedLine(v: View, w: View, u: View, t: View, x: nat, y: nat, n: nat)
    requires Shaped(v) && x < v.cols && y < v.rows && n <= v.cols
    requires MovedLeft(v, w, x, y, n, if x + n < v.cols then v.cols - n else x)
    requires u == w.(x := u.x, y := y) && (n > 0 ==> u.x == v.cols - n) && (n == 0 ==> u.x <= v.cols)
             && t == CharsErased(u, x, y, n)
    ensures Deleted(v, t, x, y, n)
  {
    SpacesFit(u, n);
    ErasedFrom(w, u, t, Spaces(u, n), v.cols - n, u.x, y, n);
    MovedThenErased(v, w, t, x, y, n, if x + n < v.cols then v.cols - n else x);
  }

  /** Deleting more than a line blanks it, as far as 2^31 characters more; beyond that it
      blanks the last cell and as much of the next line as the spaces reach. */
  lemma {:induction false} DeletedMore(v: View, x: nat, y: nat, n: nat)
    requires Shaped(v) && !v.scrolling && x < v.cols < n && y < v.rows
    ensures var u := v.(x := DeleteStart(v.cols, n), y := y);
            var w := CharsErased(u, x, y, n);
            && (n - v.cols <= 0x8000_0000 ==> Erased(v, w, 0, y, v.cols))
            && (n - v.cols > 0x8000_0000 && v.cols > 1 ==> Spilled(u, w, v.cols))
  {
    var u := v.(x := DeleteStart(v.cols, n), y := y);
    var w := CharsErased(u, x, y, n);
    CharsErasedMeans(u, x, y, n);
    if n - v.cols <= 0x8000_0000 {
      ErasedFrom(v, u, w, w, 0, 0, y, v.cols);
    }
  }

  /** Makes room for one character at (x, y). */
  method MakeRoom(s: Screen, x: nat, y: nat)
    requires s.Valid() && x < s.cols && y < s.rows
    modifies s`queueI, s`text, s.queue, s.slots
    ensures s.Valid() && MovedRight(old(s.V()), s.V(), y, x)
  {
    ghost var v := s.V();
    var i := s.cols - 1;
    while true
      invariant x <= i < s.cols && s.Valid() && MovedRight(v, s.V(), y, i + 1)
      decreases i
    {
      MoveRightStep(v, s.V(), y, i);
      s.MoveCharacter(i + 1, y, i, y);
      if i == x {
        break;
      }
      i := i - 1;
    }
  }

  // ----- lines -----

  method DeleteLines(s: Screen, n: nat)
    requires s.Valid()
    modifies s`queueI, s`text, s.queue, s.slots
    ensures s.Valid() && s.V() == ScrollUpBy(old(s.V()), n)
  {
    ghost var v := s.V();
    for i := 0 to n
      invariant s.Valid() && s.V() == ScrollUpBy(v, i)
    {
      s.Scroll();
    }
  }

  // ----- erasing -----

  method EraseInLine(s: Screen, x: nat, y: nat, mode: nat)
    requires s.Valid() && x < s.cols && y < s.rows
    modifies s`queueI, s`text, s`cursorX, s`cursorY, s.queue, s.slots
    ensures s.Valid() && s.V() == LineErased(old(s.V()), x, y, mode)
  {
    if mode == 0 {
      PrintSpaces(s, s.cols - x);
      s.SetCursorPos(x, y);
    } else if mode == 1 {
      s.SetCursorPos(0, y);
      PrintSpaces(s, x);
    } else if mode == 2 {
      s.SetCursorPos(0, y);
      PrintSpaces(s, s.cols);
      s.SetCursorPos(x, y);
    }
  }

  method EraseInDisplay(s: Screen, x: nat, y: nat, mode: nat)
    requires s.Valid() && x < s.cols && y < s.rows
    modifies s`queueI, s`text, s`cursorX, s`cursorY, s.queue, s.slots
    ensures s.Valid() && s.V() == DisplayErased(old(s.V()), x, y, mode)
  {
    if mode == 0 {
      PrintSpaces(s, Cells(s.rows - (y + 1), s.cols) + (s.cols - (x + 1)) + 1);
      s.SetCursorPos(x, y);
    } else if mode == 1 {
      EraseUpTo(s, x, y);
    } else if mode == 2 || mode == 3 {
      s.ClearScreen(false);
    }
  }

  method EraseUpTo(s: Screen, x: nat, y: nat)
    requires s.Valid() && x < s.cols && y < s.rows
    modifies s`queueI, s`text, s`cursorX, s`cursorY, s.queue, s.slots
    ensures s.Valid() && s.V() == DisplayErased(old(s.V()), x, y, 1)
  {
    s.SetCursorPos(0, 0);
    ghost var v := s.V();
    var done, yc := false, 0;
    while yc < s.rows && !done
      invariant s.Valid() && yc <= s.rows && (!done ==> yc <= y && s.V() == Spaces(v, Cells(yc, s.cols)))
      invariant done ==> s.V() == SetCursor(Spaces(v, Cells(y, s.cols) + x + 1), x, y)
    {
      done := EraseRowUpTo(s, x, y, yc, v, Cells(yc, s.cols));
      TimesMore(yc, s.cols);
      yc := yc + 1;
    }
  }

  /** One row of spaces, or the part of it up to (x, y). */
  method EraseRowUpTo(s: Screen, x: nat, y: nat, yc: nat, ghost v: View, ghost n: nat) returns (done: bool)
    requires s.Valid() && x < s.cols && yc <= y < s.rows && v.bottom > 0 && v.cols == s.cols && v.rows == s.rows
    requires s.V() == Spaces(v, n)
    modifies s`queueI, s`text, s`cursorX, s`cursorY, s.queue, s.slots
    ensures s.Valid() && done == (yc == y)
    ensures s.V() == if done then SetCursor(Spaces(v, n + x + 1), x, y) else Spaces(v, n + s.cols)
  {
    done := false;
    var xc := 0;
    while xc < s.cols && !done
      invariant s.Valid() && xc <= s.cols
      invariant if done then yc == y && s.V() == SetCursor(Spaces(v, n + x + 1), x, y)
                else (yc < y || xc <= x) && s.V() == Spaces(v, n + xc)
      decreases s.cols - xc
    {
      done := EraseCellUpTo(s, x, y, xc, yc, v, n + xc);
      xc := xc + 1;
    }
  }

  /** One space, and the cursor put back after the last one. */
  method EraseCellUpTo(s: Screen, x: nat, y: nat, xc: nat, yc: nat, ghost v: View, ghost n: nat) returns (done: bool)
    requires s.Valid() && x < s.cols && y < s.rows && v.bottom > 0 && v.cols == s.cols && v.rows == s.rows
    requires s.V() == Spaces(v, n)
    modifies s`queueI, s`text, s`cursorX, s`cursorY, s.queue, s.slots
    ensures s.Valid() && done == (xc == x && yc == y)
    ensures s.V() == if done then SetCursor(Spaces(v, n + 1), x, y) else Spaces(v, n + 1)
  {
    s.RawPutchar(SPACE);
    done := xc == x && yc == y;
    if done {
      s.SetCursorPos(x, y);
    }
  }

  /** A `size_t` difference. */
  function WrapBelow(x: int): (r: nat)
    requires x > -SIZE_LIMIT
    ensures x >= 0 ==> r == x
  {
    if x < 0 then x + SIZE_LIMIT else x
  }
}

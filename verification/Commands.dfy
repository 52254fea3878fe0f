/** What the commands of control sequences mean for the text screen. */
module Commands {
  import opened Rows
  import opened Pixels
  import opened TextView
  import opened RowEdits
  import opened Erasing
  import opened Rendering

  const WORD := 0x1_0000_0000

  /** The cursor as commands see it. */
  function CursorX(v: View): int { if v.x >= v.cols then v.cols - 1 else v.x }

  function CursorY(v: View): int { if v.y >= v.rows then v.rows - 1 else v.y }

  /** The first two parameters, how many were given, and the remembered cursor. */
  datatype Args = Args(n: Word32, m: Word32, count: nat, sx: nat, sy: nat)

  // ----- moving the cursor -----

  predicate CursorByte(c: char) {
    c in {'A', 'F', 'B', 'e', 'E', 'a', 'C', 'D', 'd', 'G', '`', 'H', 'f', 'u'}
  }

  /** `n` rows up, but from inside the scroll region no further than its top. */
  function RowAbove(y: nat, n: nat, top: nat): nat {
    if y >= top && n > y - top then top else if n > y then 0 else y - n
  }

  /** `n` rows down on the screen; reaching the row below the scroll region, or starting
      on it, ends on the region's last row. */
  function RowBelow(y: nat, n: nat, bottom: nat, rows: nat): nat
    requires 0 < bottom && 0 < rows
  {
    var dest := if y + n > rows - 1 then rows - 1 else y + n;
    if y <= bottom <= dest then bottom - 1 else dest
  }

  /** Moving down never moves up, except from the row just below the scroll region. */
  lemma {:induction false} DownMovesDown(y: nat, n: nat, bottom: nat, rows: nat)
    requires 0 < bottom <= rows && y < rows
    ensures RowBelow(y, n, bottom, rows) >= y <==> y != bottom
  {
  }

  /** A row or column counted from one. */
  function Back1(v: nat): nat { if v == 0 then 0 else v - 1 }

  /** A parameter less one; zero wraps to the largest word. */
  function Less1(v: Word32): Word32 { if v == 0 then WORD - 1 else v - 1 }

  function AtMost(v: nat, limit: nat): nat
    requires limit > 0
  {
    if v >= limit then limit - 1 else v
  }

  ghost predicate Sized(v: View) { v.rows > 0 && v.cols > 0 && v.bottom > 0 }

  /** Where a cursor command leads. */
  function CursorMoved(c: char, v: View, a: Args): View
    requires v.rows > 0 && v.cols > 0 && v.bottom > 0
  {
    var x, y := CursorX(v), CursorY(v);
    if c == 'A' || c == 'F' then SetCursor(v, if c == 'F' then 0 else x, RowAbove(y, a.n, v.top))
    else if c == 'B' || c == 'e' || c == 'E' then
      SetCursor(v, if c == 'E' then 0 else x, RowBelow(y, a.n, v.bottom, v.rows))
    else if c == 'C' || c == 'a' then SetCursor(v, AtMost(x + a.n, v.cols), y)
    else if c == 'D' then SetCursor(v, if a.n > x then 0 else x - a.n, y)
    else if c == 'd' then SetCursor(v, x, AtMost(Less1(a.n), v.rows))
    else if c == 'G' || c == '`' then SetCursor(v, AtMost(Less1(a.n), v.cols), y)
    else if c == 'H' || c == 'f' then SetCursor(v, AtMost(Back1(a.m), v.cols), AtMost(Back1(a.n), v.rows))
    else if c == 'u' then SetCursor(v, a.sx, a.sy)
    else v
  }

  /** Every cursor command leaves the text alone and the cursor on the screen. */
  lemma {:induction false} CursorStaysOn(c: char, v: View, a: Args)
    requires Shaped(v) && CursorByte(c)
    ensures var w := CursorMoved(c, v, a);
            w == v.(x := w.x, y := w.y) && w.x < v.cols && w.y < v.rows
  {
  }

  /** The relative movements: which coordinate changes, which way and how far. A movement
      falls short only at the edge of the screen or at the margin of the scroll region. */
  lemma {:induction false} MovesBy(v: View, a: Args)
    requires Shaped(v) && v.x < v.cols && v.y < v.rows
    ensures var r := CursorMoved('C', v, a);
            r.y == v.y && v.x <= r.x <= v.x + a.n && (r.x == v.x + a.n || r.x == v.cols - 1)
    ensures var l := CursorMoved('D', v, a);
            l.y == v.y && v.x - a.n <= l.x <= v.x && (l.x == v.x - a.n || l.x == 0)
    ensures var u := CursorMoved('A', v, a);
            u.x == v.x && v.y - a.n <= u.y <= v.y && (u.y == v.y - a.n || u.y == if v.y >= v.top then v.top else 0)
    ensures var d := CursorMoved('B', v, a);
            && d.x == v.x && (v.y != v.bottom ==> v.y <= d.y <= v.y + a.n)
            && (d.y == v.y + a.n || d.y == if v.y <= v.bottom < v.rows then v.bottom - 1 else v.rows - 1)
  {
  }

  /** The same movements under other names, and those that also return to the first
      column. */
  lemma {:induction false} MovesAlike(v: View, a: Args)
    requires Shaped(v)
    ensures CursorMoved('a', v, a) == CursorMoved('C', v, a) && CursorMoved('e', v, a) == CursorMoved('B', v, a)
    ensures CursorMoved('F', v, a) == CursorMoved('A', v, a).(x := 0)
    ensures CursorMoved('E', v, a) == CursorMoved('B', v, a).(x := 0)
    ensures CursorMoved('`', v, a) == CursorMoved('G', v, a) && CursorMoved('f', v, a) == CursorMoved('H', v, a)
  {
  }

  /** Right and then left by the same distance returns exactly when there is room on the
      line, or from the first column. */
  lemma {:induction false} RightThenLeft(v: View, a: Args)
    requires Shaped(v) && v.x < v.cols && v.y < v.rows
    ensures CursorMoved('D', CursorMoved('C', v, a), a) == v <==> v.x + a.n < v.cols || v.x == 0
    ensures CursorMoved('C', CursorMoved('D', v, a), a) == v <==> a.n <= v.x || v.x == v.cols - 1
  {
  }

  /** Down and then up by the same distance returns inside the scroll region. */
  lemma {:induction false} DownThenUp(v: View, a: Args)
    requires Shaped(v) && v.x < v.cols && v.top <= v.y
    ensures v.y + a.n < v.bottom ==> CursorMoved('A', CursorMoved('B', v, a), a) == v
    ensures v.y < v.bottom && a.n <= v.y - v.top ==> CursorMoved('B', CursorMoved('A', v, a), a) == v
  {
  }

  /** The absolute positions count from one. A column or a row of zero alone means the
      last one. */
  lemma {:induction false} MovesTo(v: View, a: Args)
    requires Shaped(v) && v.x < v.cols < WORD && v.y < v.rows < WORD
    ensures var g := CursorMoved('G', v, a);
            g.y == v.y && (if 1 <= a.n <= v.cols then g.x + 1 == a.n else g.x == v.cols - 1)
    ensures var d := CursorMoved('d', v, a);
            d.x == v.x && (if 1 <= a.n <= v.rows then d.y + 1 == a.n else d.y == v.rows - 1)
    ensures var h := CursorMoved('H', v, a);
            && (if a.n == 0 then h.y == 0 else if a.n <= v.rows then h.y + 1 == a.n else h.y == v.rows - 1)
            && (if a.m == 0 then h.x == 0 else if a.m <= v.cols then h.x + 1 == a.m else h.x == v.cols - 1)
    ensures a.sx < v.cols && a.sy < v.rows ==> CursorMoved('u', v, a) == v.(x := a.sx, y := a.sy)
  {
  }

  // ----- editing -----

  predicate EditByte(c: char) { c in {'@', 'P', 'X', 'M', 'L', 'J', 'K'} }

  /** What an editing command makes of the screen. */
  ghost predicate EditDone(c: char, v: View, w: View, n: nat)
    requires Sized(v)
  {
    var x, y := CursorX(v), CursorY(v);
    && (c == '@' ==> Inserted(v, w, x, y, n) && w.x == x && w.y == y)
    && (c == 'P' && n <= v.cols ==> Deleted(v, w, x, y, n) && w.x == x && w.y == y)
    && (c == 'P' && n > v.cols ==> w == CharsErased(v.(x := DeleteStart(v.cols, n), y := y), x, y, n))
    && (c == 'X' ==> w == CharsErased(v, x, y, n))
    && (c == 'M' ==> w == ScrollUpBy(v, Limited(n, v.rows)))
    && (c == 'L' ==> w == ScrollDownBy(v.(top := y), Limited(n, v.rows)).(top := v.top))
    && (c == 'J' ==> w == DisplayErased(v, x, y, n))
    && (c == 'K' ==> w == LineErased(v, x, y, n))
  }

  /** Deleting lines moves the scroll region up from its top, and inserting them moves its
      rows from the cursor's down. Below the region inserting blanks the cursor's row. */
  lemma {:induction false} LinesEdited(c: char, v: View, w: View, n: nat, cx: nat, cy: nat)
    requires Shaped(v) && v.y < v.rows && cx < v.cols && cy < v.rows && EditDone(c, v, w, n) && (c == 'M' || c == 'L')
    ensures w == v.(text := w.text)
    ensures var blank := Cell(0x20, v.fg, v.bg);
            && (c == 'M' ==>
                  At(w, cx, cy) == if !(v.top <= cy < v.bottom) then At(v, cx, cy)
                                   else if cy + n < v.bottom then At(v, cx, cy + n) else blank)
            && (c == 'L' && v.y < v.bottom ==>
                  At(w, cx, cy) == if !(v.y <= cy < v.bottom) then At(v, cx, cy)
                                   else if v.y + n <= cy then At(v, cx, cy - n) else blank)
            && (c == 'L' && v.y >= v.bottom ==> At(w, cx, cy) == if cy == v.y && n > 0 then blank else At(v, cx, cy))
  {
    var k := Limited(n, v.rows);
    if c == 'M' {
      ScrollByShape(v, k);
      ScrolledRows(v, k, cx, cy);
    } else {
      var u := v.(top := v.y);
      ScrollByShape(u, k);
      assert At(w, cx, cy) == At(ScrollDownBy(u, k), cx, cy);
      assert At(u, cx, cy) == At(v, cx, cy) && (k <= cy ==> At(u, cx, cy - k) == At(v, cx, cy - k));
      if v.y < v.bottom {
        ScrolledDownRows(u, k, cx, cy);
      } else {
        ScrolledBelow(u, k, cx, cy);
      }
    }
  }

  // ----- the rest -----

  predicate OtherByte(c: char) { c in {'m', 's', 'r', 'l', 'h', 'c', 'n', 'q', ']'} }

  /** The scroll region asked for, if it is at least two rows inside the screen, or else
      the whole screen. */
  function Region(a: Args, rows: nat): (r: (nat, nat)) {
    var top := if a.count > 0 then Back1(a.n) else 0;
    var bottom := if a.count > 1 then (if a.m == 0 then 1 else a.m) else rows;
    if top + 1 < bottom <= rows then (top, bottom) else (0, rows)
  }

  /** A region of rows `n` to `m`, counted from one, is adopted exactly when it is at
      least two rows inside the screen; otherwise the whole screen is. */
  lemma {:induction false} RegionAdopted(a: Args, rows: nat)
    requires rows > 0
    ensures a.count >= 2 && a.n >= 1 && a.m >= 1 ==>
              (Region(a, rows) == ((a.n - 1) as nat, a.m) <==> a.n < a.m <= rows || (a.n == 1 && a.m == rows))
              && (Region(a, rows) == (0, rows) || Region(a, rows) == ((a.n - 1) as nat, a.m))
    ensures a.count == 1 && a.n >= 1 ==>
              Region(a, rows) == if a.n < rows then ((a.n - 1) as nat, rows) else (0, rows)
    ensures a.count == 0 ==> Region(a, rows) == (0, rows)
    ensures Region(a, rows).0 < Region(a, rows).1 <= rows
  {
  }

  ghost predicate OtherDone(c: char, v: View, w: View, a: Args)
    requires Sized(v)
  {
    && (c == 'r' ==> w == SetCursor(v.(top := Region(a, v.rows).0, bottom := Region(a, v.rows).1), 0, 0))
    && (c == 'm' ==> w == v.(fg := w.fg, bg := w.bg))
    && (c != 'r' && c != 'm' ==> w == v)
  }

  predicate IsCommand(c: char) { CursorByte(c) || EditByte(c) || OtherByte(c) }

  /** What a command makes of the screen while scrolling is off. */
  ghost predicate Commanded(c: char, v: View, w: View, a: Args)
    requires Sized(v)
  {
    && (CursorByte(c) ==> w == CursorMoved(c, v, a))
    && (EditByte(c) ==> EditDone(c, v, w, a.n))
    && (OtherByte(c) ==> OtherDone(c, v, w, a))
  }

  function Quiet(v: View): View { v.(scrolling := false) }

  /** A missing parameter's value. */
  function Missing(c: char): Word32 { if c == 'J' || c == 'K' || c == 'q' then 0 else 1 }

  // ----- inserting and deleting -----

  ghost predicate Restored(v: View, u: View, n: nat) {
    && u.rows == v.rows && u.cols == v.cols
    && forall cx: nat, cy: nat {:trigger At(u, cx, cy)} :: cx < v.cols && cy < v.rows ==>
         At(u, cx, cy) == if cy == CursorY(v) && cx >= v.cols - n then Empty(v) else At(v, cx, cy)
  }

  /** Inserting and then deleting at the same cursor restores every cell but the last
      `n`, which are blank. */
  lemma {:induction false} InsertDeleteRestores(v: View, w: View, u: View, n: nat)
    requires Shaped(v) && 1 <= n <= v.cols - CursorX(v) && Sized(w)
    requires EditDone('@', v, w, n) && EditDone('P', w, u, n)
    ensures Restored(v, u, n)
  {
    forall cx: nat, cy: nat | cx < v.cols && cy < v.rows
      ensures At(u, cx, cy) == if cy == CursorY(v) && cx >= v.cols - n then Empty(v) else At(v, cx, cy)
    {
      InsertThenDelete(v, w, u, CursorX(v), CursorY(v), n, cx, cy);
    }
  }

  lemma {:induction false} RestoredAside(v: View, u: View, n: nat)
    requires Restored(Quiet(v), Quiet(u), n)
    ensures Restored(v, u, n)
  {
    forall cx: nat, cy: nat | cx < v.cols && cy < v.rows
      ensures At(u, cx, cy) == if cy == CursorY(v) && cx >= v.cols - n then Empty(v) else At(v, cx, cy)
    {
      assert At(Quiet(u), cx, cy) == At(u, cx, cy) && At(Quiet(v), cx, cy) == At(v, cx, cy);
    }
  }
}

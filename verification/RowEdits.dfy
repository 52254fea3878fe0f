/** What inserting, deleting and erasing characters does to a row. */
module RowEdits {
  import opened Rows
  import opened Pixels
  import opened TextView

  /** Two views that differ at most in their text and their cursor. */
  ghost predicate Alike(v: View, w: View) {
    w == v.(text := w.text, x := w.x, y := w.y) && |w.text| == |v.text|
  }

  /** Printing on a line that is not full. */
  lemma {:induction false} PrintInside(v: View, c: Glyph)
    requires Shaped(v) && v.x < v.cols && v.y < v.rows
    ensures var w := PutChar(v, c);
            Alike(v, w) && w.x == v.x + 1 && w.y == v.y
              && w.text == Put(v.rows, v.cols, v.text, v.x, v.y, Cell(c, v.fg, v.bg))
  {
  }

  // ----- inserting -----

  /** The cell at (cx, cy) after inserting `n` blanks at (x, y). Inserting none blanks
      the rest of the row. */
  function InsertedCell(v: View, x: nat, y: nat, n: nat, cx: nat, cy: nat): Cell {
    if cy != y || cx < x then At(v, cx, cy)
    else if n == 0 || cx < x + n then Empty(v)
    else At(v, cx - n, y)
  }

  ghost predicate Inserted(v: View, w: View, x: nat, y: nat, n: nat) {
    && Alike(v, w)
    && forall cx: nat, cy: nat {:trigger At(w, cx, cy)} :: cx < v.cols && cy < v.rows ==>
         At(w, cx, cy) == InsertedCell(v, x, y, n, cx, cy)
  }

  lemma {:induction false} InsertNothing(v: View, y: nat, n: nat)
    ensures Inserted(v, v, v.cols, y, n)
  {
  }

  /** The loop's step: the character moves right and leaves a blank behind. */
  lemma {:induction false} InsertStep(v: View, w: View, i: nat, y: nat, n: nat)
    requires Shaped(v) && i < v.cols && y < v.rows && Inserted(v, w, i + 1, y, n)
    ensures Inserted(v, PutChar(SetCursor(MoveCell(w, i + n, y, i, y), i, y), SPACE), i, y, n)
  {
    var w1 := MoveCell(w, i + n, y, i, y);
    var w2 := SetCursor(w1, i, y);
    PrintInside(w2, SPACE);
    var w3 := PutChar(w2, SPACE);
    forall cx: nat, cy: nat | cx < v.cols && cy < v.rows
      ensures At(w3, cx, cy) == InsertedCell(v, i, y, n, cx, cy)
    {
      PutCell(w2, w3, i, y, Empty(v), cx, cy);
      if i + n < v.cols { PutCell(w, w1, i + n, y, At(w, i, y), cx, cy); }
      assert At(w2, cx, cy) == At(w1, cx, cy);
      assert At(w, cx, cy) == InsertedCell(v, i + 1, y, n, cx, cy);
      assert At(w, i, y) == InsertedCell(v, i + 1, y, n, i, y);
    }
  }

  lemma {:induction false} InsertedCursor(v: View, w: View, w': View, x: nat, y: nat, n: nat)
    requires Inserted(v, w, x, y, n) && Alike(w, w') && w'.text == w.text
    ensures Inserted(v, w', x, y, n)
  {
    forall cx: nat, cy: nat | cx < v.cols && cy < v.rows
      ensures At(w', cx, cy) == InsertedCell(v, x, y, n, cx, cy)
    {
      assert At(w, cx, cy) == InsertedCell(v, x, y, n, cx, cy);
    }
  }

  /** The characters of row `y` after `k` have been replaced by their left neighbours. */
  ghost predicate MovedRight(v: View, w: View, y: nat, k: nat) {
    && Alike(v, w)
    && forall cx: nat, cy: nat {:trigger At(w, cx, cy)} :: cx < v.cols && cy < v.rows ==>
         At(w, cx, cy) == RightCell(v, y, k, cx, cy)
  }

  function RightCell(v: View, y: nat, k: nat, cx: nat, cy: nat): Cell {
    if cy == y && cx > k then At(v, cx - 1, y) else At(v, cx, cy)
  }

  lemma {:induction false} MoveRightStep(v: View, w: View, y: nat, i: nat)
    requires Shaped(v) && y < v.rows && i < v.cols && MovedRight(v, w, y, i + 1)
    ensures MovedRight(v, MoveCell(w, i + 1, y, i, y), y, i)
  {
    var w1 := MoveCell(w, i + 1, y, i, y);
    forall cx: nat, cy: nat | cx < v.cols && cy < v.rows
      ensures At(w1, cx, cy) == RightCell(v, y, i, cx, cy)
    {
      if i + 1 < v.cols { PutCell(w, w1, i + 1, y, At(w, i, y), cx, cy); }
      assert At(w, cx, cy) == RightCell(v, y, i + 1, cx, cy);
      assert At(w, i, y) == At(v, i, y);
    }
  }

  // ----- erasing -----

  ghost predicate Erased(v: View, w: View, x: nat, y: nat, n: nat) {
    && Alike(v, w)
    && forall cx: nat, cy: nat {:trigger At(w, cx, cy)} :: cx < v.cols && cy < v.rows ==>
         At(w, cx, cy) == ErasedCell(v, x, y, n, cx, cy)
  }

  function ErasedCell(v: View, x: nat, y: nat, n: nat, cx: nat, cy: nat): Cell {
    if cy == y && x <= cx < x + n then Empty(v) else At(v, cx, cy)
  }

  /** `n` spaces printed one after the other. */
  function Spaces(v: View, n: nat): (r: View)
    requires v.bottom > 0 && v.cols > 0
    ensures r.bottom == v.bottom && r.cols == v.cols && r.rows == v.rows
  {
    if n == 0 then v else PutChar(Spaces(v, n - 1), SPACE)
  }

  lemma {:induction false} SpacesSum(v: View, a: nat, b: nat)
    requires v.bottom > 0 && v.cols > 0
    ensures Spaces(v, a + b) == Spaces(Spaces(v, a), b)
    decreases b
  {
    if b > 0 { SpacesSum(v, a, b - 1); }
  }

  lemma {:induction false} EraseStep(v: View, w: View, x: nat, y: nat, n: nat)
    requires Shaped(v) && y < v.rows && x + n < v.cols && Erased(v, w, x, y, n) && w.x == x + n && w.y == y
    ensures Erased(v, PutChar(w, SPACE), x, y, n + 1) && PutChar(w, SPACE).x == x + n + 1 && PutChar(w, SPACE).y == y
  {
    PrintInside(w, SPACE);
    var w1 := PutChar(w, SPACE);
    forall cx: nat, cy: nat | cx < v.cols && cy < v.rows
      ensures At(w1, cx, cy) == ErasedCell(v, x, y, n + 1, cx, cy)
    {
      PutCell(w, w1, x + n, y, Empty(v), cx, cy);
      assert At(w, cx, cy) == ErasedCell(v, x, y, n, cx, cy);
    }
  }

  /** Spaces that fit on the line blank a stretch of it. */
  lemma {:induction false} SpacesFit(v: View, n: nat)
    requires Shaped(v) && v.y < v.rows && v.x + n <= v.cols
    ensures Erased(v, Spaces(v, n), v.x, v.y, n) && Spaces(v, n).x == v.x + n && Spaces(v, n).y == v.y
    decreases n
  {
    if n > 0 {
      SpacesFit(v, n - 1);
      EraseStep(v, Spaces(v, n - 1), v.x, v.y, n - 1);
    }
  }

  /** The row a full line continues on. */
  function RowAfter(v: View): nat
    requires v.cols > 0
  {
    if v.y + 1 >= v.cols then v.cols - 1 else v.y + 1
  }

  /** With scrolling off a full line is left from above the last row of the region. */
  predicate Leaves(v: View) { v.x >= v.cols && v.y + 1 < v.bottom && !v.scrolling }

  lemma {:induction false} SpacesWrap(v: View, n: nat)
    requires Shaped(v) && Leaves(v) && n > 0
    ensures Spaces(v, n) == Spaces(v.(x := 0, y := RowAfter(v)), n)
    decreases n
  {
    var u := v.(x := 0, y := RowAfter(v));
    if n > 1 {
      SpacesWrap(v, n - 1);
    } else {
      assert Spaces(v, 0) == v && Spaces(u, 0) == u;
      assert NextLine(v) == u;
    }
  }

  /** With no line to go on to, spaces past the end of a line are lost. */
  lemma {:induction false} SpacesLost(v: View, n: nat)
    requires Shaped(v) && v.x >= v.cols && v.y + 1 >= v.bottom && !v.scrolling
    ensures Spaces(v, n) == v.(x := v.x + n)
    decreases n
  {
    if n > 0 { SpacesLost(v, n - 1); }
  }

  /** Where the cursor stood does not matter. */
  lemma {:induction false} ErasedFrom(v: View, v': View, w: View, w': View, x: nat, x': nat, y: nat, n: nat)
    requires Alike(v, v') && v'.text == v.text && Erased(v', w', x', y, n) && (n == 0 || x == x')
    requires Alike(w', w) && w.text == w'.text
    ensures Erased(v, w, x, y, n)
  {
    forall cx: nat, cy: nat | cx < v.cols && cy < v.rows
      ensures At(w, cx, cy) == ErasedCell(v, x, y, n, cx, cy)
    {
      assert At(v', cx, cy) == At(v, cx, cy);
      assert At(w', cx, cy) == At(w, cx, cy);
    }
  }

  // ----- deleting -----

  /** The characters of row `y` from `x` up to `k` have been replaced by those `n` on. */
  ghost predicate MovedLeft(v: View, w: View, x: nat, y: nat, n: nat, k: nat) {
    && Alike(v, w)
    && forall cx: nat, cy: nat {:trigger At(w, cx, cy)} :: cx < v.cols && cy < v.rows ==>
         At(w, cx, cy) == MovedCell(v, x, y, n, k, cx, cy)
  }

  function MovedCell(v: View, x: nat, y: nat, n: nat, k: nat, cx: nat, cy: nat): Cell {
    if cy == y && x <= cx < k then At(v, cx + n, y) else At(v, cx, cy)
  }

  lemma {:induction false} MoveLeftStep(v: View, w: View, x: nat, y: nat, n: nat, k: nat)
    requires Shaped(v) && y < v.rows && x <= k && k + n < v.cols && MovedLeft(v, w, x, y, n, k)
    ensures MovedLeft(v, MoveCell(w, k, y, k + n, y), x, y, n, k + 1)
  {
    var w1 := MoveCell(w, k, y, k + n, y);
    forall cx: nat, cy: nat | cx < v.cols && cy < v.rows
      ensures At(w1, cx, cy) == MovedCell(v, x, y, n, k + 1, cx, cy)
    {
      PutCell(w, w1, k, y, At(w, k + n, y), cx, cy);
      assert At(w, cx, cy) == MovedCell(v, x, y, n, k, cx, cy);
      assert At(w, k + n, y) == At(v, k + n, y);
    }
  }

  /** The cell at (cx, cy) after deleting `n` characters at (x, y). The last `n` cells
      of the row become blank, even those before `x`. */
  function DeletedCell(v: View, x: nat, y: nat, n: nat, cx: nat, cy: nat): Cell {
    if cy != y then At(v, cx, cy)
    else if cx + n >= v.cols then Empty(v)
    else if cx >= x then At(v, cx + n, y)
    else At(v, cx, cy)
  }

  ghost predicate Deleted(v: View, w: View, x: nat, y: nat, n: nat) {
    && Alike(v, w)
    && forall cx: nat, cy: nat {:trigger At(w, cx, cy)} :: cx < v.cols && cy < v.rows ==>
         At(w, cx, cy) == DeletedCell(v, x, y, n, cx, cy)
  }

  lemma {:induction false} MovedThenErased(v: View, w: View, u: View, x: nat, y: nat, n: nat, k: nat)
    requires n <= v.cols && k == (if x + n < v.cols then v.cols - n else x)
    requires MovedLeft(v, w, x, y, n, k) && Erased(w, u, v.cols - n, y, n)
    ensures Deleted(v, u, x, y, n)
  {
    forall cx: nat, cy: nat | cx < v.cols && cy < v.rows
      ensures At(u, cx, cy) == DeletedCell(v, x, y, n, cx, cy)
    {
      assert At(w, cx, cy) == MovedCell(v, x, y, n, k, cx, cy);
      assert At(u, cx, cy) == if cy == y && v.cols - n <= cx < v.cols - n + n then Empty(w) else At(w, cx, cy);
    }
  }

  // ----- the two together -----

  /** Deleting what was inserted restores every cell but the last `n`, which are blank. */
  lemma {:induction false} InsertThenDelete(v: View, w: View, u: View, x: nat, y: nat, n: nat, cx: nat, cy: nat)
    requires Shaped(v) && x < v.cols && y < v.rows && 1 <= n <= v.cols - x && cx < v.cols && cy < v.rows
    requires Inserted(v, w, x, y, n) && Deleted(w, u, x, y, n)
    ensures At(u, cx, cy) == if cy == y && cx >= v.cols - n then Empty(v) else At(v, cx, cy)
  {
    assert At(u, cx, cy) == DeletedCell(w, x, y, n, cx, cy);
    assert At(w, cx, cy) == InsertedCell(v, x, y, n, cx, cy);
    if cx + n < v.cols { assert At(w, cx + n, y) == InsertedCell(v, x, y, n, cx + n, y); }
  }

  /** Insertion shifts the tail, except that inserting nothing wipes it out: the tail is
      as it was exactly when it was blank already. */
  lemma {:induction false} InsertZero(v: View, w: View, x: nat, y: nat)
    requires y < v.rows && Inserted(v, w, x, y, 0)
    ensures (forall cx: nat {:trigger At(w, cx, y)} :: cx < v.cols ==> At(w, cx, y) == At(v, cx, y))
            <==> forall cx: nat {:trigger At(v, cx, y)} :: x <= cx < v.cols ==> At(v, cx, y) == Empty(v)
  {
    forall cx: nat | cx < v.cols
      ensures At(w, cx, y) == if cx < x then At(v, cx, y) else Empty(v)
    {
      assert At(w, cx, y) == InsertedCell(v, x, y, 0, cx, y);
    }
    if forall cx: nat {:trigger At(w, cx, y)} :: cx < v.cols ==> At(w, cx, y) == At(v, cx, y) {
      forall cx: nat | x <= cx < v.cols
        ensures At(v, cx, y) == Empty(v)
      {
        assert At(w, cx, y) == At(v, cx, y);
      }
    }
  }

  /** Deletion leaves the characters before the cursor alone exactly when it asks for no
      more than are there, or the ones it reaches are blank already. */
  lemma {:induction false} DeleteKeepsLeft(v: View, w: View, x: nat, y: nat, n: nat)
    requires x <= v.cols && n <= v.cols && y < v.rows && Deleted(v, w, x, y, n)
    ensures (forall cx: nat {:trigger At(w, cx, y)} :: cx < x ==> At(w, cx, y) == At(v, cx, y))
            <==> (n <= v.cols - x || forall cx: nat {:trigger At(v, cx, y)} :: v.cols - n <= cx < x ==>
                At(v, cx, y) == Empty(v))
  {
    forall cx: nat | cx < x
      ensures At(w, cx, y) == if cx + n >= v.cols then Empty(v) else At(v, cx, y)
    {
      assert At(w, cx, y) == DeletedCell(v, x, y, n, cx, y);
    }
    if forall cx: nat {:trigger At(w, cx, y)} :: cx < x ==> At(w, cx, y) == At(v, cx, y) {
      forall cx: nat | v.cols - n <= cx < x
        ensures At(v, cx, y) == Empty(v)
      {
        assert At(w, cx, y) == At(v, cx, y);
      }
    }
  }
}

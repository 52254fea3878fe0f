/** The queue of changed cells, the map from cells to queue items and the grid of
    drawn cells: when they agree, and what each step does to the text they stand for. */
module DrawQueue {
  import opened Rows
  import opened Pixels
  import opened TextView
  import opened Framebuffers

  datatype Item = Item(c: Cell, x: nat, y: nat)

  /** A map entry without a queue item. */
  const NONE := -1

  function Place(cols: nat, q: Item): int { Index(cols, q.x, q.y) }

  /** Cell `i` of the text is the queued one if there is one, or else the drawn one. */
  predicate CellOk(grid: seq<Cell>, queue: seq<Item>, map_: seq<int>, n: nat, cols: nat, text: seq<Cell>, i: int)
    requires |grid| == |map_| == |text| && n <= |queue| && 0 <= i < |text|
  {
    || (map_[i] == NONE && text[i] == grid[i])
    || (0 <= map_[i] < n && Place(cols, queue[map_[i]]) == i && text[i] == queue[map_[i]].c)
  }

  /** Queue item `k` is the one its cell is mapped to. */
  predicate ItemOk(queue: seq<Item>, map_: seq<int>, cols: nat, rows: nat, k: int)
    requires 0 <= k < |queue| && |map_| == Times(rows, cols)
  {
    && queue[k].x < cols && queue[k].y < rows
    && (0 <= Place(cols, queue[k]) < |map_| && map_[Place(cols, queue[k])] == k)
  }

  ghost predicate Consistent(grid: seq<Cell>, queue: seq<Item>, map_: seq<int>, n: nat, rows: nat, cols: nat,
                             text: seq<Cell>) {
    && |grid| == |map_| == |text| == |queue| == Times(rows, cols) && n <= |queue|
    && (forall i {:trigger CellOk(grid, queue, map_, n, cols, text, i)} :: 0 <= i < |text| ==>
         CellOk(grid, queue, map_, n, cols, text, i))
    && (forall k {:trigger ItemOk(queue, map_, cols, rows, k)} :: 0 <= k < n ==> ItemOk(queue, map_, cols, rows, k))
  }

  // ----- room in the queue -----

  predicate Distinct(s: seq<int>, bound: int) {
    && (forall i :: 0 <= i < |s| ==> 0 <= s[i] < bound)
    && (forall i, j :: 0 <= i < j < |s| ==> s[i] != s[j])
  }

  function Below(n: nat): set<int> { if n == 0 then {} else Below(n - 1) + {n - 1} }

  lemma {:induction false} BelowIs(n: nat)
    ensures |Below(n)| == n && forall i :: i in Below(n) <==> 0 <= i < n
  {
    if n > 0 { BelowIs(n - 1); }
  }

  /** Distinct numbers below `n` are at most `n`. */
  lemma {:induction false} Pigeonhole(s: seq<int>, n: nat)
    requires Distinct(s, n)
    ensures |s| <= n
  {
    Elements(s);
    BelowIs(n);
    Subset((set x | x in s), Below(n));
  }

  lemma {:induction false} Subset(a: set<int>, b: set<int>)
    requires a <= b
    ensures |a| <= |b|
  {
    assert b == a + (b - a);
  }

  lemma {:induction false} Elements(s: seq<int>)
    requires forall i, j :: 0 <= i < j < |s| ==> s[i] != s[j]
    ensures |(set x | x in s)| == |s|
  {
    if s != [] {
      var m := |s| - 1;
      Elements(s[..m]);
      assert s == s[..m] + [s[m]];
      assert (set x | x in s) == (set x | x in s[..m]) + {s[m]};
    }
  }

  /** No two queue items name the same cell. */
  lemma {:induction false} ItemsDistinct(queue: seq<Item>, map_: seq<int>, cols: nat, rows: nat, j: int, k: int)
    requires 0 <= j < |queue| && 0 <= k < |queue| && |map_| == Times(rows, cols)
    requires ItemOk(queue, map_, cols, rows, j) && ItemOk(queue, map_, cols, rows, k)
    ensures Place(cols, queue[j]) == Place(cols, queue[k]) <==> j == k
  {
  }

  /** So the queue never holds more items than there are cells, and has room for a cell
      that is not queued. */
  lemma {:induction false} QueueRoom(grid: seq<Cell>, queue: seq<Item>, map_: seq<int>, n: nat, rows: nat, cols: nat,
                                     text: seq<Cell>, i: int)
    requires Consistent(grid, queue, map_, n, rows, cols, text) && 0 <= i < |map_| && map_[i] == NONE
    ensures n < Times(rows, cols)
  {
    var places := seq(n, k requires 0 <= k < n => Place(cols, queue[k]));
    forall k | 0 <= k < n
      ensures 0 <= places[k] < |map_| && map_[places[k]] == k
    {
      assert ItemOk(queue, map_, cols, rows, k);
    }
    var all := places + [i];
    assert Distinct(all, |map_|);
    Pigeonhole(all, |map_|);
  }

  // ----- queueing a cell -----

  /** A cell that is neither queued nor different stays as it is. */
  lemma {:induction false} PushSame(grid: seq<Cell>, queue: seq<Item>, map_: seq<int>, n: nat, rows: nat, cols: nat,
                                    text: seq<Cell>, i: int, c: Cell)
    requires Consistent(grid, queue, map_, n, rows, cols, text) && 0 <= i < |text| && map_[i] == NONE && grid[i] == c
    ensures text[i := c] == text
  {
    assert CellOk(grid, queue, map_, n, cols, text, i);
  }

  lemma {:induction false} PushNew(grid: seq<Cell>, queue: seq<Item>, map_: seq<int>, n: nat, rows: nat, cols: nat,
                                   text: seq<Cell>, x: nat, y: nat, i: int, c: Cell)
    requires Consistent(grid, queue, map_, n, rows, cols, text) && x < cols && y < rows && i == Index(cols, x, y)
    requires 0 <= i < |map_| && map_[i] == NONE && n < |queue|
    ensures Consistent(grid, queue[n := Item(c, x, y)], map_[i := n], n + 1, rows, cols, text[i := c])
  {
    var q, m, t := queue[n := Item(c, x, y)], map_[i := n], text[i := c];
    var more := n + 1;
    forall j | 0 <= j < |t|
      ensures CellOk(grid, q, m, more, cols, t, j)
    {
      assert CellOk(grid, queue, map_, n, cols, text, j);
    }
    forall k | 0 <= k < n + 1
      ensures ItemOk(q, m, cols, rows, k)
    {
      if k < n { assert ItemOk(queue, map_, cols, rows, k); }
    }
  }

  lemma {:induction false} PushOld(grid: seq<Cell>, queue: seq<Item>, map_: seq<int>, n: nat, rows: nat, cols: nat,
                                   text: seq<Cell>, i: int, c: Cell)
    requires Consistent(grid, queue, map_, n, rows, cols, text) && 0 <= i < |map_| && map_[i] != NONE
    ensures 0 <= map_[i] < n
    ensures Consistent(grid, queue[map_[i] := queue[map_[i]].(c := c)], map_, n, rows, cols, text[i := c])
  {
    assert CellOk(grid, queue, map_, n, cols, text, i);
    var k := map_[i];
    var q, t := queue[k := queue[k].(c := c)], text[i := c];
    forall j | 0 <= j < |t|
      ensures CellOk(grid, q, map_, n, cols, t, j)
    {
      assert CellOk(grid, queue, map_, n, cols, text, j);
    }
    forall l | 0 <= l < n
      ensures ItemOk(q, map_, cols, rows, l)
    {
      assert ItemOk(queue, map_, cols, rows, l);
    }
  }

  // ----- flushing -----

  /** Halfway through a flush: items before `k` are done, and so is the cell of the
      drawn cursor, although its item is still in the queue. */
  predicate FlushItem(queue: seq<Item>, map_: seq<int>, cols: nat, rows: nat, k: int)
    requires 0 <= k < |queue| && |map_| == Times(rows, cols)
  {
    && queue[k].x < cols && queue[k].y < rows && 0 <= Place(cols, queue[k]) < |map_|
    && (map_[Place(cols, queue[k])] == NONE || map_[Place(cols, queue[k])] == k)
  }

  /** Cell `i` shows `text[i]` once it is no longer queued, unless it is the old cursor
      cell; the cell of a drawn cursor shows it with its colours swapped. */
  predicate FlushCell(grid: seq<Cell>, queue: seq<Item>, map_: seq<int>, k: nat, n: nat, cols: nat, text: seq<Cell>,
                      shown: seq<Shown>, drawn: int, was: int, i: int)
    requires |grid| == |map_| == |text| == |shown| && n <= |queue| && 0 <= i < |text|
  {
    && (map_[i] == NONE ==> text[i] == grid[i])
    && (map_[i] == NONE && i == drawn ==> shown[i] == Text(Swapped(text[i])))
    && (map_[i] == NONE && i != drawn && i != was ==> shown[i] == Text(text[i]))
    && (map_[i] != NONE ==>
         k <= map_[i] < n && Place(cols, queue[map_[i]]) == i && text[i] == queue[map_[i]].c && i != drawn)
  }

  function Swapped(c: Cell): Cell { Cell(c.c, c.bg, c.fg) }

  ghost predicate Flushing(grid: seq<Cell>, queue: seq<Item>, map_: seq<int>, k: nat, n: nat, rows: nat, cols: nat,
                           text: seq<Cell>, shown: seq<Shown>, drawn: int, was: int) {
    && |grid| == |map_| == |text| == |queue| == |shown| == Times(rows, cols) && k <= n <= |queue|
    && (forall i {:trigger FlushCell(grid, queue, map_, k, n, cols, text, shown, drawn, was, i)} :: 0 <= i < |text| ==>
         FlushCell(grid, queue, map_, k, n, cols, text, shown, drawn, was, i))
    && (forall j {:trigger FlushItem(queue, map_, cols, rows, j)} :: k <= j < n ==>
         FlushItem(queue, map_, cols, rows, j))
  }

  /** Between flushes the grid is on display, except perhaps under the old cursor. */
  ghost predicate Displays(grid: seq<Cell>, shown: seq<Shown>, was: int) {
    |shown| == |grid| && forall i :: 0 <= i < |grid| && i != was ==> shown[i] == Text(grid[i])
  }

  lemma {:induction false} FlushStart(grid: seq<Cell>, queue: seq<Item>, map_: seq<int>, n: nat, rows: nat, cols: nat,
                                      text: seq<Cell>, shown: seq<Shown>, was: int)
    requires Consistent(grid, queue, map_, n, rows, cols, text) && Displays(grid, shown, was)
    ensures Flushing(grid, queue, map_, 0, n, rows, cols, text, shown, -1, was)
  {
    forall i | 0 <= i < |text|
      ensures FlushCell(grid, queue, map_, 0, n, cols, text, shown, -1, was, i)
    {
      assert CellOk(grid, queue, map_, n, cols, text, i);
    }
    forall j | 0 <= j < n
      ensures FlushItem(queue, map_, cols, rows, j)
    {
      assert ItemOk(queue, map_, cols, rows, j);
    }
  }

  /** Drawing the cursor settles its cell ahead of the queue. */
  lemma {:induction false} FlushCursor(grid: seq<Cell>, queue: seq<Item>, map_: seq<int>, n: nat, rows: nat, cols: nat,
                                       text: seq<Cell>, shown: seq<Shown>, at: int, was: int)
    requires Flushing(grid, queue, map_, 0, n, rows, cols, text, shown, -1, was) && 0 <= at < |text|
    ensures Flushing(grid[at := text[at]], queue, map_[at := NONE], 0, n, rows, cols, text,
            shown[at := Text(Swapped(text[at]))], at, was)
  {
    var g, m, s := grid[at := text[at]], map_[at := NONE], shown[at := Text(Swapped(text[at]))];
    forall i | 0 <= i < |text|
      ensures FlushCell(g, queue, m, 0, n, cols, text, s, at, was, i)
    {
      assert FlushCell(grid, queue, map_, 0, n, cols, text, shown, -1, was, i);
    }
    forall j | 0 <= j < n
      ensures FlushItem(queue, m, cols, rows, j)
    {
      assert FlushItem(queue, map_, cols, rows, j);
    }
  }

  /** An item whose cell is already settled is skipped. */
  lemma {:induction false} FlushSkip(grid: seq<Cell>, queue: seq<Item>, map_: seq<int>, k: nat, n: nat, rows: nat,
                                     cols: nat, text: seq<Cell>, shown: seq<Shown>, drawn: int, was: int)
    requires Flushing(grid, queue, map_, k, n, rows, cols, text, shown, drawn, was) && k < n
    ensures FlushItem(queue, map_, cols, rows, k)
    ensures map_[Place(cols, queue[k])] == NONE ==>
              Flushing(grid, queue, map_, k + 1, n, rows, cols, text, shown, drawn, was)
  {
    assert FlushItem(queue, map_, cols, rows, k);
    if map_[Place(cols, queue[k])] == NONE {
      var next := k + 1;
      forall i | 0 <= i < |text|
        ensures FlushCell(grid, queue, map_, next, n, cols, text, shown, drawn, was, i)
      {
        assert FlushCell(grid, queue, map_, k, n, cols, text, shown, drawn, was, i);
      }
    }
  }

  lemma {:induction false} FlushOne(grid: seq<Cell>, queue: seq<Item>, map_: seq<int>, k: nat, n: nat, rows: nat,
                                    cols: nat, text: seq<Cell>, shown: seq<Shown>, drawn: int, was: int, at: int)
    requires Flushing(grid, queue, map_, k, n, rows, cols, text, shown, drawn, was) && k < n
    requires at == Place(cols, queue[k]) && 0 <= at < |map_| && map_[at] != NONE
    ensures Flushing(grid[at := queue[k].c], queue, map_[at := NONE], k + 1, n, rows, cols, text,
            shown[at := Text(queue[k].c)], drawn, was)
  {
    var g, m, s := grid[at := queue[k].c], map_[at := NONE], shown[at := Text(queue[k].c)];
    assert FlushItem(queue, map_, cols, rows, k);
    assert FlushCell(grid, queue, map_, k, n, cols, text, shown, drawn, was, at);
    var next := k + 1;
    forall i | 0 <= i < |text|
      ensures FlushCell(g, queue, m, next, n, cols, text, s, drawn, was, i)
    {
      assert FlushCell(grid, queue, map_, k, n, cols, text, shown, drawn, was, i);
    }
    forall j | k + 1 <= j < n
      ensures FlushItem(queue, m, cols, rows, j)
    {
      assert FlushItem(queue, map_, cols, rows, j);
    }
  }

  /** When the queue is done the grid is the text. */
  lemma {:induction false} FlushEnd(grid: seq<Cell>, queue: seq<Item>, map_: seq<int>, n: nat, rows: nat, cols: nat,
                                    text: seq<Cell>, shown: seq<Shown>, drawn: int, was: int)
    requires Flushing(grid, queue, map_, n, n, rows, cols, text, shown, drawn, was)
    ensures grid == text && Consistent(grid, queue, map_, 0, rows, cols, text)
    ensures forall i :: 0 <= i < |text| && i != drawn && i != was ==> shown[i] == Text(text[i])
    ensures 0 <= drawn < |text| ==> shown[drawn] == Text(Swapped(text[drawn]))
  {
    forall i | 0 <= i < |text|
      ensures grid[i] == text[i] && CellOk(grid, queue, map_, 0, cols, text, i)
      ensures i != drawn && i != was ==> shown[i] == Text(text[i])
      ensures i == drawn ==> shown[i] == Text(Swapped(text[i]))
    {
      assert FlushCell(grid, queue, map_, n, n, cols, text, shown, drawn, was, i);
    }
  }
}

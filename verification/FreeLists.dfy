/** The segregated free lists: a 25 x 32 table of heads of doubly linked lists
    whose links live inside the free blocks themselves, in a flat array of words.
    A node at word `h` keeps next_free at h+2 and prev_free at h+3. */
module FreeLists {
  import opened SizeClasses

  /** Address of the control structure's `block_null`, which ends every list. */
  const NULL_BLOCK := -1

  /** What the lists must agree with: the class of each listed block, and a rank
      that falls along `next_free`. */
  datatype Entry = Entry(c: Class, rank: int)
  type Index = map<int, Entry>

  predicate Table(heads: seq<seq<int>>) {
    |heads| == FL_INDEX_COUNT && forall f :: 0 <= f < FL_INDEX_COUNT ==> |heads[f]| == SL_INDEX_COUNT
  }

  predicate InTable(c: Class) {
    c.fl < FL_INDEX_COUNT && c.sl < SL_INDEX_COUNT
  }

  function Head(heads: seq<seq<int>>, c: Class): int
    requires Table(heads) && InTable(c)
  {
    heads[c.fl][c.sl]
  }

  function SetHead(heads: seq<seq<int>>, c: Class, b: int): (r: seq<seq<int>>)
    requires Table(heads) && InTable(c)
    ensures Table(r)
    ensures forall d :: InTable(d) ==> Head(r, d) == if d == c then b else Head(heads, d)
  {
    heads[c.fl := heads[c.fl][c.sl := b]]
  }

  /** Listed blocks lie inside the memory and their headers do not overlap. */
  ghost predicate Spaced(m: seq<int>, F: Index) {
    && (forall h :: h in F ==> 0 <= h < |m| - 3)
    && (forall h, g :: h in F && g in F && h < g ==> h + 4 <= g)
  }

  /** The header at `b` is inside the memory and overlaps no listed one. */
  ghost predicate Apart(m: seq<int>, F: Index, b: int) {
    0 <= b < |m| - 3 && forall h :: h in F ==> h + 4 <= b || b + 4 <= h
  }

  ghost predicate NodeOk(m: seq<int>, F: Index, heads: seq<seq<int>>, h: int)
    requires Spaced(m, F) && Table(heads) && h in F
  {
    && InTable(F[h].c) && F[h].rank >= 0
    && (m[h + 2] == NULL_BLOCK ||
        (m[h + 2] in F && m[m[h + 2] + 3] == h && F[m[h + 2]].c == F[h].c && F[m[h + 2]].rank < F[h].rank))
    && (if m[h + 3] == NULL_BLOCK then Head(heads, F[h].c) == h
        else m[h + 3] in F && m[m[h + 3] + 2] == h)
  }

  ghost predicate HeadOk(m: seq<int>, F: Index, heads: seq<seq<int>>, c: Class)
    requires Spaced(m, F) && Table(heads) && InTable(c)
  {
    var h := Head(heads, c);
    h == NULL_BLOCK || (h in F && F[h].c == c && m[h + 3] == NULL_BLOCK)
  }

  ghost predicate Linked(m: seq<int>, F: Index, heads: seq<seq<int>>) {
    && Spaced(m, F) && Table(heads)
    && (forall h {:trigger NodeOk(m, F, heads, h)} :: h in F ==> NodeOk(m, F, heads, h))
    && (forall c {:trigger HeadOk(m, F, heads, c)} :: InTable(c) ==> HeadOk(m, F, heads, c))
  }

  function SetPrevLink(m: seq<int>, b: int, v: int): seq<int>
    requires b == NULL_BLOCK || 0 <= b < |m| - 3
  {
    if b == NULL_BLOCK then m else m[b + 3 := v]
  }

  function SetNextLink(m: seq<int>, b: int, v: int): seq<int>
    requires b == NULL_BLOCK || 0 <= b < |m| - 3
  {
    if b == NULL_BLOCK then m else m[b + 2 := v]
  }

  /** The memory after `insert_free_block` has written the links. */
  function InsertWords(m: seq<int>, b: int, cur: int): seq<int>
    requires 0 <= b < |m| - 3 && (cur == NULL_BLOCK || 0 <= cur < |m| - 3)
  {
    SetPrevLink(m[b + 2 := cur][b + 3 := NULL_BLOCK], cur, b)
  }

  ghost function InsertIndex(F: Index, b: int, c: Class, cur: int): Index
    requires cur == NULL_BLOCK || cur in F
  {
    F[b := Entry(c, if cur == NULL_BLOCK then 0 else F[cur].rank + 1)]
  }

  lemma {:induction false} InsertNode(m: seq<int>, F: Index, heads: seq<seq<int>>, b: int, c: Class, cur: int, h: int)
    requires Spaced(m, F) && Table(heads) && b !in F && InTable(c) && cur == Head(heads, c)
    requires HeadOk(m, F, heads, c)
    requires Apart(m, F, b)
    requires h in F && NodeOk(m, F, heads, h)
    ensures NodeOk(InsertWords(m, b, cur), InsertIndex(F, b, c, cur), SetHead(heads, c, b), h)
  {
  }

  lemma {:induction false} InsertHead(m: seq<int>, F: Index, heads: seq<seq<int>>, b: int, c: Class, cur: int, d: Class)
    requires Spaced(m, F) && Table(heads) && b !in F && InTable(c) && cur == Head(heads, c)
    requires HeadOk(m, F, heads, c)
    requires Apart(m, F, b)
    requires InTable(d) && HeadOk(m, F, heads, d)
    ensures HeadOk(InsertWords(m, b, cur), InsertIndex(F, b, c, cur), SetHead(heads, c, b), d)
  {
  }

  /** Pushing a block on its class's list. */
  lemma {:induction false} InsertLinked(m: seq<int>, F: Index, heads: seq<seq<int>>, b: int, c: Class, cur: int)
    requires Linked(m, F, heads) && b !in F && InTable(c) && cur == Head(heads, c)
    requires HeadOk(m, F, heads, c)
    requires Apart(m, F, b)
    ensures Linked(InsertWords(m, b, cur), InsertIndex(F, b, c, cur), SetHead(heads, c, b))
  {
    var m', F', heads' := InsertWords(m, b, cur), InsertIndex(F, b, c, cur), SetHead(heads, c, b);
    assert Spaced(m', F');
    assert cur != NULL_BLOCK ==> NodeOk(m, F, heads, cur);
    forall h | h in F'
      ensures NodeOk(m', F', heads', h)
    {
      if h != b {
        assert NodeOk(m, F, heads, h);
        InsertNode(m, F, heads, b, c, cur, h);
      }
    }
    forall d | InTable(d)
      ensures HeadOk(m', F', heads', d)
    {
      assert HeadOk(m, F, heads, d);
      InsertHead(m, F, heads, b, c, cur, d);
    }
  }

  // ----- removal -----

  function RemoveWords(m: seq<int>, b: int): seq<int>
    requires 0 <= b < |m| - 3
    requires m[b + 2] == NULL_BLOCK || 0 <= m[b + 2] < |m| - 3
    requires m[b + 3] == NULL_BLOCK || 0 <= m[b + 3] < |m| - 3
  {
    SetNextLink(SetPrevLink(m, m[b + 2], m[b + 3]), m[b + 3], m[b + 2])
  }

  function RemoveHeads(m: seq<int>, heads: seq<seq<int>>, b: int, c: Class): seq<seq<int>>
    requires Table(heads) && InTable(c) && 0 <= b < |m| - 3
  {
    if Head(heads, c) == b then SetHead(heads, c, m[b + 2]) else heads
  }

  lemma {:induction false} RemoveNode(m: seq<int>, F: Index, heads: seq<seq<int>>, b: int, h: int)
    requires Spaced(m, F) && Table(heads) && b in F && NodeOk(m, F, heads, b)
    requires h in F && h != b && NodeOk(m, F, heads, h)
    ensures NodeOk(RemoveWords(m, b), F - {b}, RemoveHeads(m, heads, b, F[b].c), h)
  {
  }

  lemma {:induction false} RemoveHead(m: seq<int>, F: Index, heads: seq<seq<int>>, b: int, d: Class)
    requires Spaced(m, F) && Table(heads) && b in F && NodeOk(m, F, heads, b)
    requires InTable(d) && HeadOk(m, F, heads, d)
    ensures HeadOk(RemoveWords(m, b), F - {b}, RemoveHeads(m, heads, b, F[b].c), d)
  {
  }

  /** Unlinking a listed block. */
  lemma {:induction false} RemoveLinked(m: seq<int>, F: Index, heads: seq<seq<int>>, b: int)
    requires Linked(m, F, heads) && b in F && NodeOk(m, F, heads, b)
    ensures Linked(RemoveWords(m, b), F - {b}, RemoveHeads(m, heads, b, F[b].c))
  {
    var m', F', heads' := RemoveWords(m, b), F - {b}, RemoveHeads(m, heads, b, F[b].c);
    forall h | h in F'
      ensures NodeOk(m', F', heads', h)
    {
      assert NodeOk(m, F, heads, h);
      RemoveNode(m, F, heads, b, h);
    }
    forall d | InTable(d)
      ensures HeadOk(m', F', heads', d)
    {
      assert HeadOk(m, F, heads, d);
      RemoveHead(m, F, heads, b, d);
    }
  }

  // ----- the lists as sequences -----

  /** The blocks met by following `next_free` from `h`. */
  ghost function Chain(m: seq<int>, F: Index, heads: seq<seq<int>>, h: int): (s: seq<int>)
    requires Linked(m, F, heads) && (h == NULL_BLOCK || h in F)
    decreases if h == NULL_BLOCK then 0 else F[h].rank + 1
  {
    if h == NULL_BLOCK then []
    else
      assert NodeOk(m, F, heads, h);
      [h] + Chain(m, F, heads, m[h + 2])
  }

  /** The list of a class. */
  ghost function FreeList(m: seq<int>, F: Index, heads: seq<seq<int>>, c: Class): seq<int>
    requires Linked(m, F, heads) && InTable(c)
  {
    assert HeadOk(m, F, heads, c);
    Chain(m, F, heads, Head(heads, c))
  }

  /** A chain stays in one class, with falling ranks, and is closed under `next_free`. */
  lemma {:induction false} ChainClass(m: seq<int>, F: Index, heads: seq<seq<int>>, h: int, g: int)
    requires Linked(m, F, heads) && (h == NULL_BLOCK || h in F) && g in Chain(m, F, heads, h)
    ensures g in F && h in F && F[g].c == F[h].c && F[g].rank <= F[h].rank
    ensures m[g + 2] != NULL_BLOCK ==> m[g + 2] in Chain(m, F, heads, h)
    decreases if h == NULL_BLOCK then 0 else F[h].rank + 1
  {
    assert NodeOk(m, F, heads, h);
    if g != h {
      ChainClass(m, F, heads, m[h + 2], g);
    }
  }

  /** Blocks above `h` in rank: what is left to climb towards a head. */
  ghost function Above(F: Index, h: int): set<int>
    requires h in F
  {
    set g | g in F && F[g].rank > F[h].rank
  }

  /** Every listed block is on the list of its own class. */
  lemma {:induction false} ListedIsReached(m: seq<int>, F: Index, heads: seq<seq<int>>, h: int)
    requires Linked(m, F, heads) && h in F
    ensures InTable(F[h].c) && h in FreeList(m, F, heads, F[h].c)
    decreases |Above(F, h)|
  {
    assert NodeOk(m, F, heads, h);
    var c := F[h].c;
    if m[h + 3] != NULL_BLOCK {
      var p := m[h + 3];
      assert NodeOk(m, F, heads, p);
      CardinalityDrops(Above(F, p), Above(F, h), p);
      ListedIsReached(m, F, heads, p);
      assert HeadOk(m, F, heads, c);
      ChainClass(m, F, heads, Head(heads, c), p);
    }
  }

  lemma {:induction false} CardinalityDrops(a: set<int>, b: set<int>, x: int)
    requires a <= b && x in b && x !in a
    ensures |a| < |b|
  {
    assert a + (b - a) == b && a * (b - a) == {} && x in b - a;
  }

  /** A block is on the list of class `c` exactly when it is listed and that is its class. */
  lemma {:induction false} OnExactlyOneList(m: seq<int>, F: Index, heads: seq<seq<int>>, c: Class, h: int)
    requires Linked(m, F, heads) && InTable(c)
    ensures h in FreeList(m, F, heads, c) <==> h in F && F[h].c == c
  {
    if h in F {
      ListedIsReached(m, F, heads, h);
    }
    if h in FreeList(m, F, heads, c) {
      assert HeadOk(m, F, heads, c);
      ChainClass(m, F, heads, Head(heads, c), h);
    }
  }

  /** A list never meets a block twice. */
  lemma {:induction false} NoRepeats(m: seq<int>, F: Index, heads: seq<seq<int>>, h: int, i: nat, j: nat)
    requires Linked(m, F, heads) && (h == NULL_BLOCK || h in F) && i < j < |Chain(m, F, heads, h)|
    ensures Chain(m, F, heads, h)[i] != Chain(m, F, heads, h)[j]
    decreases if h == NULL_BLOCK then 0 else F[h].rank + 1
  {
    assert NodeOk(m, F, heads, h);
    var rest := Chain(m, F, heads, m[h + 2]);
    if i == 0 {
      assert rest[j - 1] in rest;
      ChainClass(m, F, heads, m[h + 2], rest[j - 1]);
    } else {
      NoRepeats(m, F, heads, m[h + 2], i - 1, j - 1);
    }
  }
}

/** What `map_page` does when it runs out of frames: `palloc` then returns 0, and frame 0
    is cleared and used as a table, as often as one is missing. */
module FrameZero {
  import opened Common
  import opened PageTables

  /** The frame `palloc` hands out: the first free one, or 0. */
  function First(free: seq<nat>): nat {
    if free == [] then 0 else free[0]
  }

  /** The free frames after `n` allocations. */
  function After(free: seq<nat>, n: nat): seq<nat> {
    if n <= |free| then free[n..] else []
  }

  /** The entry that hangs table `z` into another one. */
  function TableWord(z: nat, user: nat): Word {
    Word(1 + 2 + user, z, 0)
  }

  /** The memory after frame `z` was cleared and entry `i` of table `t` set to `w`. */
  ghost predicate Hung(m: seq<Word>, m': seq<Word>, t: nat, i: nat, z: nat, w: Word) {
    && |m'| == |m| && Fits(m, t) && Fits(m, z) && i < ENTRIES
    && forall g, j :: Fits(m, g) && 0 <= j < ENTRIES ==>
         At(m', g, j) == if g == t && j == i then w else if g == z then ZERO_WORD else At(m, g, j)
  }

  /** One level of `map_page`: from table `t` to table `c`. */
  ghost predicate LevelStep(m: seq<Word>, free: seq<nat>, m': seq<Word>, free': seq<nat>, t: nat, i: nat, user: nat,
                            c: nat) {
    && Fits(m, t) && i < ENTRIES
    && if Present(At(m, t, i)) then m' == m && free' == free && c == At(m, t, i).frame
       else c == First(free) && free' == After(free, 1) && Hung(m, m', t, i, c, TableWord(c, user))
  }

  lemma {:induction false} HungNow(m: seq<Word>, m1: seq<Word>, t: nat, i: nat, z: nat, w: Word)
    requires Fits(m, t) && i < ENTRIES && Zeroed(m1, z) && SameBut(m, m1, z)
    ensures Hung(m, Set(m1, t, i, w), t, i, z, w)
  {
    forall g: nat, j: nat | Fits(m, g) && j < ENTRIES
      ensures At(Set(m1, t, i, w), g, j) == if g == t && j == i then w else if g == z then ZERO_WORD else At(m, g, j)
    {
      AtSet(m1, t, i, w, g, j);
    }
  }

  lemma {:induction false} MissingAfterHung(m: seq<Word>, m': seq<Word>, level: nat, t: nat, z: nat, virt: nat,
                                            user: nat)
    requires 2 <= level <= 4 && Hung(m, m', t, Index(level, virt), z, TableWord(z, user))
             && !Present(At(m, t, Index(level, virt)))
    ensures z != t ==> Missing(m', level - 1, z, virt) + 1 == Missing(m, level, t, virt)
  {
    assert z != t && level > 2 ==> At(m', z, Index(level - 1, virt)) == ZERO_WORD;
  }

  /** All three levels: the memory, the free frames and the table after each, and the
      tree after the second. */
  datatype Climb = Climb(
    m1: seq<Word>, f1: seq<nat>, t3: nat,
    m2: seq<Word>, f2: seq<nat>, t2: nat, G2: Tables,
    m3: seq<Word>, f3: seq<nat>, t1: nat)

  ghost predicate Climbed(m: seq<Word>, free: seq<nat>, root: nat, virt: nat, user: nat, k: Climb) {
    && LevelStep(m, free, k.m1, k.f1, root, Index(4, virt), user, k.t3)
    && LevelStep(k.m1, k.f1, k.m2, k.f2, k.t3, Index(3, virt), user, k.t2)
    && LevelStep(k.m2, k.f2, k.m3, k.f3, k.t2, Index(2, virt), user, k.t1)
  }

  // ----- frame 0 as several tables at once -----

  /** Frame 0 leads nowhere but to itself. */
  ghost predicate Looped(m: seq<Word>) {
    Fits(m, 0) && forall j :: 0 <= j < ENTRIES && Present(At(m, 0, j)) ==> At(m, 0, j).frame == 0
  }

  lemma {:induction false} HungLoops(m: seq<Word>, m': seq<Word>, t: nat, i: nat, w: Word)
    requires Hung(m, m', t, i, 0, w) && w.frame == 0
    ensures Looped(m')
  {
  }

  lemma {:induction false} LoopStep(m: seq<Word>, m': seq<Word>, free': seq<nat>, i: nat, user: nat, c: nat)
    requires Looped(m) && LevelStep(m, [], m', free', 0, i, user, c)
    ensures Looped(m') && free' == [] && c == 0
  {
    if !Present(At(m, 0, i)) {
      HungLoops(m, m', 0, i, TableWord(0, user));
    }
  }

  lemma {:induction false} PageApart(u: nat, v: nat)
    requires Index(1, u) != Index(1, v)
    ensures PageOf(u) != PageOf(v)
  {
    SamePage(u, v);
  }

  /** The page that is mapped by mistake when two frames are missing: frame 0 is then the
      directory and the leaf table. */
  function Twin(virt: nat): nat {
    PageAddress(Index(4, virt), Index(3, virt), Index(2, virt), Index(2, virt))
  }

  /** The one when all three are: frame 0 is the upper directory as well. */
  function DeepTwin(virt: nat): nat {
    PageAddress(Index(4, virt), Index(2, virt), Index(2, virt), Index(2, virt))
  }

  /** The first level when two frames are missing: the last free frame is used up, and
      the second level is missing. */
  lemma {:induction false} LastFrame(m: seq<Word>, free: seq<nat>, m1: seq<Word>, f1: seq<nat>, root: nat, virt: nat,
                                     user: nat, t3: nat)
    requires LevelStep(m, free, m1, f1, root, Index(4, virt), user, t3) && Missing(m, 4, root, virt) == |free| + 2
    requires t3 != root && (user == 0 || user == 4)
    ensures f1 == [] && Fits(m1, root) && Fits(m1, t3) && !Present(At(m1, t3, Index(3, virt)))
    ensures Present(At(m1, root, Index(4, virt))) && At(m1, root, Index(4, virt)).frame == t3
    ensures Walk(m, 4, root, Twin(virt)) == None
  {
    PageIndices(Index(4, virt), Index(3, virt), Index(2, virt), Index(2, virt));
    if Present(At(m, root, Index(4, virt))) {
      MissingAtMost(m, 3, t3, virt);
      AllMissing(m, 3, t3, virt);
      assert Walk(m, 4, root, Twin(virt)) == Walk(m, 3, t3, Twin(virt));
    }
  }

  /** The other two levels: frame 0 becomes both tables. */
  lemma {:induction false} ZeroTwice(m1: seq<Word>, m2: seq<Word>, f2: seq<nat>, t2: nat, m3: seq<Word>, f3: seq<nat>,
                                     t1: nat,
                                     root: nat, virt: nat, user: nat, t3: nat)
    requires LevelStep(m1, [], m2, f2, t3, Index(3, virt), user, t2)
             && LevelStep(m2, f2, m3, f3, t2, Index(2, virt), user, t1)
    requires root != 0 && t3 != 0 && t3 != root && !Present(At(m1, t3, Index(3, virt)))
    requires Fits(m1, root) && Present(At(m1, root, Index(4, virt))) && At(m1, root, Index(4, virt)).frame == t3
    ensures t1 == 0 && |m3| == |m1| && Fits(m3, root) && Fits(m3, t3) && Fits(m3, 0)
    ensures At(m3, root, Index(4, virt)) == At(m1, root, Index(4, virt))
    ensures At(m3, t3, Index(3, virt)) == At(m3, 0, Index(2, virt)) == TableWord(0, user)
  {
    assert t2 == 0 && f2 == [] && At(m2, 0, Index(2, virt)) == ZERO_WORD;
  }

  lemma {:induction false} TwinMapped(m3: seq<Word>, root: nat, virt: nat, user: nat, t3: nat, leaf: Word)
    requires Fits(m3, root) && Fits(m3, t3) && Fits(m3, 0) && root != 0 && t3 != 0 && (user == 0 || user == 4)
    requires Present(At(m3, root, Index(4, virt))) && At(m3, root, Index(4, virt)).frame == t3
    requires At(m3, t3, Index(3, virt)) == At(m3, 0, Index(2, virt)) == TableWord(0, user)
    requires Index(1, virt) != Index(2, virt)
    ensures Walk(Set(m3, 0, Index(1, virt), leaf), 4, root, Twin(virt)) == Some(TableWord(0, user))
  {
    PageIndices(Index(4, virt), Index(3, virt), Index(2, virt), Index(2, virt));
    var m4 := Set(m3, 0, Index(1, virt), leaf);
    AtSet(m3, 0, Index(1, virt), leaf, root, Index(4, virt));
    AtSet(m3, 0, Index(1, virt), leaf, t3, Index(3, virt));
    AtSet(m3, 0, Index(1, virt), leaf, 0, Index(2, virt));
    WalkThrough(m4, root, t3, 0, 0, Twin(virt));
  }

  /** With two frames too few another page, that had no mapping, is mapped onto frame 0. */
  lemma {:induction false} StarvedTwo(m: seq<Word>, free: seq<nat>, root: nat, virt: nat, user: nat, k: Climb,
                                      leaf: Word)
    requires Climbed(m, free, root, virt, user, k) && Missing(m, 4, root, virt) == |free| + 2
    requires root != 0 && k.t3 != 0 && k.t3 != root && Index(1, virt) != Index(2, virt) && (user == 0 || user == 4)
    ensures Fits(k.m3, k.t1) && PageOf(Twin(virt)) != PageOf(virt) && Walk(m, 4, root, Twin(virt)) == None
    ensures Walk(Set(k.m3, k.t1, Index(1, virt), leaf), 4, root, Twin(virt)) == Some(TableWord(0, user))
  {
    LastFrame(m, free, k.m1, k.f1, root, virt, user, k.t3);
    ZeroTwice(k.m1, k.m2, k.f2, k.t2, k.m3, k.f3, k.t1, root, virt, user, k.t3);
    TwinMapped(k.m3, root, virt, user, k.t3, leaf);
    PageIndices(Index(4, virt), Index(3, virt), Index(2, virt), Index(2, virt));
    PageApart(Twin(virt), virt);
  }

  /** With no frame for any of the three levels frame 0 becomes all three tables. */
  lemma {:induction false} ZeroThrice(m: seq<Word>, free: seq<nat>, root: nat, virt: nat, user: nat, k: Climb)
    requires Climbed(m, free, root, virt, user, k) && Missing(m, 4, root, virt) == |free| + 3
    requires root != 0 && (user == 0 || user == 4)
    ensures k.t1 == 0 && !Present(At(m, root, Index(4, virt))) && |k.m3| == |m| && Fits(m, root) && Fits(m, 0)
    ensures At(k.m3, root, Index(4, virt)) == At(k.m3, 0, Index(2, virt)) == TableWord(0, user)
  {
    MissingAtMost(m, 4, root, virt);
    AllMissing(m, 4, root, virt);
    assert free == [] && k.t3 == 0 && k.f1 == [] && At(k.m1, 0, Index(3, virt)) == ZERO_WORD;
    assert k.t2 == 0 && k.f2 == [] && At(k.m2, 0, Index(3, virt)) == TableWord(0, user);
    assert At(k.m2, 0, Index(2, virt)) == if Index(2, virt) == Index(3, virt) then TableWord(0, user) else ZERO_WORD;
  }

  lemma {:induction false} DeepTwinMapped(m3: seq<Word>, root: nat, virt: nat, user: nat, leaf: Word)
    requires Fits(m3, root) && Fits(m3, 0) && root != 0 && Index(1, virt) != Index(2, virt) && (user == 0 || user == 4)
    requires At(m3, root, Index(4, virt)) == At(m3, 0, Index(2, virt)) == TableWord(0, user)
    ensures Walk(Set(m3, 0, Index(1, virt), leaf), 4, root, DeepTwin(virt)) == Some(TableWord(0, user))
  {
    PageIndices(Index(4, virt), Index(2, virt), Index(2, virt), Index(2, virt));
    AtSet(m3, 0, Index(1, virt), leaf, root, Index(4, virt));
    AtSet(m3, 0, Index(1, virt), leaf, 0, Index(2, virt));
    WalkThrough(Set(m3, 0, Index(1, virt), leaf), root, 0, 0, 0, DeepTwin(virt));
  }

  lemma {:induction false} StarvedThree(m: seq<Word>, free: seq<nat>, root: nat, virt: nat, user: nat, k: Climb,
                                        leaf: Word)
    requires Climbed(m, free, root, virt, user, k) && Missing(m, 4, root, virt) == |free| + 3
    requires root != 0 && Index(1, virt) != Index(2, virt) && (user == 0 || user == 4)
    ensures Fits(k.m3, k.t1) && PageOf(DeepTwin(virt)) != PageOf(virt) && Walk(m, 4, root, DeepTwin(virt)) == None
    ensures Walk(Set(k.m3, k.t1, Index(1, virt), leaf), 4, root, DeepTwin(virt)) == Some(TableWord(0, user))
  {
    ZeroThrice(m, free, root, virt, user, k);
    DeepTwinMapped(k.m3, root, virt, user, leaf);
    PageIndices(Index(4, virt), Index(2, virt), Index(2, virt), Index(2, virt));
    PageApart(DeepTwin(virt), virt);
  }

  // ----- frame 0 as leaf table of two regions -----

  /** Table `t` holds one entry, `w` at `i`. */
  ghost predicate Only(m: seq<Word>, t: nat, i: nat, w: Word) {
    && Fits(m, t) && i < ENTRIES && At(m, t, i) == w
    && forall j :: 0 <= j < ENTRIES && Present(At(m, t, j)) ==> j == i
  }

  /** A directory `t2` on the path of `virt` without a leaf table, while frame 0 is one
      somewhere else. */
  ghost predicate Lacking(m: seq<Word>, root: nat, G: Tables, t3: nat, t2: nat, virt: nat) {
    && Tree(m, root, G) && t3 in G && t2 in G && 0 in G && G[0].level == 1
    && G[t3] == Node(3, root, Index(4, virt)) && G[t2] == Node(2, t3, Index(3, virt))
    && !Present(At(m, t2, Index(2, virt)))
  }

  /** Frame 0 cleared, hung below `t2`, and `leaf` written into it. */
  ghost predicate Shared(m: seq<Word>, m': seq<Word>, t2: nat, virt: nat, w: Word, leaf: Word) {
    && |m'| == |m| && Fits(m, t2) && Fits(m, 0)
    && forall g, j :: Fits(m, g) && 0 <= j < ENTRIES ==>
         At(m', g, j) == if g == t2 && j == Index(2, virt) then w
                         else if g == 0 then (if j == Index(1, virt) then leaf else ZERO_WORD) else At(m, g, j)
  }

  lemma {:induction false} SharedNow(m: seq<Word>, m3: seq<Word>, t2: nat, virt: nat, w: Word, leaf: Word)
    requires Hung(m, m3, t2, Index(2, virt), 0, w) && t2 != 0
    ensures Fits(m3, 0) && Shared(m, Set(m3, 0, Index(1, virt), leaf), t2, virt, w, leaf)
  {
    var m' := Set(m3, 0, Index(1, virt), leaf);
    forall g: nat, j: nat | Fits(m, g) && j < ENTRIES
      ensures At(m', g, j) == if g == t2 && j == Index(2, virt) then w
                              else if g == 0 then (if j == Index(1, virt) then leaf else ZERO_WORD) else At(m, g, j)
    {
      AtSet(m3, 0, Index(1, virt), leaf, g, j);
    }
  }

  /** The other page at index `j` of frame 0. */
  ghost function Alias(m: seq<Word>, G: Tables, j: nat): nat
    requires 0 in G && G[0].parent in G && G[G[0].parent].parent in G
  {
    var p2 := G[0].parent;
    PageAddress(G[G[p2].parent].slot, G[p2].slot, G[0].slot, j)
  }

  lemma {:induction false} AliasPath(m: seq<Word>, root: nat, G: Tables, j: nat)
    requires Tree(m, root, G) && 0 in G && G[0].level == 1 && j < ENTRIES
    ensures var p2 := G[0].parent;
            && p2 in G && G[p2].level == 2 && G[p2].parent in G
            && var p3, v := G[p2].parent, Alias(m, G, j);
               && G[p3].level == 3 && G[p3].parent == root && Index(1, v) == j
               && Present(At(m, root, Index(4, v))) && At(m, root, Index(4, v)).frame == p3
               && Present(At(m, p3, Index(3, v))) && At(m, p3, Index(3, v)).frame == p2
               && Present(At(m, p2, Index(2, v))) && At(m, p2, Index(2, v)).frame == 0
  {
    assert ParentOk(m, G, 0);
    var p2 := G[0].parent;
    assert ParentOk(m, G, p2);
    var p3 := G[p2].parent;
    assert ParentOk(m, G, p3);
    PageIndices(G[p3].slot, G[p2].slot, G[0].slot, j);
  }

  /** It is not on the page being mapped. */
  lemma {:induction false} AliasApart(m: seq<Word>, root: nat, G: Tables, t3: nat, t2: nat, virt: nat, j: nat)
    requires Lacking(m, root, G, t3, t2, virt) && j < ENTRIES
    ensures G[0].parent in G && G[G[0].parent].parent in G && PageOf(Alias(m, G, j)) != PageOf(virt)
  {
    AliasPath(m, root, G, j);
    var v := Alias(m, G, j);
    assert ParentOk(m, G, t3) && ParentOk(m, G, t2);
    SamePage(v, virt);
    assert !(Index(4, v) == Index(4, virt) && Index(3, v) == Index(3, virt) && Index(2, v) == Index(2, virt));
  }

  lemma {:induction false} AliasReads(m: seq<Word>, m': seq<Word>, root: nat, G: Tables, t3: nat, t2: nat, virt: nat,
                                      w: Word, leaf: Word, j: nat)
    requires Lacking(m, root, G, t3, t2, virt) && Shared(m, m', t2, virt, w, leaf) && Present(leaf) && j < ENTRIES
    ensures G[0].parent in G && G[G[0].parent].parent in G
    ensures Walk(m, 4, root, Alias(m, G, j)) == if Present(At(m, 0, j)) then Some(At(m, 0, j)) else None
    ensures Walk(m', 4, root, Alias(m, G, j)) == if j == Index(1, virt) then Some(leaf) else None
  {
    AliasPath(m, root, G, j);
    var p2 := G[0].parent;
    var p3, v := G[p2].parent, Alias(m, G, j);
    WalkThrough(m, root, p3, p2, 0, v);
    assert At(m', root, Index(4, v)) == At(m, root, Index(4, v));
    assert At(m', p3, Index(3, v)) == At(m, p3, Index(3, v));
    assert At(m', p2, Index(2, v)) == At(m, p2, Index(2, v));
    WalkThrough(m', root, p3, p2, 0, v);
  }

  /** So the call maps one page only if frame 0 held that very entry and no other. */
  lemma {:induction false} SharedOnly(m: seq<Word>, m': seq<Word>, root: nat, G: Tables, t3: nat, t2: nat, virt: nat,
                                      w: Word, leaf: Word)
    requires Lacking(m, root, G, t3, t2, virt) && Shared(m, m', t2, virt, w, leaf) && Present(leaf)
    requires Remapped(m, m', root, virt, Some(leaf))
    ensures Only(m, 0, Index(1, virt), leaf)
  {
    forall j: nat | j < ENTRIES
      ensures if j == Index(1, virt) then At(m, 0, j) == leaf else !Present(At(m, 0, j))
    {
      AliasReads(m, m', root, G, t3, t2, virt, w, leaf, j);
      AliasApart(m, root, G, t3, t2, virt, j);
    }
  }

  /** A walk that passes entry `i` of table `t2`. */
  predicate Passes(m: seq<Word>, level: nat, t: nat, v: nat, t2: nat, i: nat)
    requires level <= 4
  {
    level >= 2 && Fits(m, t) &&
    ((t == t2 && Index(level, v) == i)
      || (Present(At(m, t, Index(level, v))) && Passes(m, level - 1, At(m, t, Index(level, v)).frame, v, t2, i)))
  }

  lemma {:induction false} SharedLeaf(m: seq<Word>, m': seq<Word>, t2: nat, virt: nat, w: Word, leaf: Word, v: nat)
    requires Shared(m, m', t2, virt, w, leaf) && Present(leaf) && t2 != 0
    ensures Walk(m', 1, 0, v) == if Index(1, v) == Index(1, virt) then Some(leaf) else None
  {
    assert At(m', 0, Index(1, v)) == if Index(1, v) == Index(1, virt) then leaf else ZERO_WORD;
  }

  lemma {:induction false} SharedWalk(m: seq<Word>, m': seq<Word>, root: nat, G: Tables, t3: nat, t2: nat, virt: nat,
                                      w: Word, leaf: Word,
                                      level: nat, t: nat, v: nat)
    requires Lacking(m, root, G, t3, t2, virt) && Shared(m, m', t2, virt, w, leaf) && Only(m, 0, Index(1, virt), leaf)
    requires Present(leaf) && Present(w) && w.frame == 0 && t in G && G[t].level == level
    ensures Walk(m', level, t, v) ==
            if Passes(m, level, t, v, t2, Index(2, virt)) then
              (if Index(1, v) == Index(1, virt) then Some(leaf) else None)
            else Walk(m, level, t, v)
    ensures !Passes(m, level, t, v, t2, Index(2, virt)) ==> Entries(m', level, t, v) == Entries(m, level, t, v)
    decreases level
  {
    var i := Index(level, v);
    assert SlotOk(m, G, t, i);
    if t == t2 && i == Index(2, virt) {
      SharedLeaf(m, m', t2, virt, w, leaf, v);
    } else if Present(At(m, t, i)) && level >= 2 {
      SharedWalk(m, m', root, G, t3, t2, virt, w, leaf, level - 1, At(m, t, i).frame, v);
    }
  }

  /** The walks that pass the new entry are those of its region. */
  lemma {:induction false} PassesRegion(m: seq<Word>, root: nat, G: Tables, t3: nat, t2: nat, virt: nat, v: nat)
    requires Lacking(m, root, G, t3, t2, virt)
    ensures Passes(m, 4, root, v, t2, Index(2, virt)) <==>
            Index(4, v) == Index(4, virt) && Index(3, v) == Index(3, virt) && Index(2, v) == Index(2, virt)
  {
    assert ParentOk(m, G, t3) && ParentOk(m, G, t2);
    var e := At(m, root, Index(4, v));
    assert SlotOk(m, G, root, Index(4, v));
    if Present(e) {
      var x := e.frame;
      var d := At(m, x, Index(3, v));
      assert SlotOk(m, G, x, Index(3, v));
      assert Passes(m, 4, root, v, t2, Index(2, virt)) == Passes(m, 3, x, v, t2, Index(2, virt));
      if Present(d) {
        assert Passes(m, 3, x, v, t2, Index(2, virt)) == Passes(m, 2, d.frame, v, t2, Index(2, virt));
        assert SlotOk(m, G, d.frame, Index(2, v));
        assert Passes(m, 2, d.frame, v, t2, Index(2, virt)) == (d.frame == t2 && Index(2, v) == Index(2, virt));
      }
    }
  }

  lemma {:induction false} SharedAt(m: seq<Word>, m': seq<Word>, root: nat, G: Tables, t3: nat, t2: nat, virt: nat,
                                    w: Word, leaf: Word, v: nat)
    requires Lacking(m, root, G, t3, t2, virt) && Shared(m, m', t2, virt, w, leaf) && Only(m, 0, Index(1, virt), leaf)
    requires Present(leaf) && Present(w) && w.frame == 0
    ensures Walk(m', 4, root, v) == if PageOf(v) == PageOf(virt) then Some(leaf) else Walk(m, 4, root, v)
    ensures PageOf(v) != PageOf(virt) ==> Entries(m', 4, root, v) == Entries(m, 4, root, v)
  {
    SharedWalk(m, m', root, G, t3, t2, virt, w, leaf, 4, root, v);
    SharedPage(m, root, G, t3, t2, virt, v);
  }

  /** And if it did, the call maps one page. */
  lemma {:induction false} SharedMaps(m: seq<Word>, m': seq<Word>, root: nat, G: Tables, t3: nat, t2: nat, virt: nat,
                                      w: Word, leaf: Word)
    requires Lacking(m, root, G, t3, t2, virt) && Shared(m, m', t2, virt, w, leaf) && Only(m, 0, Index(1, virt), leaf)
    requires Present(leaf) && Present(w) && w.frame == 0
    ensures Remapped(m, m', root, virt, Some(leaf))
  {
    forall v: nat
      ensures Walk(m', 4, root, v) == if PageOf(v) == PageOf(virt) then Some(leaf) else Walk(m, 4, root, v)
      ensures PageOf(v) != PageOf(virt) ==> Entries(m', 4, root, v) == Entries(m, 4, root, v)
    {
      SharedAt(m, m', root, G, t3, t2, virt, w, leaf, v);
    }
  }

  /** Before the call no page of the region is mapped. */
  lemma {:induction false} SharedPage(m: seq<Word>, root: nat, G: Tables, t3: nat, t2: nat, virt: nat, v: nat)
    requires Lacking(m, root, G, t3, t2, virt)
    ensures PageOf(v) == PageOf(virt) <==> Passes(m, 4, root, v, t2, Index(2, virt)) && Index(1, v) == Index(1, virt)
    ensures Passes(m, 4, root, v, t2, Index(2, virt)) ==> Walk(m, 4, root, v) == None
  {
    PassesRegion(m, root, G, t3, t2, virt, v);
    SamePage(v, virt);
    if Passes(m, 4, root, v, t2, Index(2, virt)) {
      assert ParentOk(m, G, t3) && ParentOk(m, G, t2);
      assert Walk(m, 4, root, v) == Walk(m, 3, t3, v);
      assert Walk(m, 3, t3, v) == Walk(m, 2, t2, v);
    }
  }

  // ----- what an access is allowed to do afterwards -----

  /** The slot after one level: as it was, or the entry of the new table. */
  lemma {:induction false} StepSlot(m: seq<Word>, free: seq<nat>, m': seq<Word>, free': seq<nat>, t: nat, i: nat,
                                    user: nat, c: nat)
    requires LevelStep(m, free, m', free', t, i, user, c) && (user == 0 || user == 4)
    ensures |m'| == |m| && At(m', t, i) == if Present(At(m, t, i)) then At(m, t, i) else TableWord(c, user)
    ensures Present(At(m', t, i)) && At(m', t, i).frame == c
  {
  }

  lemma {:induction false} StepElsewhere(m: seq<Word>, free: seq<nat>, m': seq<Word>, free': seq<nat>, t: nat, i: nat,
                                         user: nat, c: nat, g: nat, j: nat)
    requires LevelStep(m, free, m', free', t, i, user, c) && Fits(m, g) && j < ENTRIES && g != t && g != c
    ensures |m'| == |m| && At(m', g, j) == At(m, g, j)
  {
  }

  /** A table made on the way takes away nothing that the leaf grants. */
  lemma {:induction false} StepRights(m: seq<Word>, free: seq<nat>, m': seq<Word>, free': seq<nat>, level: nat, t: nat,
                                      virt: nat, user: nat, c: nat, r: Rights)
    requires 2 <= level <= 4 && LevelStep(m, free, m', free', t, Index(level, virt), user, c) && c != t
    requires (user == 0 || user == 4) && (r.user ==> user == 4) && Fits(m', t)
    ensures Both(TableRights(m, level, t, virt), r)
         == Both(RightsOf(At(m', t, Index(level, virt))), Both(TableRights(m', level - 1, c, virt), r))
  {
    var i := Index(level, virt);
    if !Present(At(m, t, i)) {
      assert Fits(m', c) && level > 2 ==> At(m', c, Index(level - 1, virt)) == ZERO_WORD;
      assert RightsOf(TableWord(c, user)) == Rights(true, user == 4, true);
    }
  }

  /** The page is writable, open to user code and executable as far as the leaf and the
      tables that were there allow. */
  lemma {:induction false} MapRights(m: seq<Word>, free: seq<nat>, root: nat, virt: nat, user: nat, k: Climb,
                                     leaf: Word)
    requires Climbed(m, free, root, virt, user, k) && Fits(k.m3, k.t1) && Present(leaf) && (user == 0 || user == 4)
    requires root != k.t3 && root != k.t2 && root != k.t1 && k.t3 != k.t2 && k.t3 != k.t1 && k.t2 != k.t1
    requires RightsOf(leaf).user ==> user == 4
    ensures Access(Set(k.m3, k.t1, Index(1, virt), leaf), root, virt)
         == Some(Both(TableRights(m, 4, root, virt), RightsOf(leaf)))
  {
    var m' := Set(k.m3, k.t1, Index(1, virt), leaf);
    StepSlot(m, free, k.m1, k.f1, root, Index(4, virt), user, k.t3);
    StepSlot(k.m1, k.f1, k.m2, k.f2, k.t3, Index(3, virt), user, k.t2);
    StepSlot(k.m2, k.f2, k.m3, k.f3, k.t2, Index(2, virt), user, k.t1);
    StepElsewhere(k.m1, k.f1, k.m2, k.f2, k.t3, Index(3, virt), user, k.t2, root, Index(4, virt));
    StepElsewhere(k.m2, k.f2, k.m3, k.f3, k.t2, Index(2, virt), user, k.t1, root, Index(4, virt));
    StepElsewhere(k.m2, k.f2, k.m3, k.f3, k.t2, Index(2, virt), user, k.t1, k.t3, Index(3, virt));
    AtSet(k.m3, k.t1, Index(1, virt), leaf, root, Index(4, virt));
    AtSet(k.m3, k.t1, Index(1, virt), leaf, k.t3, Index(3, virt));
    AtSet(k.m3, k.t1, Index(1, virt), leaf, k.t2, Index(2, virt));
    AtSet(k.m3, k.t1, Index(1, virt), leaf, k.t1, Index(1, virt));
    EntriesThrough(m', root, k.t3, k.t2, k.t1, virt);
    ClimbRights(m, free, root, virt, user, k, leaf);
    FourRights(At(k.m1, root, Index(4, virt)), At(k.m2, k.t3, Index(3, virt)), At(k.m3, k.t2, Index(2, virt)), leaf);
  }

  lemma {:induction false} ClimbRights(m: seq<Word>, free: seq<nat>, root: nat, virt: nat, user: nat, k: Climb,
                                       leaf: Word)
    requires Climbed(m, free, root, virt, user, k) && root != k.t3 && k.t3 != k.t2 && k.t2 != k.t1
    requires (user == 0 || user == 4) && (RightsOf(leaf).user ==> user == 4)
    requires Fits(k.m1, root) && Fits(k.m2, k.t3) && Fits(k.m3, k.t2)
    ensures Both(TableRights(m, 4, root, virt), RightsOf(leaf))
         == Both(RightsOf(At(k.m1, root, Index(4, virt))), Both(RightsOf(At(k.m2, k.t3, Index(3, virt))),
              Both(RightsOf(At(k.m3, k.t2, Index(2, virt))), RightsOf(leaf))))
  {
    StepRights(m, free, k.m1, k.f1, 4, root, virt, user, k.t3, RightsOf(leaf));
    StepRights(k.m1, k.f1, k.m2, k.f2, 3, k.t3, virt, user, k.t2, RightsOf(leaf));
    StepRights(k.m2, k.f2, k.m3, k.f3, 2, k.t2, virt, user, k.t1, RightsOf(leaf));
  }

  // ----- what a whole call does -----

  /** Table `c` is the next one on the path of `virt` after table `t`, and no walk has
      changed. */
  ghost predicate Descended(m: seq<Word>, m': seq<Word>, root: nat, G: Tables, G': Tables, t: nat, level: nat,
                            virt: nat, c: nat) {
    && 2 <= level <= 4 && Fits(m, t) && c in G' && G'[c] == Node(level - 1, t, Index(level, virt))
    && SameWalks(m, m', root)
    && (forall g :: g in G ==> g in G' && G'[g] == G[g]) && (forall g :: g in G' ==> g in G || g == c)
    && Missing(m, level, t, virt) ==
         Missing(m', level - 1, c, virt) + if Present(At(m, t, Index(level, virt))) then 0 else 1
  }

  /** The tables `t3` and `t2` are the first two on the path of `virt`; those that were
      missing came off the free list. */
  ghost predicate OnWay(m: seq<Word>, m': seq<Word>, root: nat, G: Tables, G': Tables, free: seq<nat>, free': seq<nat>,
                        t3: nat, t2: nat, virt: nat) {
    && t3 in G' && t2 in G' && G'[t3] == Node(3, root, Index(4, virt)) && G'[t2] == Node(2, t3, Index(3, virt))
    && SameWalks(m, m', root)
    && (forall g :: g in G ==> g in G' && G'[g] == G[g]) && (forall g :: g in G' ==> g in G || g in free)
    && Missing(m', 2, t2, virt) <= Missing(m, 4, root, virt)
    && free' == After(free, Missing(m, 4, root, virt) - Missing(m', 2, t2, virt))
    && Missing(m, 4, root, virt) - Missing(m', 2, t2, virt) <= |free|
  }

  /** After one level that was provided for. */
  lemma {:induction false} OneDown(m: seq<Word>, free: seq<nat>, m1: seq<Word>, f1: seq<nat>, root: nat, G: Tables,
                                   G1: Tables, virt: nat, user: nat, t3: nat)
    requires LevelStep(m, free, m1, f1, root, Index(4, virt), user, t3)
             && Descended(m, m1, root, G, G1, root, 4, virt, t3)
    requires Missing(m, 4, root, virt) <= |free| + 1
    ensures Missing(m1, 3, t3, virt) <= |f1| + 1 && |f1| <= |free|
    ensures Fits(m1, t3) && !Present(At(m1, t3, Index(3, virt))) ==> f1 != []
    ensures f1 == After(free, Missing(m, 4, root, virt) - Missing(m1, 3, t3, virt))
            && Missing(m1, 3, t3, virt) <= Missing(m, 4, root, virt)
    ensures !Present(At(m, root, Index(4, virt))) ==> t3 in free
  {
    MissingAtMost(m1, 3, t3, virt);
  }

  lemma {:induction false} TwoDown(m: seq<Word>, free: seq<nat>, m1: seq<Word>, f1: seq<nat>, m2: seq<Word>,
                                   f2: seq<nat>, root: nat,
                                   G: Tables, G1: Tables, G2: Tables, virt: nat, user: nat, t3: nat, t2: nat)
    requires LevelStep(m, free, m1, f1, root, Index(4, virt), user, t3)
             && Descended(m, m1, root, G, G1, root, 4, virt, t3)
    requires LevelStep(m1, f1, m2, f2, t3, Index(3, virt), user, t2) && Descended(m1, m2, root, G1, G2, t3, 3, virt, t2)
    requires Missing(m, 4, root, virt) <= |free| + 1 && Tree(m, root, G) && Tree(m1, root, G1)
    ensures OnWay(m, m2, root, G, G2, free, f2, t3, t2, virt)
  {
    OneDown(m, free, m1, f1, root, G, G1, virt, user, t3);
    MissingAtMost(m2, 2, t2, virt);
    assert SlotOk(m, G, root, Index(4, virt)) && SlotOk(m1, G1, t3, Index(3, virt));
    assert f1 != [] ==> f1[0] in free;
  }

  /** With more than one frame missing, the first two levels leave none. */
  lemma {:induction false} UsedUp(m: seq<Word>, free: seq<nat>, m1: seq<Word>, f1: seq<nat>, m2: seq<Word>,
                                  f2: seq<nat>, root: nat,
                                  virt: nat, user: nat, t3: nat, t2: nat)
    requires LevelStep(m, free, m1, f1, root, Index(4, virt), user, t3)
             && LevelStep(m1, f1, m2, f2, t3, Index(3, virt), user, t2)
    requires Missing(m, 4, root, virt) > |free| + 1
    ensures f2 == []
  {
    MissingAtMost(m, 4, root, virt);
    if Present(At(m, root, Index(4, virt))) {
      MissingAtMost(m, 3, t3, virt);
    }
  }

  /** The third level takes the last missing table's frame. */
  lemma {:induction false} FramesLeft(m: seq<Word>, free: seq<nat>, root: nat, G: Tables, virt: nat, user: nat,
                                      k: Climb)
    requires Climbed(m, free, root, virt, user, k)
    requires Missing(m, 4, root, virt) <= |free| + 1 ==> OnWay(m, k.m2, root, G, k.G2, free, k.f2, k.t3, k.t2, virt)
    requires Missing(m, 4, root, virt) > |free| + 1 ==> k.f2 == []
    ensures k.f3 == After(free, Missing(m, 4, root, virt))
    ensures Missing(m, 4, root, virt) <= |free| && !Present(At(k.m2, k.t2, Index(2, virt))) ==> k.f2 != []
  {
    var need, rest := Missing(m, 4, root, virt), Missing(k.m2, 2, k.t2, virt);
    var e := At(k.m2, k.t2, Index(2, virt));
    assert Missing(k.m2, 1, e.frame, virt) == 0;
    assert rest == if Present(e) then 0 else 1;
    assert rest == 1 && need <= |free| ==> k.f2 == free[need - 1..] && k.f2[1..] == free[need..];
  }

  /** When `map_page` maps one page and no other: if there are enough frames, or one is
      missing and frame 0 is no table yet, or a table that holds the very entry to be made
      and nothing else. */
  ghost predicate MapsOne(m: seq<Word>, free: seq<nat>, root: nat, G: Tables, virt: nat, leaf: Word) {
    var need := Missing(m, 4, root, virt);
    need <= |free| || (need == |free| + 1 && (0 !in G || Only(m, 0, Index(1, virt), leaf)))
  }

  lemma {:induction false} StarvedMap(m: seq<Word>, free: seq<nat>, root: nat, G: Tables, virt: nat, user: nat,
                                      k: Climb, leaf: Word)
    requires Tree(m, root, G) && Climbed(m, free, root, virt, user, k) && (0 in G ==> G[0].level == 1)
    requires (forall f :: f in free ==> f !in G && f != 0) && (user == 0 || user == 4) && Present(leaf)
    requires var need := Missing(m, 4, root, virt);
             && need > |free| && !(need == |free| + 1 && 0 !in G)
             && (need == |free| + 1 ==>
                  OnWay(m, k.m2, root, G, k.G2, free, k.f2, k.t3, k.t2, virt) && Tree(k.m2, root, k.G2))
    requires Index(1, virt) != Index(2, virt) || Missing(m, 4, root, virt) == |free| + 1
    ensures Fits(k.m3, k.t1)
    ensures Remapped(m, Set(k.m3, k.t1, Index(1, virt), leaf), root, virt, Some(leaf)) <==>
              MapsOne(m, free, root, G, virt, leaf)
  {
    var need := Missing(m, 4, root, virt);
    MissingAtMost(m, 4, root, virt);
    if need == |free| + 2 {
      UpperTable(m, free, root, G, virt, user, k);
      StarvedTwo(m, free, root, virt, user, k, leaf);
    } else if need == |free| + 3 {
      StarvedThree(m, free, root, virt, user, k, leaf);
    } else {
      SharedAgain(m, free, root, G, virt, user, k, leaf);
    }
  }

  lemma {:induction false} UpperTable(m: seq<Word>, free: seq<nat>, root: nat, G: Tables, virt: nat, user: nat,
                                      k: Climb)
    requires Tree(m, root, G) && Climbed(m, free, root, virt, user, k) && (0 in G ==> G[0].level == 1)
    requires (forall f :: f in free ==> f !in G && f != 0) && Missing(m, 4, root, virt) == |free| + 2
    ensures root != 0 && k.t3 != 0 && k.t3 != root
  {
    assert SlotOk(m, G, root, Index(4, virt));
  }

  /** The two upper levels leave frame 0 alone, and the third takes it. */
  lemma {:induction false} ZeroKept(m: seq<Word>, free: seq<nat>, root: nat, G: Tables, virt: nat, user: nat, k: Climb,
                                    leaf: Word)
    requires Climbed(m, free, root, virt, user, k) && 0 in G && G[0].level == 1
             && Missing(m, 4, root, virt) == |free| + 1
    requires OnWay(m, k.m2, root, G, k.G2, free, k.f2, k.t3, k.t2, virt) && Tree(k.m2, root, k.G2)
    requires (forall f :: f in free ==> f !in G && f != 0) && root in G && G[root].level == 4
    ensures k.t1 == 0 && k.t2 != 0 && Lacking(k.m2, root, k.G2, k.t3, k.t2, virt)
    ensures Hung(k.m2, k.m3, k.t2, Index(2, virt), 0, TableWord(0, user))
    ensures Only(m, 0, Index(1, virt), leaf) <==> Only(k.m2, 0, Index(1, virt), leaf)
  {
    MissingAtMost(k.m2, 2, k.t2, virt);
    assert Missing(k.m2, 2, k.t2, virt) == 1 && k.f2 == [];
    assert !Present(At(k.m2, k.t2, Index(2, virt)));
    assert k.t3 != 0 && k.t2 != 0 && root != 0;
    forall j: nat | j < ENTRIES
      ensures |k.m2| == |m| && At(k.m2, 0, j) == At(m, 0, j)
    {
      assert At(k.m1, 0, j) == At(m, 0, j);
    }
  }

  /** Frame 0 as leaf table a second time. */
  lemma {:induction false} SharedAgain(m: seq<Word>, free: seq<nat>, root: nat, G: Tables, virt: nat, user: nat,
                                       k: Climb, leaf: Word)
    requires Climbed(m, free, root, virt, user, k) && 0 in G && G[0].level == 1
             && Missing(m, 4, root, virt) == |free| + 1
    requires OnWay(m, k.m2, root, G, k.G2, free, k.f2, k.t3, k.t2, virt) && Tree(k.m2, root, k.G2)
    requires (forall f :: f in free ==> f !in G && f != 0) && (user == 0 || user == 4) && Present(leaf) && root in G
             && G[root].level == 4
    ensures Fits(k.m3, k.t1)
    ensures Remapped(m, Set(k.m3, k.t1, Index(1, virt), leaf), root, virt, Some(leaf)) <==>
              Only(m, 0, Index(1, virt), leaf)
  {
    ZeroKept(m, free, root, G, virt, user, k, leaf);
    var w := TableWord(0, user);
    SharedNow(k.m2, k.m3, k.t2, virt, w, leaf);
    var m' := Set(k.m3, 0, Index(1, virt), leaf);
    assert Remapped(m, m', root, virt, Some(leaf)) <==> Remapped(k.m2, m', root, virt, Some(leaf));
    if Remapped(k.m2, m', root, virt, Some(leaf)) {
      SharedOnly(k.m2, m', root, k.G2, k.t3, k.t2, virt, w, leaf);
    }
    if Only(k.m2, 0, Index(1, virt), leaf) {
      SharedMaps(k.m2, m', root, k.G2, k.t3, k.t2, virt, w, leaf);
    }
  }
}

/** Physical memory as 512-word frames, the free list threaded through the free
    frames, and the four-level page-table tree. A 64-bit word is kept as its three
    fields: bits 0-11, the frame number in bits 12-51, and bits 52-63. */
module PageTables {
  import opened Common

  datatype Word = Word(low: nat, frame: nat, high: nat)

  const ZERO_WORD := Word(0, 0, 0)
  const ENTRIES := 512

  predicate Present(w: Word) { w.low % 2 == 1 }

  /** The frame lies inside the memory. */
  predicate Fits(m: seq<Word>, f: nat) { ENTRIES * f + ENTRIES <= |m| }

  function At(m: seq<Word>, f: nat, i: nat): Word
    requires Fits(m, f) && i < ENTRIES
  {
    m[ENTRIES * f + i]
  }

  function Set(m: seq<Word>, f: nat, i: nat, w: Word): seq<Word>
    requires Fits(m, f) && i < ENTRIES
  {
    m[ENTRIES * f + i := w]
  }

  lemma {:induction false} AtSet(m: seq<Word>, f: nat, i: nat, w: Word, g: nat, j: nat)
    requires Fits(m, f) && i < ENTRIES && Fits(m, g) && j < ENTRIES
    ensures Fits(Set(m, f, i, w), g) && At(Set(m, f, i, w), g, j) == if g == f && j == i then w else At(m, g, j)
  {
  }

  /** The same memory except inside frame `f`. */
  ghost predicate SameBut(m: seq<Word>, m': seq<Word>, f: nat) {
    |m'| == |m| && forall g, i :: Fits(m, g) && 0 <= i < ENTRIES && g != f ==> At(m', g, i) == At(m, g, i)
  }

  lemma {:induction false} SetSameBut(m: seq<Word>, f: nat, i: nat, w: Word)
    requires Fits(m, f) && i < ENTRIES
    ensures SameBut(m, Set(m, f, i, w), f)
  {
  }

  /** A zeroed frame maps nothing. */
  ghost predicate Zeroed(m: seq<Word>, z: nat) {
    Fits(m, z) && forall i :: 0 <= i < ENTRIES ==> At(m, z, i) == ZERO_WORD
  }

  // ----- indices -----

  function Pow(level: nat): nat
    requires 1 <= level <= 4
  {
    if level == 1 then 0x1000 else if level == 2 then 0x20_0000 else if level == 3 then 0x4000_0000 else 0x80_0000_0000
  }

  /** PT_INDEX, PD_INDEX, PDPT_INDEX and PML4_INDEX for levels 1 to 4. */
  function Index(level: nat, virt: nat): (i: nat)
    requires 1 <= level <= 4
    ensures i < ENTRIES
  {
    virt / Pow(level) % ENTRIES
  }

  /** The 36 bits of a virtual address that select a page. */
  function PageOf(virt: nat): nat { virt / 0x1000 % 0x10_0000_0000 }

  /** Two addresses agree on all four indices exactly when they are on the same page. */
  lemma {:induction false} SamePage(u: nat, v: nat)
    ensures PageOf(u) == PageOf(v) <==> forall l :: 1 <= l <= 4 ==> Index(l, u) == Index(l, v)
  {
    Digits(u);
    Digits(v);
    SameDigits(Index(1, u), Index(2, u), Index(3, u), Index(4, u), Index(1, v), Index(2, v), Index(3, v), Index(4, v));
    var same := Index(1, u) == Index(1, v) && Index(2, u) == Index(2, v) && Index(3, u) == Index(3, v)
      && Index(4, u) == Index(4, v);
    if same {
      forall l | 1 <= l <= 4
        ensures Index(l, u) == Index(l, v)
      {
        assert l == 1 || l == 2 || l == 3 || l == 4;
      }
    }
  }

  lemma {:induction false} SameDigits(a: nat, b: nat, c: nat, d: nat, a': nat, b': nat, c': nat, d': nat)
    requires a < ENTRIES && b < ENTRIES && c < ENTRIES && d < ENTRIES && a' < ENTRIES && b' < ENTRIES && c' < ENTRIES
             && d' < ENTRIES
    ensures a + 0x200 * b + 0x4_0000 * c + 0x800_0000 * d == a' + 0x200 * b' + 0x4_0000 * c' + 0x800_0000 * d'
            <==> a == a' && b == b' && c == c' && d == d'
  {
  }

  lemma {:induction false} Digits(v: nat)
    ensures PageOf(v) == Index(1, v) + 0x200 * Index(2, v) + 0x4_0000 * Index(3, v) + 0x800_0000 * Index(4, v)
  {
    var p := v / 0x1000;
    Quotients(v);
    BaseDigits(p, p / 0x200, p / 0x200 / 0x200, p / 0x200 / 0x200 / 0x200);
  }

  /** The three table macros shift by nine more bits each. */
  lemma {:induction false} Quotients(v: nat)
    ensures var p := v / 0x1000;
            v / 0x20_0000 == p / 0x200 && v / 0x4000_0000 == p / 0x200 / 0x200
              && v / 0x80_0000_0000 == p / 0x200 / 0x200 / 0x200
  {
    var p := v / 0x1000;
    var q := p / 0x200;
    var r := q / 0x200;
    var s := r / 0x200;
    assert v == 0x20_0000 * q + (v - 0x20_0000 * q) && 0 <= v - 0x20_0000 * q < 0x20_0000;
    assert v == 0x4000_0000 * r + (v - 0x4000_0000 * r) && 0 <= v - 0x4000_0000 * r < 0x4000_0000;
    assert v == 0x80_0000_0000 * s + (v - 0x80_0000_0000 * s) && 0 <= v - 0x80_0000_0000 * s < 0x80_0000_0000;
  }

  lemma {:induction false} BaseDigits(p: nat, q: nat, r: nat, s: nat)
    requires q == p / 0x200 && r == q / 0x200 && s == r / 0x200
    ensures p % 0x10_0000_0000 == p % 0x200 + 0x200 * (q % 0x200) + 0x4_0000 * (r % 0x200) + 0x800_0000 * (s % 0x200)
  {
    var t := s / 0x200;
    var d := p % 0x200 + 0x200 * (q % 0x200) + 0x4_0000 * (r % 0x200) + 0x800_0000 * (s % 0x200);
    assert p == 0x10_0000_0000 * t + d;
    assert 0 <= d < 0x10_0000_0000;
  }

  /** The address of a page with given indices. */
  function PageAddress(i4: nat, i3: nat, i2: nat, i1: nat): nat {
    0x1000 * (i1 + 0x200 * i2 + 0x4_0000 * i3 + 0x800_0000 * i4)
  }

  lemma {:induction false} PageIndices(i4: nat, i3: nat, i2: nat, i1: nat)
    requires i4 < ENTRIES && i3 < ENTRIES && i2 < ENTRIES && i1 < ENTRIES
    ensures var v := PageAddress(i4, i3, i2, i1);
            Index(4, v) == i4 && Index(3, v) == i3 && Index(2, v) == i2 && Index(1, v) == i1
  {
    var v := PageAddress(i4, i3, i2, i1);
    Quotients(v);
    var p := v / 0x1000;
    assert p == i1 + 0x200 * i2 + 0x4_0000 * i3 + 0x800_0000 * i4;
    assert p / 0x200 == i2 + 0x200 * i3 + 0x4_0000 * i4;
    assert p / 0x200 / 0x200 == i3 + 0x200 * i4;
    assert p / 0x200 / 0x200 / 0x200 == i4;
  }

  // ----- the walk -----

  /** What the processor finds for `virt`, starting in table `t` at `level`. */
  function Walk(m: seq<Word>, level: nat, t: nat, virt: nat): Option<Word>
    requires level <= 4
  {
    if level == 0 || !Fits(m, t) then None
    else
      var e := At(m, t, Index(level, virt));
      if !Present(e) then None
      else if level == 1 then Some(e)
      else Walk(m, level - 1, e.frame, virt)
  }

  /** The entries the processor goes through on the way, if it gets to the end. */
  function Entries(m: seq<Word>, level: nat, t: nat, virt: nat): (r: Option<seq<Word>>)
    requires level <= 4
    ensures r.Some? <==> Walk(m, level, t, virt).Some?
    ensures r.Some? ==> |r.value| == level > 0 && r.value[level - 1] == Walk(m, level, t, virt).value
  {
    if level == 0 || !Fits(m, t) then None
    else
      var e := At(m, t, Index(level, virt));
      if !Present(e) then None
      else if level == 1 then Some([e])
      else
        match Entries(m, level - 1, e.frame, virt)
        case None => None
        case Some(rest) => Some([e] + rest)
  }

  // ----- what an access is allowed to do -----

  datatype Rights = Rights(write: bool, user: bool, execute: bool)

  const ALL_RIGHTS := Rights(true, true, true)

  /** What one entry allows: bits 1 and 2, and bit 63 forbids execution. */
  function RightsOf(w: Word): Rights {
    Rights(w.low / 2 % 2 == 1, w.low / 4 % 2 == 1, w.high / 0x800 % 2 == 0)
  }

  function Both(a: Rights, b: Rights): Rights {
    Rights(a.write && b.write, a.user && b.user, a.execute && b.execute)
  }

  /** An access needs the right in every entry. */
  function AllRights(s: seq<Word>): Rights {
    if s == [] then ALL_RIGHTS else Both(RightsOf(s[0]), AllRights(s[1..]))
  }

  /** What the processor allows at `virt`, if it is mapped. */
  function Access(m: seq<Word>, root: nat, virt: nat): Option<Rights> {
    match Entries(m, 4, root, virt)
    case None => None
    case Some(s) => Some(AllRights(s))
  }

  /** What the tables that are there allow on the way to the leaf table of `virt`. */
  function TableRights(m: seq<Word>, level: nat, t: nat, virt: nat): Rights
    requires 1 <= level <= 4
  {
    if level == 1 || !Fits(m, t) then ALL_RIGHTS
    else
      var e := At(m, t, Index(level, virt));
      if !Present(e) then ALL_RIGHTS else Both(RightsOf(e), TableRights(m, level - 1, e.frame, virt))
  }

  /** A walk through three tables to a leaf table. */
  lemma {:induction false} WalkThrough(m: seq<Word>, root: nat, t3: nat, t2: nat, t1: nat, v: nat)
    requires Fits(m, root) && Present(At(m, root, Index(4, v))) && At(m, root, Index(4, v)).frame == t3
    requires Fits(m, t3) && Present(At(m, t3, Index(3, v))) && At(m, t3, Index(3, v)).frame == t2
    requires Fits(m, t2) && Present(At(m, t2, Index(2, v))) && At(m, t2, Index(2, v)).frame == t1
    requires Fits(m, t1)
    ensures Walk(m, 4, root, v) == if Present(At(m, t1, Index(1, v))) then Some(At(m, t1, Index(1, v))) else None
  {
    assert Walk(m, 3, t3, v) == Walk(m, 2, t2, v);
    assert Walk(m, 2, t2, v) == Walk(m, 1, t1, v);
  }

  /** The same with the entries. */
  lemma {:induction false} EntriesThrough(m: seq<Word>, root: nat, t3: nat, t2: nat, t1: nat, v: nat)
    requires Fits(m, root) && Present(At(m, root, Index(4, v))) && At(m, root, Index(4, v)).frame == t3
    requires Fits(m, t3) && Present(At(m, t3, Index(3, v))) && At(m, t3, Index(3, v)).frame == t2
    requires Fits(m, t2) && Present(At(m, t2, Index(2, v))) && At(m, t2, Index(2, v)).frame == t1
    requires Fits(m, t1) && Present(At(m, t1, Index(1, v)))
    ensures Entries(m, 4, root, v)
         == Some([At(m, root, Index(4, v)), At(m, t3, Index(3, v)), At(m, t2, Index(2, v)), At(m, t1, Index(1, v))])
  {
    var e4, e3, e2, e1 := At(m, root, Index(4, v)), At(m, t3, Index(3, v)), At(m, t2, Index(2, v)),
      At(m, t1, Index(1, v));
    assert Entries(m, 1, t1, v) == Some([e1]);
    assert [e2] + [e1] == [e2, e1] && [e3] + [e2, e1] == [e3, e2, e1] && [e4] + [e3, e2, e1] == [e4, e3, e2, e1];
    assert Entries(m, 2, t2, v) == Some([e2, e1]);
    assert Entries(m, 3, t3, v) == Some([e3, e2, e1]);
  }

  lemma {:induction false} FourRights(a: Word, b: Word, c: Word, d: Word)
    ensures AllRights([a, b, c, d]) == Both(RightsOf(a), Both(RightsOf(b), Both(RightsOf(c), RightsOf(d))))
  {
    assert [a, b, c, d][1..] == [b, c, d] && [b, c, d][1..] == [c, d] && [c, d][1..] == [d] && [d][1..] == [];
    assert AllRights([d]) == RightsOf(d);
    assert AllRights([c, d]) == Both(RightsOf(c), RightsOf(d));
    assert AllRights([b, c, d]) == Both(RightsOf(b), AllRights([c, d]));
  }

  // ----- the tree -----

  /** A table's level and the one slot that points to it. */
  datatype Node = Node(level: nat, parent: nat, slot: nat)
  type Tables = map<nat, Node>

  /** The bit that makes an entry above level 1 map a large page. */
  predicate Large(w: Word) { w.low / 0x80 % 2 == 1 }

  /** A table above level 1 points only to tables one level down that know this slot
      as theirs. */
  ghost predicate SlotOk(m: seq<Word>, G: Tables, t: nat, i: nat)
    requires t in G && Fits(m, t) && i < ENTRIES
  {
    Present(At(m, t, i)) && G[t].level >= 2 ==>
      At(m, t, i).high == 0 && !Large(At(m, t, i)) && At(m, t, i).frame in G
        && G[At(m, t, i).frame] == Node(G[t].level - 1, t, i)
  }

  /** A table below the root is where its parent's slot points. */
  ghost predicate ParentOk(m: seq<Word>, G: Tables, t: nat)
    requires t in G && forall g :: g in G ==> Fits(m, g)
  {
    && G[t].slot < ENTRIES && G[t].parent in G && G[G[t].parent].level == G[t].level + 1
    && Present(At(m, G[t].parent, G[t].slot)) && At(m, G[t].parent, G[t].slot).frame == t
  }

  /** The tables form a tree below `root`: nothing is shared. */
  ghost predicate Tree(m: seq<Word>, root: nat, G: Tables) {
    && root in G && G[root].level == 4
    && (forall t :: t in G ==> Fits(m, t) && 1 <= G[t].level <= 4 && (G[t].level == 4 <==> t == root))
    && (forall t, i {:trigger SlotOk(m, G, t, i)} :: t in G && 0 <= i < ENTRIES ==> SlotOk(m, G, t, i))
    && (forall t {:trigger ParentOk(m, G, t)} :: t in G && t != root ==> ParentOk(m, G, t))
  }

  /** Two memories in which the processor finds the same for every address, with the same
      entries on the way. */
  ghost predicate SameWalks(m: seq<Word>, m': seq<Word>, root: nat) {
    && (forall v: nat :: Walk(m', 4, root, v) == Walk(m, 4, root, v))
    && (forall v: nat :: Entries(m', 4, root, v) == Entries(m, 4, root, v))
  }

  /** Changing a frame that is not a table changes no walk. */
  lemma {:induction false} OutsideWalk(m: seq<Word>, m': seq<Word>, root: nat, G: Tables, f: nat, level: nat, t: nat,
                                       v: nat)
    requires Tree(m, root, G) && f !in G && SameBut(m, m', f) && t in G && G[t].level == level
    ensures Walk(m', level, t, v) == Walk(m, level, t, v) && Entries(m', level, t, v) == Entries(m, level, t, v)
    decreases level
  {
    var i := Index(level, v);
    assert SlotOk(m, G, t, i);
    if Present(At(m, t, i)) && level >= 2 {
      OutsideWalk(m, m', root, G, f, level - 1, At(m, t, i).frame, v);
    }
  }

  lemma {:induction false} OutsideTree(m: seq<Word>, m': seq<Word>, root: nat, G: Tables, f: nat)
    requires Tree(m, root, G) && f !in G && SameBut(m, m', f)
    ensures Tree(m', root, G) && SameWalks(m, m', root)
  {
    forall t, i | t in G && 0 <= i < ENTRIES
      ensures SlotOk(m', G, t, i)
    {
      assert SlotOk(m, G, t, i);
    }
    forall t | t in G && t != root
      ensures ParentOk(m', G, t)
    {
      assert ParentOk(m, G, t);
    }
    forall v: nat
      ensures Walk(m', 4, root, v) == Walk(m, 4, root, v) && Entries(m', 4, root, v) == Entries(m, 4, root, v)
    {
      OutsideWalk(m, m', root, G, f, 4, root, v);
    }
  }

  // ----- hanging a new table into an empty slot -----

  /** Linking a zeroed frame into an empty slot changes no walk: addresses that pass
      through the slot were unmapped before and find nothing in the new table. */
  lemma {:induction false} AddTableWalk(m: seq<Word>, root: nat, G: Tables, t0: nat, i0: nat, w: Word, level: nat,
                                        t: nat, v: nat)
    requires Tree(m, root, G) && t0 in G && G[t0].level >= 2 && i0 < ENTRIES && !Present(At(m, t0, i0))
    requires w.frame !in G && Zeroed(m, w.frame) && Present(w)
    requires t in G && G[t].level == level
    ensures Walk(Set(m, t0, i0, w), level, t, v) == Walk(m, level, t, v)
    ensures Entries(Set(m, t0, i0, w), level, t, v) == Entries(m, level, t, v)
    decreases level
  {
    var m' := Set(m, t0, i0, w);
    var i := Index(level, v);
    AtSet(m, t0, i0, w, t, i);
    assert SlotOk(m, G, t, i);
    if t == t0 && i == i0 {
      AtSet(m, t0, i0, w, w.frame, Index(level - 1, v));
    } else if Present(At(m, t, i)) && level >= 2 {
      AddTableWalk(m, root, G, t0, i0, w, level - 1, At(m, t, i).frame, v);
    }
  }

  lemma {:induction false} AddTable(m: seq<Word>, root: nat, G: Tables, t0: nat, i0: nat, w: Word)
    requires Tree(m, root, G) && t0 in G && G[t0].level >= 2 && i0 < ENTRIES && !Present(At(m, t0, i0))
    requires w.frame !in G && Zeroed(m, w.frame) && Present(w) && !Large(w) && w.high == 0
    ensures Tree(Set(m, t0, i0, w), root, G[w.frame := Node(G[t0].level - 1, t0, i0)])
    ensures SameWalks(m, Set(m, t0, i0, w), root)
  {
    var m', z := Set(m, t0, i0, w), w.frame;
    var G' := G[z := Node(G[t0].level - 1, t0, i0)];
    forall t, i | t in G' && 0 <= i < ENTRIES
      ensures SlotOk(m', G', t, i)
    {
      AtSet(m, t0, i0, w, t, i);
      assert t in G ==> SlotOk(m, G, t, i);
    }
    forall t | t in G' && t != root
      ensures ParentOk(m', G', t)
    {
      if t != z {
        assert ParentOk(m, G, t);
        AtSet(m, t0, i0, w, G[t].parent, G[t].slot);
      } else {
        AtSet(m, t0, i0, w, t0, i0);
      }
    }
    forall v: nat
      ensures Walk(m', 4, root, v) == Walk(m, 4, root, v) && Entries(m', 4, root, v) == Entries(m, 4, root, v)
    {
      AddTableWalk(m, root, G, t0, i0, w, 4, root, v);
    }
  }

  // ----- writing a leaf -----

  /** The ancestor of table `t` at `level`. */
  ghost function Up(m: seq<Word>, root: nat, G: Tables, t: nat, level: nat): nat
    requires Tree(m, root, G) && t in G && G[t].level <= level <= 4
    ensures Up(m, root, G, t, level) in G && G[Up(m, root, G, t, level)].level == level
    decreases level
  {
    if level == G[t].level then t
    else
      var c := Up(m, root, G, t, level - 1);
      assert ParentOk(m, G, c);
      G[c].parent
  }

  /** A walk below a table that is not above leaf table `t1` never meets `t1`. */
  lemma {:induction false} OffPath(m: seq<Word>, root: nat, G: Tables, t1: nat, i1: nat, w: Word, level: nat, t: nat,
                                   v: nat)
    requires Tree(m, root, G) && t1 in G && G[t1].level == 1 && i1 < ENTRIES
    requires t in G && G[t].level == level && Up(m, root, G, t1, level) != t
    ensures Walk(Set(m, t1, i1, w), level, t, v) == Walk(m, level, t, v)
    ensures Entries(Set(m, t1, i1, w), level, t, v) == Entries(m, level, t, v)
    decreases level
  {
    var i := Index(level, v);
    AtSet(m, t1, i1, w, t, i);
    assert SlotOk(m, G, t, i);
    if Present(At(m, t, i)) && level >= 2 {
      OffPath(m, root, G, t1, i1, w, level - 1, At(m, t, i).frame, v);
    }
  }

  /** The leaf table `t1` hangs on the path of `v` from its ancestor at `level` down. */
  ghost predicate OnPath(m: seq<Word>, root: nat, G: Tables, t1: nat, v: nat)
    requires Tree(m, root, G) && t1 in G && G[t1].level == 1
  {
    forall l :: 2 <= l <= 4 ==> G[Up(m, root, G, t1, l - 1)].slot == Index(l, v)
  }

  lemma {:induction false} LeafWalk(m: seq<Word>, root: nat, G: Tables, t1: nat, w: Word, virt: nat, level: nat, v: nat)
    requires Tree(m, root, G) && t1 in G && G[t1].level == 1 && OnPath(m, root, G, t1, virt) && 1 <= level <= 4
    requires exists l :: 1 <= l <= level && Index(l, v) != Index(l, virt)
    ensures var t := Up(m, root, G, t1, level);
            && Walk(Set(m, t1, Index(1, virt), w), level, t, v) == Walk(m, level, t, v)
            && Entries(Set(m, t1, Index(1, virt), w), level, t, v) == Entries(m, level, t, v)
    decreases level
  {
    var t := Up(m, root, G, t1, level);
    var i := Index(level, v);
    AtSet(m, t1, Index(1, virt), w, t, i);
    assert SlotOk(m, G, t, i);
    if level >= 2 && Present(At(m, t, i)) {
      var c := At(m, t, i).frame;
      var d := Up(m, root, G, t1, level - 1);
      assert ParentOk(m, G, d) && G[d].slot == Index(level, virt);
      if i == Index(level, virt) {
        assert c == d;
        LeafWalk(m, root, G, t1, w, virt, level - 1, v);
      } else {
        OffPath(m, root, G, t1, Index(1, virt), w, level - 1, c, v);
      }
    }
  }

  /** The walk of `virt` ends in its leaf table. */
  lemma {:induction false} WalkToLeaf(m: seq<Word>, root: nat, G: Tables, t1: nat, virt: nat, level: nat)
    requires Tree(m, root, G) && t1 in G && G[t1].level == 1 && OnPath(m, root, G, t1, virt) && 1 <= level <= 4
    ensures var e := At(m, t1, Index(1, virt));
            Walk(m, level, Up(m, root, G, t1, level), virt) == if Present(e) then Some(e) else None
    decreases level
  {
    if level >= 2 {
      assert ParentOk(m, G, Up(m, root, G, t1, level - 1));
      WalkToLeaf(m, root, G, t1, virt, level - 1);
    }
  }

  /** Any write to a leaf table keeps the tree. */
  lemma {:induction false} LeafTree(m: seq<Word>, root: nat, G: Tables, t1: nat, i1: nat, w: Word)
    requires Tree(m, root, G) && t1 in G && G[t1].level == 1 && i1 < ENTRIES
    ensures Tree(Set(m, t1, i1, w), root, G)
  {
    var m' := Set(m, t1, i1, w);
    forall t, i | t in G && 0 <= i < ENTRIES
      ensures SlotOk(m', G, t, i)
    {
      AtSet(m, t1, i1, w, t, i);
      assert SlotOk(m, G, t, i);
    }
    forall t | t in G && t != root
      ensures ParentOk(m', G, t)
    {
      assert ParentOk(m, G, t);
      AtSet(m, t1, i1, w, G[t].parent, G[t].slot);
    }
  }

  /** Writing one leaf entry maps or unmaps exactly one page. */
  lemma {:induction false} LeafWrite(m: seq<Word>, root: nat, G: Tables, t1: nat, virt: nat, w: Word, v: nat)
    requires Tree(m, root, G) && t1 in G && G[t1].level == 1 && OnPath(m, root, G, t1, virt)
    ensures var m' := Set(m, t1, Index(1, virt), w);
            && Walk(m', 4, root, v)
            == (if PageOf(v) != PageOf(virt) then Walk(m, 4, root, v) else if Present(w) then Some(w) else None)
            && (PageOf(v) != PageOf(virt) ==> Entries(m', 4, root, v) == Entries(m, 4, root, v))
  {
    var m' := Set(m, t1, Index(1, virt), w);
    SamePage(v, virt);
    assert Up(m, root, G, t1, 4) == root;
    if PageOf(v) != PageOf(virt) {
      LeafWalk(m, root, G, t1, w, virt, 4, v);
    } else {
      LeafTree(m, root, G, t1, Index(1, virt), w);
      SameUp(m, m', root, G, t1, 4);
      SameUp(m, m', root, G, t1, 3);
      SameUp(m, m', root, G, t1, 2);
      SameUp(m, m', root, G, t1, 1);
      assert OnPath(m', root, G, t1, v);
      WalkToLeaf(m', root, G, t1, v, 4);
    }
  }

  /** Ancestors depend on the tree, not on the memory. */
  lemma {:induction false} SameUp(m: seq<Word>, m': seq<Word>, root: nat, G: Tables, t: nat, level: nat)
    requires Tree(m, root, G) && Tree(m', root, G) && t in G && G[t].level <= level <= 4
    ensures Up(m', root, G, t, level) == Up(m, root, G, t, level)
    decreases level
  {
    if level != G[t].level {
      SameUp(m, m', root, G, t, level - 1);
    }
  }

  /** Levels that have to be added before `virt` can be mapped. */
  function Missing(m: seq<Word>, level: nat, t: nat, virt: nat): nat
    requires 1 <= level <= 4
  {
    if level == 1 || !Fits(m, t) then 0
    else
      var e := At(m, t, Index(level, virt));
      if !Present(e) then level - 1 else Missing(m, level - 1, e.frame, virt)
  }

  // ----- the free list -----

  function Link(s: seq<nat>, k: nat): nat {
    if k < |s| then s[k] else 0
  }

  ghost predicate RegionOk(m: seq<Word>, s: seq<nat>, k: nat)
    requires k < |s|
  {
    s[k] != 0 && Fits(m, s[k]) && At(m, s[k], 0) == Word(0, s[k], 0) && At(m, s[k], 1) == Word(0, Link(s, k + 1), 0)
  }

  /** The list threaded through the free frames, each frame once. */
  ghost predicate FreeChain(m: seq<Word>, head: nat, s: seq<nat>) {
    && head == Link(s, 0)
    && (forall k {:trigger RegionOk(m, s, k)} :: 0 <= k < |s| ==> RegionOk(m, s, k))
    && (forall i, j :: 0 <= i < j < |s| ==> s[i] != s[j])
  }

  lemma {:induction false} ChainFrame(m: seq<Word>, m': seq<Word>, head: nat, s: seq<nat>, f: nat)
    requires FreeChain(m, head, s) && f !in s && SameBut(m, m', f)
    ensures FreeChain(m', head, s)
  {
    forall k | 0 <= k < |s|
      ensures RegionOk(m', s, k)
    {
      assert RegionOk(m, s, k) && s[k] in s;
    }
  }

  lemma {:induction false} ChainPop(m: seq<Word>, head: nat, s: seq<nat>)
    requires FreeChain(m, head, s) && s != []
    ensures RegionOk(m, s, 0) && FreeChain(m, Link(s, 1), s[1..]) && s[0] !in s[1..]
  {
    assert RegionOk(m, s, 0);
    forall k | 0 <= k < |s[1..]|
      ensures RegionOk(m, s[1..], k)
    {
      assert RegionOk(m, s, k + 1);
    }
  }

  lemma {:induction false} ChainPush(m: seq<Word>, m': seq<Word>, head: nat, s: seq<nat>, f: nat)
    requires FreeChain(m, head, s) && f !in s && f != 0 && SameBut(m, m', f)
    requires Fits(m', f) && At(m', f, 0) == Word(0, f, 0) && At(m', f, 1) == Word(0, head, 0)
    ensures FreeChain(m', f, [f] + s)
  {
    ChainFrame(m, m', head, s, f);
    forall k | 0 <= k < |[f] + s|
      ensures RegionOk(m', [f] + s, k)
    {
      if k > 0 {
        assert RegionOk(m', s, k - 1);
      }
    }
  }

  // ----- a whole path -----

  /** Three tables hanging below one another along `virt` make up its path. */
  lemma {:induction false} PathOf(m: seq<Word>, root: nat, G: Tables, t3: nat, t2: nat, t1: nat, virt: nat)
    requires Tree(m, root, G) && t3 in G && t2 in G && t1 in G
    requires G[t3] == Node(3, root, Index(4, virt)) && G[t2] == Node(2, t3, Index(3, virt))
             && G[t1] == Node(1, t2, Index(2, virt))
    ensures OnPath(m, root, G, t1, virt)
  {
    assert Up(m, root, G, t1, 1) == t1;
    assert Up(m, root, G, t1, 2) == t2;
    assert Up(m, root, G, t1, 3) == t3;
  }

  /** Adding the next missing level leaves one fewer to add. */
  lemma {:induction false} MissingAfter(m: seq<Word>, level: nat, c: nat, virt: nat)
    requires 1 <= level <= 3 && Zeroed(m, c)
    ensures Missing(m, level, c, virt) == level - 1
  {
  }

  /** The walks after page `virt` was made to read `w`. */
  ghost predicate Remapped(m: seq<Word>, m': seq<Word>, root: nat, virt: nat, w: Option<Word>) {
    && (forall v: nat :: Walk(m', 4, root, v) == if PageOf(v) == PageOf(virt) then w else Walk(m, 4, root, v))
    && (forall v: nat :: PageOf(v) != PageOf(virt) ==> Entries(m', 4, root, v) == Entries(m, 4, root, v))
  }

  lemma {:induction false} LeafRemaps(m0: seq<Word>, m: seq<Word>, root: nat, G: Tables, t1: nat, virt: nat, w: Word)
    requires SameWalks(m0, m, root) && Tree(m, root, G) && t1 in G && G[t1].level == 1 && OnPath(m, root, G, t1, virt)
    ensures Remapped(m0, Set(m, t1, Index(1, virt), w), root, virt, if Present(w) then Some(w) else None)
  {
    forall v: nat
      ensures Walk(Set(m, t1, Index(1, virt), w), 4, root, v)
           == if PageOf(v) == PageOf(virt) then (if Present(w) then Some(w) else None) else Walk(m0, 4, root, v)
      ensures PageOf(v) != PageOf(virt) ==>
                Entries(Set(m, t1, Index(1, virt), w), 4, root, v) == Entries(m0, 4, root, v)
    {
      LeafWrite(m, root, G, t1, virt, w, v);
    }
  }

  lemma {:induction false} RemapChain(m0: seq<Word>, m1: seq<Word>, m2: seq<Word>, root: nat, virt: nat,
                                      w: Option<Word>)
    requires SameWalks(m0, m1, root) && Remapped(m1, m2, root, virt, w)
    ensures Remapped(m0, m2, root, virt, w)
  {
  }

  /** A walk that misses at some level misses for the whole page. */
  lemma {:induction false} SameWalkOnPage(m: seq<Word>, level: nat, t: nat, u: nat, v: nat)
    requires level <= 4 && forall l :: 1 <= l <= 4 ==> Index(l, u) == Index(l, v)
    ensures Walk(m, level, t, u) == Walk(m, level, t, v)
    decreases level
  {
    if level >= 1 && Fits(m, t) {
      assert Index(level, u) == Index(level, v);
      var e := At(m, t, Index(level, u));
      if Present(e) && level >= 2 {
        SameWalkOnPage(m, level - 1, e.frame, u, v);
      }
    }
  }

  lemma {:induction false} AlreadyUnmapped(m: seq<Word>, root: nat, virt: nat)
    requires Walk(m, 4, root, virt) == None
    ensures Remapped(m, m, root, virt, None)
  {
    forall v: nat | PageOf(v) == PageOf(virt)
      ensures Walk(m, 4, root, v) == None
    {
      SamePage(v, virt);
      SameWalkOnPage(m, 4, root, v, virt);
    }
  }

  /** Mapping a page that was unmapped and unmapping it again changes no walk. */
  lemma {:induction false} MapThenUnmap(m0: seq<Word>, m1: seq<Word>, m2: seq<Word>, root: nat, virt: nat, w: Word)
    requires Walk(m0, 4, root, virt) == None && Remapped(m0, m1, root, virt, Some(w))
             && Remapped(m1, m2, root, virt, None)
    ensures SameWalks(m0, m2, root)
  {
    forall v: nat
      ensures Walk(m2, 4, root, v) == Walk(m0, 4, root, v) && Entries(m2, 4, root, v) == Entries(m0, 4, root, v)
    {
      assert Walk(m1, 4, root, v) == if PageOf(v) == PageOf(virt) then Some(w) else Walk(m0, 4, root, v);
      if PageOf(v) == PageOf(virt) {
        SamePage(v, virt);
        SameWalkOnPage(m0, 4, root, v, virt);
      }
    }
  }

  // ----- whole runs -----

  lemma {:induction false} MissingAtMost(m: seq<Word>, level: nat, t: nat, virt: nat)
    requires 1 <= level <= 4
    ensures Missing(m, level, t, virt) <= level - 1
    decreases level
  {
    if level > 1 && Fits(m, t) && Present(At(m, t, Index(level, virt))) {
      MissingAtMost(m, level - 1, At(m, t, Index(level, virt)).frame, virt);
    }
  }

  /** When every level is missing, the slot is empty. */
  lemma {:induction false} AllMissing(m: seq<Word>, level: nat, t: nat, virt: nat)
    requires 2 <= level <= 4 && Fits(m, t) && Missing(m, level, t, virt) == level - 1
    ensures !Present(At(m, t, Index(level, virt)))
  {
    if Present(At(m, t, Index(level, virt))) {
      MissingAtMost(m, level - 1, At(m, t, Index(level, virt)).frame, virt);
    }
  }

  /** What each page touched by a run of map and unmap calls reads afterwards. */
  type Overrides = map<nat, Option<Word>>

  /** The walks are those of `m0`, overridden page by page. */
  ghost predicate Overridden(m0: seq<Word>, m: seq<Word>, root: nat, o: Overrides) {
    forall v: nat :: Walk(m, 4, root, v) == if PageOf(v) in o then o[PageOf(v)] else Walk(m0, 4, root, v)
  }

  lemma {:induction false} OverrideSame(m0: seq<Word>, m: seq<Word>, m': seq<Word>, root: nat, o: Overrides)
    requires Overridden(m0, m, root, o) && SameWalks(m, m', root)
    ensures Overridden(m0, m', root, o)
  {
  }

  lemma {:induction false} OverrideMore(m0: seq<Word>, m: seq<Word>, m': seq<Word>, root: nat, o: Overrides, virt: nat,
                                        w: Option<Word>)
    requires Overridden(m0, m, root, o) && Remapped(m, m', root, virt, w)
    ensures Overridden(m0, m', root, o[PageOf(virt) := w])
  {
    forall v: nat
      ensures Walk(m', 4, root, v) == if PageOf(v) in o[PageOf(virt) := w] then o[PageOf(virt) := w][PageOf(v)]
              else Walk(m0, 4, root, v)
    {
      assert Walk(m', 4, root, v) == if PageOf(v) == PageOf(virt) then w else Walk(m, 4, root, v);
    }
  }
}

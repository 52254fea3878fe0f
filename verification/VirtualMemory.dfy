/** The physical frame allocator and the page-table code on top of it, on one
    memory. Addresses in the direct map are told by their frame number. */
module VirtualMemory {
  import opened Common
  import opened PageTables
  import opened FrameZero

  /** Every usable frame is free, a table, or owned by a client, and only one of these. */
  ghost predicate Partition(free: seq<nat>, G: Tables, owned: set<nat>, usable: set<nat>) {
    && (forall f :: f in free ==> f in usable && f !in G && f !in owned)
    && owned <= usable && owned !! G.Keys && 0 !in usable
    && (forall f :: f in usable ==> f in free || f in G || f in owned)
  }

  /** `w | PTE_PRESENT`. */
  function WithPresent(low: nat): nat { low - low % 2 + 1 }

  /** `flags & PTE_USER`. */
  function UserBit(low: nat): nat {
    if low / 4 % 2 == 1 then 4 else 0
  }

  datatype PageOp =
    | MapOp(virt: nat, phys: nat, flags: Word)
    | UnmapOp(virt: nat)
    | AllocOp
    | FreeOp(i: nat)

  /** The leaf word `map_page` writes. */
  function LeafWord(phys: nat, flags: Word): Word {
    Word(WithPresent(flags.low), phys, flags.high)
  }

  /** Bit by bit: the present bit, the other flags as given, and the frame between them. */
  lemma {:induction false} LeafBits(phys: nat, flags: Word)
    ensures var w := LeafWord(phys, flags);
            && Present(w) && w.frame == phys && w.high == flags.high && w.low / 2 == flags.low / 2
            && RightsOf(w) == RightsOf(flags)
    ensures UserBit(flags.low) == (if RightsOf(flags).user then 4 else 0)
  {
    assert WithPresent(flags.low) == flags.low / 2 * 2 + 1;
    assert WithPresent(flags.low) / 2 == flags.low / 2;
    assert WithPresent(flags.low) / 4 == flags.low / 2 / 2 == flags.low / 4;
  }

  /** Where no table was there before, the page allows what its flags say. */
  lemma {:induction false} FreshRights(m: seq<Word>, root: nat, virt: nat)
    requires Missing(m, 4, root, virt) == 3
    ensures TableRights(m, 4, root, virt) == ALL_RIGHTS
  {
    if Fits(m, root) {
      AllMissing(m, 4, root, virt);
    }
  }

  /** Where all were, it allows a thing only if each of them does. */
  lemma {:induction false} OldRights(m: seq<Word>, root: nat, t3: nat, t2: nat, virt: nat)
    requires Fits(m, root) && Present(At(m, root, Index(4, virt))) && At(m, root, Index(4, virt)).frame == t3
    requires Fits(m, t3) && Present(At(m, t3, Index(3, virt))) && At(m, t3, Index(3, virt)).frame == t2
    requires Fits(m, t2) && Present(At(m, t2, Index(2, virt)))
    ensures TableRights(m, 4, root, virt)
         == Both(RightsOf(At(m, root, Index(4, virt))),
              Both(RightsOf(At(m, t3, Index(3, virt))), RightsOf(At(m, t2, Index(2, virt)))))
  {
    assert TableRights(m, 2, t2, virt) == RightsOf(At(m, t2, Index(2, virt)));
    assert TableRights(m, 3, t3, virt) == Both(RightsOf(At(m, t3, Index(3, virt))), TableRights(m, 2, t2, virt));
  }

  /** Mapping or unmapping a page leaves what every other page allows. */
  lemma {:induction false} OtherRights(m: seq<Word>, m': seq<Word>, root: nat, virt: nat, w: Option<Word>, v: nat)
    requires Remapped(m, m', root, virt, w) && PageOf(v) != PageOf(virt)
    ensures Access(m', root, v) == Access(m, root, v)
  {
    assert Entries(m', 4, root, v) == Entries(m, 4, root, v);
  }

  /** What a run does to the walks, told page by page without any table. */
  function Effect(ops: seq<PageOp>, done: seq<bool>): Overrides
    requires |done| == |ops|
    decreases |ops|
  {
    if ops == [] then map[]
    else
      var n := |ops| - 1;
      var o := Effect(ops[..n], done[..n]);
      if !done[n] then o
      else
        match ops[n]
        case MapOp(virt, phys, flags) => o[PageOf(virt) := Some(LeafWord(phys, flags))]
        case UnmapOp(virt) => o[PageOf(virt) := None]
        case _ => o
  }

  /** What one call does to the walks. */
  ghost predicate Shown(m: seq<Word>, m': seq<Word>, root: nat, op: PageOp, done: bool) {
    if done && op.MapOp? then Remapped(m, m', root, op.virt, Some(LeafWord(op.phys, op.flags)))
    else if done && op.UnmapOp? then Remapped(m, m', root, op.virt, None)
    else SameWalks(m, m', root)
  }

  /** What a run goes through: the memory, the free frames and those the client holds. */
  datatype Moment = Moment(mem: seq<Word>, free: seq<nat>, held: seq<nat>)

  /** One call: whether it is made, where the frames go, and what every page then reads. */
  ghost predicate Makes(root: nat, op: PageOp, done: bool, a: Moment, b: Moment) {
    StepMade(op, done, a.free, a.held, b.held, Need(a.mem, root, op), b.free) && Shown(a.mem, b.mem, root, op, done)
  }

  /** A run, moment by moment. */
  ghost predicate IsRun(root: nat, ops: seq<PageOp>, done: seq<bool>, trace: seq<Moment>) {
    && |done| == |ops| && |trace| == |ops| + 1
    && forall n {:trigger ops[n]} :: 0 <= n < |ops| ==> Makes(root, ops[n], done[n], trace[n], trace[n + 1])
  }

  /** A run on the walks is the override its maps and unmaps describe. */
  lemma {:induction false} RunEffect(root: nat, ops: seq<PageOp>, done: seq<bool>, trace: seq<Moment>, n: nat)
    requires IsRun(root, ops, done, trace) && n <= |ops|
    ensures Overridden(trace[0].mem, trace[n].mem, root, Effect(ops[..n], done[..n]))
    decreases n
  {
    if n > 0 {
      RunEffect(root, ops, done, trace, n - 1);
      assert Makes(root, ops[n - 1], done[n - 1], trace[n - 1], trace[n]);
      assert done[..n] == done[..n - 1] + [done[n - 1]];
      EffectMore(trace[0].mem, trace[n - 1].mem, trace[n].mem, root, ops, done[..n - 1], done[n - 1], n - 1);
    }
  }

  /** Each call takes at most three frames. */
  lemma {:induction false} FramesLast(root: nat, ops: seq<PageOp>, done: seq<bool>, trace: seq<Moment>, n: nat)
    requires IsRun(root, ops, done, trace) && n <= |ops|
    ensures |trace[n].free| + 3 * n >= |trace[0].free|
    decreases n
  {
    if n > 0 {
      FramesLast(root, ops, done, trace, n - 1);
      assert Makes(root, ops[n - 1], done[n - 1], trace[n - 1], trace[n]);
      if ops[n - 1].MapOp? {
        MissingAtMost(trace[n - 1].mem, 4, root, ops[n - 1].virt);
      }
    }
  }

  /** So with three free frames for every call to come, each map, unmap and allocation is
      made. */
  lemma {:induction false} AllMade(root: nat, ops: seq<PageOp>, done: seq<bool>, trace: seq<Moment>, n: nat)
    requires IsRun(root, ops, done, trace) && n < |ops| && 3 * |ops| <= |trace[0].free| && !ops[n].FreeOp?
    ensures done[n]
  {
    FramesLast(root, ops, done, trace, n);
    assert Makes(root, ops[n], done[n], trace[n], trace[n + 1]);
    if ops[n].MapOp? {
      MissingAtMost(trace[n].mem, 4, root, ops[n].virt);
    }
  }

  lemma {:induction false} EffectMore(m0: seq<Word>, m: seq<Word>, m': seq<Word>, root: nat, ops: seq<PageOp>,
                                      done: seq<bool>, made: bool, n: nat)
    requires n < |ops| && |done| == n && Overridden(m0, m, root, Effect(ops[..n], done))
             && Shown(m, m', root, ops[n], made)
    ensures Overridden(m0, m', root, Effect(ops[..n + 1], done + [made]))
  {
    assert ops[..n + 1][..n] == ops[..n] && (done + [made])[..n] == done;
    var o := Effect(ops[..n], done);
    if made && ops[n].MapOp? {
      OverrideMore(m0, m, m', root, o, ops[n].virt, Some(LeafWord(ops[n].phys, ops[n].flags)));
    } else if made && ops[n].UnmapOp? {
      OverrideMore(m0, m, m', root, o, ops[n].virt, None);
    } else {
      OverrideSame(m0, m, m', root, o);
    }
  }

  // ----- the frames a client holds -----

  /** The client's list is its frames, each once. */
  ghost predicate Holds(held: seq<nat>, owned: set<nat>) {
    && (forall i :: 0 <= i < |held| ==> held[i] in owned)
    && (forall i, j :: 0 <= i < j < |held| ==> held[i] != held[j])
    && (forall f :: f in owned ==> f in held)
  }

  lemma {:induction false} HoldsMore(held: seq<nat>, owned: set<nat>, f: nat)
    requires Holds(held, owned) && f !in owned
    ensures Holds(held + [f], owned + {f})
  {
  }

  lemma {:induction false} HoldsFewer(held: seq<nat>, owned: set<nat>, i: nat)
    requires Holds(held, owned) && i < |held|
    ensures Holds(Without(held, i), owned - {held[i]})
  {
    var rest := Without(held, i);
    forall f | f in owned - {held[i]}
      ensures f in rest
    {
      var j :| 0 <= j < |held| && held[j] == f;
      assert rest[if j < i then j else j - 1] == f;
    }
  }

  /** The tables a map call has to make. */
  ghost function Need(m: seq<Word>, root: nat, op: PageOp): nat {
    if op.MapOp? then Missing(m, 4, root, op.virt) else 0
  }

  /** Which calls are made, and where frames go: maps take exactly the missing tables,
      an allocation the first free frame, and a release puts one back. */
  ghost predicate StepMade(op: PageOp, done: bool, free: seq<nat>, held: seq<nat>, held': seq<nat>, need: nat,
                           free': seq<nat>) {
    match op
    case MapOp(virt, phys, flags) =>
      done == (need <= |free|) && held' == held && (done ==> free' == free[need..]) && (!done ==> free' == free)
    case UnmapOp(virt) => done && held' == held && free' == free
    case AllocOp =>
      done == (free != []) && (done ==> held' == held + [free[0]] && free' == free[1..])
        && (!done ==> held' == held && free' == free)
    case FreeOp(i) =>
      done == (i < |held|) && (done ==> held' == Without(held, i) && free' == [held[i]] + free)
        && (!done ==> held' == held && free' == free)
  }

  /** One entry of the boot loader's memory map, in bytes. */
  datatype Region = Region(base: nat, length: nat, isUsable: bool)

  const PAGE_SIZE := 4096

  /** Frame `f` lies entirely inside a usable region. */
  predicate Inside(r: Region, f: nat) {
    r.isUsable && r.base <= PAGE_SIZE * f && PAGE_SIZE * f + PAGE_SIZE <= r.base + r.length
  }

  function AlignUp(x: nat): nat { (x + (PAGE_SIZE - 1)) / PAGE_SIZE * PAGE_SIZE }
  function AlignDown(x: nat): nat { x / PAGE_SIZE * PAGE_SIZE }

  /** The aligned bounds enclose exactly the whole frames of a region. */
  lemma {:induction false} WholeFrames(r: Region, f: nat)
    requires r.isUsable
    ensures Inside(r, f) <==> AlignUp(r.base) <= PAGE_SIZE * f < AlignDown(r.base + r.length)
  {
  }

  /** `after` adds to `before` the frames of `r` below address `bound`. */
  ghost predicate AddedBelow(before: set<nat>, after: set<nat>, r: Region, bound: nat) {
    forall f :: f in after <==> f in before || (Inside(r, f) && PAGE_SIZE * f < bound)
  }

  lemma {:induction false} NoneBelow(before: set<nat>, r: Region)
    requires r.isUsable
    ensures AddedBelow(before, before, r, AlignUp(r.base))
  {
    forall f | Inside(r, f)
      ensures AlignUp(r.base) <= PAGE_SIZE * f
    {
      WholeFrames(r, f);
    }
  }

  lemma {:induction false} AddOne(before: set<nat>, after: set<nat>, r: Region, f: nat)
    requires AddedBelow(before, after, r, PAGE_SIZE * f) && Inside(r, f)
    ensures AddedBelow(before, after + {f}, r, PAGE_SIZE * f + PAGE_SIZE)
  {
  }

  lemma {:induction false} AddedAll(before: set<nat>, after: set<nat>, r: Region, bound: nat)
    requires r.isUsable && AddedBelow(before, after, r, bound) && AlignDown(r.base + r.length) <= bound
    ensures forall f :: f in after <==> f in before || Inside(r, f)
  {
    forall f | Inside(r, f)
      ensures PAGE_SIZE * f < bound
    {
      WholeFrames(r, f);
    }
  }

  class Memory {
    const mem: array<Word>
    /** Frame of the PML4. */
    const root: nat
    /** Frame number held in free_mem_head; 0 for NULL. */
    var head: nat
    var totalPages: nat
    var freePages: nat

    ghost var free: seq<nat>
    ghost var G: Tables
    ghost var owned: set<nat>
    ghost var usable: set<nat>

    ghost predicate Valid()
      reads this, mem
    {
      && FreeChain(mem[..], head, free) && Tree(mem[..], root, G) && Partition(free, G, owned, usable)
      && (forall f :: f in usable ==> Fits(mem[..], f))
      && freePages == |free| && totalPages == |usable|
    }

    /** Taking over the boot loader's memory and tables. */
    constructor (mem: array<Word>, root: nat, ghost tables: Tables)
      requires Tree(mem[..], root, tables)
      ensures Valid() && this.mem == mem && this.root == root && head == 0 && totalPages == 0 && freePages == 0
      ensures free == [] && G == tables && owned == {} && usable == {}
    {
      this.mem := mem;
      this.root := root;
      head, totalPages, freePages := 0, 0, 0;
      free, G, owned, usable := [], tables, {}, {};
    }

    // ----- frames -----

    /** A frame the list may hold: in memory, not frame 0, not a table. */
    ghost predicate Room(f: nat)
      reads this`G
    {
      ENTRIES * f + ENTRIES <= mem.Length && f !in G && f != 0
    }

    /** What `pmm_init` starts from: no list yet, and tables outside the usable regions. */
    ghost predicate Booted(regions: seq<Region>)
      reads this, mem
    {
      && head == 0 && totalPages == 0 && freePages == 0 && free == [] && usable == {} && owned == {}
      && Tree(mem[..], root, G)
      && (forall i, f :: 0 <= i < |regions| && Inside(regions[i], f) ==> Room(f))
      && (forall i, j, f :: 0 <= i < j < |regions| && Inside(regions[i], f) ==> !Inside(regions[j], f))
    }

    /** Pushing a frame the list does not hold yet. */
    method PushNew(f: nat)
      requires Valid() && f !in usable && Room(f)
      modifies this`head, this`totalPages, this`freePages, this`free, this`usable, mem
      ensures Valid() && free == [f] + old(free) && usable == old(usable) + {f}
      ensures totalPages == old(totalPages) + 1 && freePages == old(freePages) + 1
    {
      mem[ENTRIES * f] := Word(0, f, 0);
      mem[ENTRIES * f + 1] := Word(0, head, 0);
      ChainPush(old(mem[..]), mem[..], head, free, f);
      OutsideTree(old(mem[..]), mem[..], root, G, f);
      assert Tree(mem[..], root, G);
      head := f;
      totalPages := totalPages + 1;
      freePages := freePages + 1;
      free := [f] + free;
      usable := usable + {f};
    }

    /** The frames of one region. */
    method AddRegion(r: Region)
      requires Valid() && owned == {} && r.isUsable
      requires forall f :: Inside(r, f) ==> f !in usable && Room(f)
      modifies this`head, this`totalPages, this`freePages, this`free, this`usable, mem
      ensures Valid()
      ensures forall f :: f in usable <==> f in old(usable) || Inside(r, f)
      ensures totalPages - freePages == old(totalPages) - old(freePages)
    {
      var current, end := AlignUp(r.base), AlignDown(r.base + r.length);
      var f := current / PAGE_SIZE;
      NoneBelow(usable, r);
      while current < end
        invariant current == PAGE_SIZE * f && AlignUp(r.base) <= current
        invariant Valid()
        invariant AddedBelow(old(usable), usable, r, current)
        invariant totalPages - freePages == old(totalPages) - old(freePages)
      {
        WholeFrames(r, f);
        assert Inside(r, f) && f !in usable && Room(f);
        AddOne(old(usable), usable, r, f);
        PushNew(f);
        current, f := current + PAGE_SIZE, f + 1;
      }
      AddedAll(old(usable), usable, r, current);
    }

    /** Lists exactly the whole frames of the usable regions, each once. */
    method PmmInit(regions: seq<Region>)
      requires Booted(regions)
      modifies this`head, this`totalPages, this`freePages, this`free, this`usable, mem
      ensures Valid() && owned == {}
      ensures forall f :: f in free <==> exists i :: 0 <= i < |regions| && Inside(regions[i], f)
      ensures totalPages == freePages == |free|
    {
      for n := 0 to |regions|
        invariant Valid() && owned == {}
        invariant forall f :: f in usable <==> exists i :: 0 <= i < n && Inside(regions[i], f)
        invariant (forall f :: f in usable ==> f in free) && totalPages == freePages
      {
        if regions[n].isUsable {
          AddRegion(regions[n]);
        }
      }
    }

    /** The free list is in order. */
    ghost predicate Listed()
      reads this, mem
    {
      FreeChain(mem[..], head, free) && freePages == |free|
    }

    method Palloc() returns (f: nat)
      requires Listed()
      modifies this`head, this`freePages, this`free, this`owned
      ensures Listed() && f == First(old(free)) && free == After(old(free), 1) && f !in free
              && (f == 0 <==> old(free) == [])
      ensures owned == if old(free) == [] then old(owned) else old(owned) + {f}
      ensures old(Valid()) ==> Valid() && f !in old(owned) && (f != 0 ==> f in usable && f !in G)
    {
      assert free != [] ==> RegionOk(mem[..], free, 0);
      if head == 0 {
        return 0;
      }
      ChainPop(mem[..], head, free);
      f := mem[ENTRIES * head].frame;
      head := mem[ENTRIES * head + 1].frame;
      freePages := freePages - 1;
      free := free[1..];
      owned := owned + {f};
    }

    method Pfree(f: nat)
      requires Valid() && f in owned
      modifies this`head, this`freePages, this`free, this`owned, mem
      ensures Valid() && free == [f] + old(free) && owned == old(owned) - {f}
      ensures SameWalks(old(mem[..]), mem[..], root) && SameBut(old(mem[..]), mem[..], f)
    {
      mem[ENTRIES * f + 1] := Word(0, head, 0);
      mem[ENTRIES * f] := Word(0, f, 0);
      ChainPush(old(mem[..]), mem[..], head, free, f);
      OutsideTree(old(mem[..]), mem[..], root, G, f);
      head := f;
      freePages := freePages + 1;
      free := [f] + free;
      owned := owned - {f};
    }

    /** `memset(frame, 0, 4096)`. */
    method ClearFrame(z: nat)
      requires Fits(mem[..], z)
      modifies mem
      ensures Zeroed(mem[..], z) && SameBut(old(mem[..]), mem[..], z)
    {
      for i := 0 to ENTRIES
        invariant SameBut(old(mem[..]), mem[..], z)
        invariant forall j :: 0 <= j < i ==> At(mem[..], z, j) == ZERO_WORD
      {
        ghost var m := mem[..];
        mem[ENTRIES * z + i] := ZERO_WORD;
        assert mem[..] == Set(m, z, i, ZERO_WORD);
        forall j | 0 <= j < i + 1
          ensures At(mem[..], z, j) == ZERO_WORD
        {
          AtSet(m, z, i, ZERO_WORD, z, j);
        }
      }
    }

    /** A zeroed frame, for now owned by the caller; frame 0 when there is no free one. */
    method AllocTable() returns (z: nat)
      requires Listed() && Fits(mem[..], 0)
      modifies this`head, this`freePages, this`free, this`owned, mem
      ensures Listed() && z == First(old(free)) && free == After(old(free), 1) && z !in free
      ensures owned == if old(free) == [] then old(owned) else old(owned) + {z}
      ensures Zeroed(mem[..], z) && SameBut(old(mem[..]), mem[..], z)
      ensures old(Valid()) && z !in G ==> Valid() && z !in old(owned) && SameWalks(old(mem[..]), mem[..], root)
    {
      assert free != [] ==> RegionOk(mem[..], free, 0);
      z := Palloc();
      ClearFrame(z);
      ChainFrame(old(mem[..]), mem[..], head, free, z);
      if old(Valid()) && z !in G {
        OutsideTree(old(mem[..]), mem[..], root, G, z);
      }
    }

    // ----- tables -----

    /** Table `t` of level `level` is at hand: it belongs to the tree, or frame 0 has been
        taken for a table too often and leads nowhere else. */
    ghost predicate AtHand(t: nat, level: nat)
      reads this, mem
    {
      Listed() && ((Valid() && t in G && G[t].level == level) || (free == [] && t == 0 && Looped(mem[..])))
    }

    /** The next table is there, or there is a frame for it that is no table yet. */
    ghost predicate Provided(t: nat, level: nat, virt: nat)
      reads this, mem
      requires 2 <= level <= 4
    {
      Valid() && t in G && G[t].level == level && (Present(At(mem[..], t, Index(level, virt))) || free != [] || 0 !in G)
    }

    /** One level of `map_page`: the table the slot points to, made if missing. */
    method NextTable(t: nat, level: nat, virt: nat, user: nat) returns (c: nat)
      requires 2 <= level <= 4 && AtHand(t, level) && (user == 0 || user == 4)
      modifies this`head, this`freePages, this`free, this`owned, this`G, mem
      ensures AtHand(c, level - 1)
      ensures LevelStep(old(mem[..]), old(free), mem[..], free, t, Index(level, virt), user, c)
      ensures old(Provided(t, level, virt)) ==>
                Valid() && owned == old(owned) && Descended(old(mem[..]), mem[..], root, old(G), G, t, level, virt, c)
    {
      var i := Index(level, virt);
      assert Valid() && t in G ==> SlotOk(mem[..], G, t, i);
      assert Looped(mem[..]) && t == 0 && Present(At(mem[..], 0, i)) ==> At(mem[..], 0, i).frame == 0;
      if !Present(mem[ENTRIES * t + i]) {
        c := MakeTable(t, level, virt, i, user);
      } else {
        c := mem[ENTRIES * t + i].frame;
      }
    }

    /** A new, empty table for an empty slot. */
    method MakeTable(t: nat, ghost level: nat, ghost virt: nat, i: nat, user: nat) returns (c: nat)
      requires 2 <= level <= 4 && AtHand(t, level) && (user == 0 || user == 4)
      requires Fits(mem[..], t) && i == Index(level, virt) && !Present(At(mem[..], t, i))
      modifies this`head, this`freePages, this`free, this`owned, this`G, mem
      ensures AtHand(c, level - 1)
      ensures LevelStep(old(mem[..]), old(free), mem[..], free, t, i, user, c)
      ensures old(Provided(t, level, virt)) ==>
                Valid() && owned == old(owned) && Descended(old(mem[..]), mem[..], root, old(G), G, t, level, virt, c)
    {
      ghost var m := mem[..];
      c := AllocTable();
      ghost var m1 := mem[..];
      assert old(Provided(t, level, virt)) ==> c !in G && At(m1, t, i) == At(m, t, i);
      LinkTable(t, level, i, c, user);
      HungNow(m, m1, t, i, c, TableWord(c, user));
      MissingAfterHung(m, mem[..], level, t, c, virt, user);
      if old(free) == [] {
        HungLoops(m, mem[..], t, i, TableWord(c, user));
      }
    }

    /** Hanging the zeroed frame `c` into a slot. */
    method LinkTable(t: nat, ghost level: nat, i: nat, c: nat, user: nat)
      requires Listed() && Fits(mem[..], t) && t !in free && i < ENTRIES && (user == 0 || user == 4)
      modifies this`owned, this`G, mem
      ensures Listed() && mem[..] == Set(old(mem[..]), t, i, TableWord(c, user))
      ensures old(Linkable(t, level, i, c)) ==>
                && Valid() && SameWalks(old(mem[..]), mem[..], root) && owned == old(owned) - {c}
                && G == old(G)[c := Node(level - 1, t, i)]
    {
      ghost var m := mem[..];
      var w := TableWord(c, user);
      mem[ENTRIES * t + i] := w;
      assert mem[..] == Set(m, t, i, w);
      SetSameBut(m, t, i, w);
      ChainFrame(m, mem[..], head, free, t);
      if old(Linkable(t, level, i, c)) {
        AddTable(m, root, G, t, i, w);
        G := G[c := Node(level - 1, t, i)];
        owned := owned - {c};
      }
    }

    /** The slot is empty and the frame neither a table nor free. */
    ghost predicate Linkable(t: nat, level: nat, i: nat, c: nat)
      reads this, mem
    {
      && Valid() && t in G && G[t].level == level && level >= 2 && i < ENTRIES && !Present(At(mem[..], t, i))
      && Zeroed(mem[..], c) && c !in G && c !in free && (c in owned || c == 0)
    }

    /** Enough frames for `n` more tables: the free ones, and frame 0 once. */
    ghost predicate RoomFor(n: nat)
      reads this`free, this`G
    {
      n <= |free| || (n == |free| + 1 && 0 !in G)
    }

    /** The first two levels. If at most one frame is missing, the free ones suffice. */
    method ReachDirectory(virt: nat, user: nat) returns (pdpt: nat, pd: nat, ghost m1: seq<Word>, ghost f1: seq<nat>)
      requires Valid() && (user == 0 || user == 4)
      modifies this`head, this`freePages, this`free, this`owned, this`G, mem
      ensures AtHand(pd, 2)
      ensures LevelStep(old(mem[..]), old(free), m1, f1, root, Index(4, virt), user, pdpt)
      ensures LevelStep(m1, f1, mem[..], free, pdpt, Index(3, virt), user, pd)
      ensures Missing(old(mem[..]), 4, root, virt) <= |old(free)| + 1 ==>
                && Valid() && owned == old(owned)
                && OnWay(old(mem[..]), mem[..], root, old(G), G, old(free), free, pdpt, pd, virt)
      ensures Missing(old(mem[..]), 4, root, virt) > |old(free)| + 1 ==> free == []
    {
      ghost var m, f, G0 := mem[..], free, G;
      pdpt := NextTable(root, 4, virt, user);
      m1, f1 := mem[..], free;
      ghost var G1 := G;
      if Missing(m, 4, root, virt) <= |f| + 1 {
        OneDown(m, f, m1, f1, root, G0, G1, virt, user, pdpt);
      }
      pd := NextTable(pdpt, 3, virt, user);
      if Missing(m, 4, root, virt) <= |f| + 1 {
        TwoDown(m, f, m1, f1, mem[..], free, root, G0, G1, G, virt, user, pdpt, pd);
      } else {
        UsedUp(m, f, m1, f1, mem[..], free, root, virt, user, pdpt, pd);
      }
    }

    /** The leaf table of `virt`, with the missing levels made. */
    method ReachLeaf(virt: nat, user: nat) returns (pt: nat, ghost k: Climb)
      requires Valid() && (user == 0 || user == 4)
      modifies this`head, this`freePages, this`free, this`owned, this`G, mem
      ensures AtHand(pt, 1) && k.m3 == mem[..] && k.f3 == free && k.t1 == pt
      ensures Climbed(old(mem[..]), old(free), root, virt, user, k)
      ensures free == After(old(free), Missing(old(mem[..]), 4, root, virt))
      ensures Missing(old(mem[..]), 4, root, virt) <= |old(free)| + 1 ==>
                OnWay(old(mem[..]), k.m2, root, old(G), k.G2, old(free), k.f2, k.t3, k.t2, virt)
                  && Tree(k.m2, root, k.G2)
      ensures old(RoomFor(Missing(mem[..], 4, root, virt))) ==>
                && Valid() && owned == old(owned) && SameWalks(old(mem[..]), mem[..], root)
                && pt in G && G[pt].level == 1 && OnPath(mem[..], root, G, pt, virt)
                && (forall g :: g in old(G) ==> g in G && G[g] == old(G)[g])
                && (forall g :: g in k.G2 ==> g in G && G[g] == k.G2[g])
    {
      var pdpt, pd;
      ghost var m1, f1;
      pdpt, pd, m1, f1 := ReachDirectory(virt, user);
      ghost var m2, f2, G2 := mem[..], free, G;
      pt := LeafTable(virt, pdpt, pd, user);
      k := Climb(m1, f1, pdpt, m2, f2, pd, G2, mem[..], free, pt);
      FramesLeft(old(mem[..]), old(free), root, old(G), virt, user, k);
    }

    /** The third level. */
    method LeafTable(virt: nat, ghost pdpt: nat, pd: nat, user: nat) returns (pt: nat)
      requires AtHand(pd, 2) && (user == 0 || user == 4)
      modifies this`head, this`freePages, this`free, this`owned, this`G, mem
      ensures AtHand(pt, 1)
      ensures LevelStep(old(mem[..]), old(free), mem[..], free, pd, Index(2, virt), user, pt)
      ensures old(Provided(pd, 2, virt) && UpTo(pdpt, pd, virt)) ==>
                && Valid() && owned == old(owned) && SameWalks(old(mem[..]), mem[..], root)
                && pt in G && G[pt].level == 1 && OnPath(mem[..], root, G, pt, virt)
                && forall g :: g in old(G) ==> g in G && G[g] == old(G)[g]
    {
      pt := NextTable(pd, 2, virt, user);
      if old(Provided(pd, 2, virt) && UpTo(pdpt, pd, virt)) {
        PathOf(mem[..], root, G, pdpt, pd, pt, virt);
      }
    }

    /** The two tables are on the path of `virt`. */
    ghost predicate UpTo(pdpt: nat, pd: nat, virt: nat)
      reads this`G
    {
      pdpt in G && pd in G && G[pdpt] == Node(3, root, Index(4, virt)) && G[pd] == Node(2, pdpt, Index(3, virt))
    }

    method SetLeaf(pt: nat, virt: nat, w: Word)
      requires AtHand(pt, 1)
      modifies mem
      ensures Fits(old(mem[..]), pt) && mem[..] == Set(old(mem[..]), pt, Index(1, virt), w)
      ensures old(Valid() && pt in G && G[pt].level == 1 && OnPath(mem[..], root, G, pt, virt)) ==>
                Valid() && Remapped(old(mem[..]), mem[..], root, virt, if Present(w) then Some(w) else None)
    {
      ghost var m := mem[..];
      var i := Index(1, virt);
      mem[ENTRIES * pt + i] := w;
      assert mem[..] == Set(m, pt, i, w);
      if old(Valid() && pt in G && G[pt].level == 1 && OnPath(mem[..], root, G, pt, virt)) {
        LeafRemaps(m, m, root, G, pt, virt, w);
        LeafTree(m, root, G, pt, i, w);
        SetSameBut(m, pt, i, w);
        ChainFrame(m, mem[..], head, free, pt);
      }
    }

    /** Frame 0 is no table, or a leaf table, as it is when `map_page` has used it once. */
    ghost predicate ZeroLow()
      reads this`G
    {
      0 in G ==> G[0].level == 1
    }

    /** Maps one page, at the price of exactly the missing tables, and says when it maps
        exactly one. */
    method MapPage(virt: nat, phys: nat, flags: Word)
      requires Valid() && flags.frame == 0
      modifies this`head, this`freePages, this`free, this`owned, this`G, mem
      ensures free == After(old(free), Missing(old(mem[..]), 4, root, virt))
      ensures old(RoomFor(Missing(mem[..], 4, root, virt))) ==>
                && Valid() && owned == old(owned)
                && Remapped(old(mem[..]), mem[..], root, virt, Some(LeafWord(phys, flags)))
                && (forall g :: g in old(G) ==> g in G && G[g] == old(G)[g])
                && Access(mem[..], root, virt) == Some(Both(TableRights(old(mem[..]), 4, root, virt), RightsOf(flags)))
      ensures old(ZeroLow() && (Index(1, virt) != Index(2, virt) || Missing(mem[..], 4, root, virt) <= |free| + 1)) ==>
                (Remapped(old(mem[..]), mem[..], root, virt, Some(LeafWord(phys, flags))) <==>
                 MapsOne(old(mem[..]), old(free), root, old(G), virt, LeafWord(phys, flags)))
    {
      ghost var m, f, G0 := mem[..], free, G;
      var user, w := UserBit(flags.low), LeafWord(phys, flags);
      assert Present(w);
      var pt;
      ghost var k;
      pt, k := ReachLeaf(virt, user);
      SetLeaf(pt, virt, w);
      LeafBits(phys, flags);
      if old(RoomFor(Missing(mem[..], 4, root, virt))) {
        RemapChain(m, k.m3, mem[..], root, virt, Some(w));
        MapRights(m, f, root, virt, user, k, w);
      } else if old(ZeroLow() && (Index(1, virt) != Index(2, virt) || Missing(mem[..], 4, root, virt) <= |free| + 1)) {
        StarvedMap(m, f, root, G0, virt, user, k, w);
      }
    }

    /** Unmaps exactly one page and takes no frame. */
    method UnmapPage(virt: nat)
      requires Valid()
      modifies mem
      ensures Valid()
      ensures Remapped(old(mem[..]), mem[..], root, virt, None)
    {
      ghost var m := mem[..];
      var e := mem[ENTRIES * root + Index(4, virt)];
      assert SlotOk(m, G, root, Index(4, virt));
      if !Present(e) {
        AlreadyUnmapped(m, root, virt);
        return;
      }
      var pdpt := e.frame;
      assert Walk(m, 4, root, virt) == Walk(m, 3, pdpt, virt);
      e := mem[ENTRIES * pdpt + Index(3, virt)];
      assert SlotOk(m, G, pdpt, Index(3, virt));
      if !Present(e) {
        AlreadyUnmapped(m, root, virt);
        return;
      }
      var pd := e.frame;
      assert Walk(m, 3, pdpt, virt) == Walk(m, 2, pd, virt);
      e := mem[ENTRIES * pd + Index(2, virt)];
      assert SlotOk(m, G, pd, Index(2, virt));
      if !Present(e) {
        AlreadyUnmapped(m, root, virt);
        return;
      }
      PathOf(m, root, G, pdpt, pd, e.frame, virt);
      SetLeaf(e.frame, virt, ZERO_WORD);
    }

    /** How many tables `map_page` would have to make. */
    method CountMissing(virt: nat) returns (n: nat)
      requires Valid()
      ensures n == Missing(mem[..], 4, root, virt)
    {
      var level, t := 4, root;
      while level > 1
        invariant 1 <= level <= 4 && t in G && G[t].level == level
        invariant Missing(mem[..], level, t, virt) == Missing(mem[..], 4, root, virt)
      {
        var e := mem[ENTRIES * t + Index(level, virt)];
        assert SlotOk(mem[..], G, t, Index(level, virt));
        if !Present(e) {
          return level - 1;
        }
        level, t := level - 1, e.frame;
      }
      return 0;
    }

    /** One call of a client that holds the frames in `held`. A map for which there are
        too few free frames, and a release of a frame it does not hold, are not made. */
    method Step(op: PageOp, held: seq<nat>) returns (done: bool, held': seq<nat>)
      requires Valid() && Holds(held, owned) && (op.MapOp? ==> op.flags.frame == 0)
      modifies this`head, this`freePages, this`free, this`owned, this`G, mem
      ensures Valid() && Holds(held', owned)
      ensures StepMade(op, done, old(free), held, held', Need(old(mem[..]), root, op), free)
      ensures Shown(old(mem[..]), mem[..], root, op, done)
    {
      done, held' := true, held;
      match op
      case MapOp(virt, phys, flags) =>
        var n := CountMissing(virt);
        done := n <= freePages;
        if done {
          MapPage(virt, phys, flags);
        }
      case UnmapOp(virt) =>
        UnmapPage(virt);
      case AllocOp =>
        var f := Palloc();
        done := f != 0;
        if done {
          held' := held + [f];
          HoldsMore(held, old(owned), f);
        }
      case FreeOp(i) =>
        done := i < |held|;
        if done {
          Pfree(held[i]);
          held' := Without(held, i);
          HoldsFewer(held, old(owned), i);
        }
    }

    /** Any run of calls, moment by moment: it acts on the walks like the page-by-page
        override that those of its maps and unmaps that are made describe. */
    method RunPages(ops: seq<PageOp>, held: seq<nat>) returns (done: seq<bool>, held': seq<nat>,
                    ghost trace: seq<Moment>)
      requires Valid() && Holds(held, owned)
      requires forall k :: 0 <= k < |ops| && ops[k].MapOp? ==> ops[k].flags.frame == 0
      modifies this`head, this`freePages, this`free, this`owned, this`G, mem
      ensures Valid() && Holds(held', owned) && IsRun(root, ops, done, trace)
      ensures trace[0] == Moment(old(mem[..]), old(free), held) && trace[|ops|] == Moment(mem[..], free, held')
      ensures Overridden(old(mem[..]), mem[..], root, Effect(ops, done))
    {
      done, held', trace := [], held, [Moment(mem[..], free, held)];
      for n := 0 to |ops|
        invariant Valid() && Holds(held', owned) && |done| == n && |trace| == n + 1
        invariant trace[0] == Moment(old(mem[..]), old(free), held) && trace[n] == Moment(mem[..], free, held')
        invariant forall k {:trigger ops[k]} :: 0 <= k < n ==> Makes(root, ops[k], done[k], trace[k], trace[k + 1])
      {
        var made;
        made, held' := Step(ops[n], held');
        done, trace := done + [made], trace + [Moment(mem[..], free, held')];
      }
      RunEffect(root, ops, done, trace, |ops|);
      assert ops[..|ops|] == ops && done[..|ops|] == done;
    }
  }
}

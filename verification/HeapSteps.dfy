/** One allocator step at a time, on values: what a step does to the layout, the
    lists and the live areas together. */
module HeapSteps {
  import opened SizeClasses
  import opened FreeLists
  import opened Bitmaps
  import opened HeapLayout
  import opened HeapFrames

  /** A listed block's class is the one `mapping_insert` gives its size. */
  ghost predicate ClassOk(N: Sizes, F: Index, h: int)
    requires h in F && h in N
  {
    F[h].c == MappingInsert(8 * N[h])
  }

  ghost predicate Classed(N: Sizes, F: Index) {
    && F.Keys <= N.Keys
    && forall h {:trigger ClassOk(N, F, h)} :: h in F ==> ClassOk(N, F, h)
  }

  /** The lists hold exactly the free blocks other than the one in hand. */
  ghost predicate Indexed(N: Sizes, T: Tags, F: Index, x: int) {
    T.free <= N.Keys && F.Keys == T.free - {x} && Classed(N, F)
  }

  /** Classes depend on the sizes of listed blocks only. */
  lemma {:induction false} ClassedFrame(N: Sizes, F: Index, N': Sizes, F': Index)
    requires Classed(N, F) && F'.Keys <= F.Keys
    requires forall h :: h in F' ==> F'[h] == F[h] && h in N' && N'[h] == N[h]
    ensures Classed(N', F')
  {
    forall h | h in F'.Keys
      ensures h in N'.Keys
    {
      assert h in F';
    }
    forall h | h in F'
      ensures ClassOk(N', F', h)
    {
      assert ClassOk(N, F, h);
    }
  }

  /** Merging: both blocks are off the lists, one of them is in hand. */
  lemma {:induction false} AbsorbStep(m: seq<int>, N: Sizes, T: Tags, F: Index, heads: seq<seq<int>>, last: int, p: int,
                                      b: int, q: int, x: int,
                                      m': seq<int>, N': Sizes, T': Tags)
    requires Phys(m, N, T, last, x) && p in N && p != last && Next(N, p) == b && b != last && b in N && q == Next(N, b)
    requires (x == p || x == b) && b in T.free
    requires Linked(m, F, heads) && F.Keys == T.free - {p, b} && Classed(N, F)
    requires q in N && m' == AbsorbWords(m, p, b, q) && N' == AbsorbSizes(N, p, b) && T' == AbsorbTags(T, b)
    ensures Phys(m', N', T', last, p) && Linked(m', F, heads) && Indexed(N', T', F, p)
    ensures SameUsed(N, T, N', T', p) && p in N' && N'[p] == N[p] + N[b] + 1 && (p in T'.free <==> p in T.free)
    ensures Kept(m, m', N, T, NONE, 0)
    ensures Next(N', p) == q
  {
    AbsorbPhys(m, N, T, last, p, b, x);
    AbsorbFrame(m, N, T, last, p, b, q, F);
    LinkedFrame(m, m', F, heads);
    ClassedFrame(N, F, N', F);
  }

  /** A block off the lists overlaps no listed header, and its size is in range. */
  lemma {:induction false} BlockApart(N: Sizes, F: Index, last: int, x: int, m: seq<int>)
    requires Tiled(N, last) && F.Keys <= N.Keys - {last} && x in N && x !in F && x != last && |m| == last + 2
    ensures Apart(m, F, x) && N[x] + 1 <= last
  {
    assert Next(N, x) in N;
    ListedApart(N, last, F, x);
  }

  lemma {:induction false} ClassedInsert(N: Sizes, F: Index, F': Index, x: int)
    requires Classed(N, F) && x in N && F'.Keys == F.Keys + {x} && ClassOk(N, F', x)
    requires forall h :: h in F ==> F'[h] == F[h]
    ensures Classed(N, F')
  {
    forall h | h in F'
      ensures ClassOk(N, F', h)
    {
      if h != x {
        assert ClassOk(N, F, h);
      }
    }
  }

  /** The user words of the block at `h`. */
  function DataAt(m: seq<int>, N: Sizes, h: int): seq<int> {
    if h in N && 0 <= h && h + 2 + N[h] <= |m| then m[h + 2..h + 2 + N[h]] else []
  }

  /** A user pointer is the address of a live block's first user word. */
  predicate LiveAt(N: Sizes, T: Tags, last: int, p: int) {
    p - 2 in N && p - 2 !in T.free && p - 2 != last
  }

  /** Leaving `p` and `r` aside, the same pointers are live, with the same words. */
  ghost predicate SameClients(m: seq<int>, N: Sizes, T: Tags, m': seq<int>, N': Sizes, T': Tags, last: int, p: int,
                              r: int) {
    && (forall g :: g != p && g != r ==> (LiveAt(N', T', last, g) <==> LiveAt(N, T, last, g)))
    && (forall g :: g != p && g != r && LiveAt(N, T, last, g) ==> DataAt(m', N', g - 2) == DataAt(m, N, g - 2))
  }

  /** Marking a live block free, before any merging. */
  lemma {:induction false} MarkFreeStep(m: seq<int>, N: Sizes, T: Tags, F: Index, heads: seq<seq<int>>, last: int,
                                        h: int, q: int,
                                        m': seq<int>, T': Tags)
    requires Phys(m, N, T, last, h) && h in N && h != last && h !in T.free && q == Next(N, h)
    requires Linked(m, F, heads) && Indexed(N, T, F, NONE) && q in N
    requires m' == MarkFreeWords(m, h, q) && T' == MarkFreeTags(T, h, q)
    ensures Phys(m', N, T', last, h) && Linked(m', F, heads) && Indexed(N, T', F, h)
    ensures SameUsed(N, T, N, T', h) && Kept(m, m', N, T, h, 0)
  {
    MarkFreePhys(m, N, T, last, h, q);
    MarkFreeFrame(m, N, T, last, h, q, F);
    LinkedFrame(m, m', F, heads);
    forall g | g in N && g in T'.prevFree
      ensures LinkOk(m', N, T', h, g)
    {
      assert LinkOk(m', N, T', NONE, g);
    }
  }

  /** Marking the block in hand used ends an operation. */
  lemma {:induction false} MarkUsedStep(m: seq<int>, N: Sizes, T: Tags, F: Index, heads: seq<seq<int>>, last: int,
                                        h: int, q: int,
                                        m': seq<int>, T': Tags)
    requires Phys(m, N, T, last, h) && h in N && h != last && q == Next(N, h)
    requires Linked(m, F, heads) && Indexed(N, T, F, h) && q in N
    requires m' == MarkUsedWords(m, h, q) && T' == MarkUsedTags(T, h, q)
    ensures Phys(m', N, T', last, NONE) && Linked(m', F, heads) && Indexed(N, T', F, NONE)
    ensures SameUsed(N, T, N, T', h) && Kept(m, m', N, T, NONE, 0)
  {
    MarkUsedPhys(m, N, T, last, h, q);
    MarkUsedFrame(m, N, T, last, h, q, F);
    LinkedFrame(m, m', F, heads);
  }

  /** Splitting the block in hand; the caller decides which part stays in hand. */
  lemma {:induction false} SplitStep(m: seq<int>, N: Sizes, T: Tags, F: Index, heads: seq<seq<int>>, last: int, h: int,
                                     n: nat, r: int, q: int,
                                     m': seq<int>, N': Sizes, T': Tags)
    requires Phys(m, N, T, last, h)
    requires h in N && h != last && 3 <= n && n + 4 <= N[h] && r == h + 1 + n && q == Next(N, h)
    requires Linked(m, F, heads) && F.Keys == T.free - {h} && Classed(N, F) && q in N
    requires m' == SplitWords(m, h, n, r, N[h] - n - 1, q, h in T.free) && N' == SplitSizes(N, h, n)
             && T' == SplitTags(T, h, r, q)
    ensures r !in N && Tiled(N', last) && Tagged(N', T', last, NONE) && Headers(m', N', T', last, NONE)
    ensures q !in T.free ==> Coalesced(N', T', last, h)
    ensures h !in T.free || h !in T.prevFree ==> Coalesced(N', T', last, r)
    ensures Linked(m', F, heads) && F.Keys == T'.free - {h, r} && Classed(N', F) && T'.free <= N'.Keys
    ensures SameUsed(N, T, N', T', h) && Kept(m, m', N, T, h, n)
    ensures N'[h] == n && N'[r] == N[h] - n - 1 && r != h && r != last && Next(N', r) == q && Next(N', h) == r
  {
    SplitPhys(m, N, T, last, h, n, r, q);
    SplitTiled(N, last, h, n);
    SplitLinksFrame(m, N, last, h, n, r, q, h in T.free, F);
    SplitKept(m, N, T, last, h, n, r, q);
    LinkedFrame(m, m', F, heads);
    SplitUsed(N, T, F, h, n, r, q, N', T');
  }

  /** The other blocks, free or used, are those there were. */
  lemma {:induction false} SplitUsed(N: Sizes, T: Tags, F: Index, h: int, n: nat, r: int, q: int, N': Sizes, T': Tags)
    requires h in N && n + 4 <= N[h] && r == h + 1 + n && r !in N && T.free <= N.Keys && F.Keys == T.free - {h}
             && Classed(N, F)
    requires N' == SplitSizes(N, h, n) && T' == SplitTags(T, h, r, q)
    ensures F.Keys == T'.free - {h, r} && Classed(N', F) && T'.free <= N'.Keys && SameUsed(N, T, N', T', h)
  {
    ClassedFrame(N, F, N', F);
  }

  // ----- splitting off nothing -----

  /** Word by word, what a split of a used block at zero bytes writes: the second part's
      header starts inside the first part's own header. */
  lemma {:induction false} EmptySplitAt(m: seq<int>, h: int, rest: nat, q: int, m': seq<int>)
    requires 0 <= h && h + 5 <= q < |m| - 1 && m' == SplitWords(m, h, 0, h + 1, rest, q, false)
    ensures |m'| == |m| && m'[h + 1] == WithSize(m[h + 1], 0)
    ensures m'[h + 2] == WithPrevUsed(WithFree(WithSize(m[h + 2], 8 * rest)))
    ensures m'[q + 1] == WithPrevFree(m[q + 1])
    ensures forall w :: 0 <= w < |m| && w != h + 1 && w != h + 2 && w != q && w != q + 1 ==> m'[w] == m[w]
  {
  }

  lemma {:induction false} EmptySplitSizes(m: seq<int>, N: Sizes, T: Tags, h: int, rest: nat, q: int, m': seq<int>)
    requires 0 <= h && h + 5 <= q < |m| - 1 && m' == SplitWords(m, h, 0, h + 1, rest, q, false) && q in N
             && SizeOk(m, N, T, q)
    ensures |m'| == |m| && BlockSize(m', h + 1) == 8 * rest && BlockSize(m', q) == 8 * N[q]
    ensures m'[q + 1] % 2 == 1 <==> q in T.free
  {
    EmptySplitAt(m, h, rest, q, m');
    FreshEncoded(m[h + 2], rest);
    EncodedWord(rest, true, false);
    EncodedWord(N[q], q in T.free, q in T.prevFree);
    EncodedWord(N[q], q in T.free, true);
  }

  /** The block `e` and the block after it lie apart from every listed header `g`. */
  lemma {:induction false} ListedBeside(N: Sizes, last: int, F: Index, e: int, g: int)
    requires Tiled(N, last) && F.Keys <= N.Keys - {last} && e in N && e != last && e !in F && g in F
    ensures 0 <= g < last && Next(N, e) in N && (g + 4 <= e || Next(N, e) <= g)
            && (g + 4 <= Next(N, e) || Next(N, e) <= g)
  {
    TiledBeside(N, last, e, g);
    TiledBeside(N, last, g, e);
    TiledBeside(N, last, g, Next(N, e));
  }

  /** Words that no listed header covers may change. */
  lemma {:induction false} EmptySplitLinks(m: seq<int>, m': seq<int>, N: Sizes, last: int, F: Index, h: int, q: int)
    requires Tiled(N, last) && |m'| == |m| == last + 2 && F.Keys <= N.Keys - {last}
    requires h in N && h != last && h !in F && q == Next(N, h) && N[h] > 3
    requires forall w :: 0 <= w < |m| && w != h + 1 && w != h + 2 && w != q && w != q + 1 ==> m'[w] == m[w]
    ensures SameLinks(m, m', F)
  {
    forall g | g in F
      ensures 0 <= g < |m| - 3 && m'[g + 2] == m[g + 2] && m'[g + 3] == m[g + 3]
    {
      ListedBeside(N, last, F, h, g);
      TiledBeside(N, last, g, g);
    }
  }

  /** Live words outside block `h` are kept where only words of `h` and header words change. */
  lemma {:induction false} EmptySplitKept(m: seq<int>, m': seq<int>, N: Sizes, T: Tags, last: int, h: int, q: int)
    requires Tiled(N, last) && |m'| == |m| == last + 2 && h in N && h != last && q == Next(N, h)
    requires forall w :: 0 <= w < |m| && w != h + 1 && w != h + 2 && w != q && w != q + 1 ==> m'[w] == m[w]
    ensures Kept(m, m', N, T, h, 0)
  {
    forall g, w | g in N && g !in T.free && 0 <= w < |m| && g + 2 <= w <= g + 1 + Span(N, h, 0, g)
      ensures m'[w] == m[w]
    {
      TiledBeside(N, last, h, g);
      assert g < h ==> g + 1 + N[g] <= h;
    }
  }

  lemma {:induction false} EmptyAbsorbKept(m: seq<int>, N: Sizes, T: Tags, last: int, h: int, q: int, q2: int,
                                           m': seq<int>)
    requires Tiled(N, last) && |m| == last + 2 && h in N && h != last && q == Next(N, h) && q in N && q != last
             && q in T.free
    requires q2 == Next(N, q) && 0 <= h && q < |m| - 1 && q2 < |m| && m' == AbsorbWords(m, h + 1, q, q2)
    ensures Kept(m, m', N, T, h, 0)
  {
    TiledBeside(N, last, h, q);
    TiledBeside(N, last, q, q);
    forall g, w | g in N && g !in T.free && 0 <= w < |m| && g + 2 <= w <= g + 1 + Span(N, h, 0, g)
      ensures m'[w] == m[w]
    {
      TiledBeside(N, last, h, g);
      TiledBeside(N, last, q, g);
      assert g < h ==> g + 1 + N[g] <= h;
    }
  }

  /** Listing a block whose header starts inside that of `h` writes to free blocks and to
      `h`. */
  lemma {:induction false} EmptyInsertKept(m: seq<int>, m': seq<int>, N: Sizes, T: Tags, last: int, F: Index, h: int)
    requires Tiled(N, last) && T.free <= N.Keys && last !in T.free && F.Keys <= T.free + {h + 1}
    requires h in N && h != last && N[h] > 3 && SameOutsideLinks(m, m', F) && |m| == last + 2
    ensures Kept(m, m', N, T, h, 0)
  {
    forall g, w | g in N && g !in T.free && 0 <= w < |m| && g + 2 <= w <= g + 1 + Span(N, h, 0, g)
      ensures m'[w] == m[w]
    {
      WordUnlisted(N, T, last, F, h, g, w);
    }
  }

  lemma {:induction false} WordUnlisted(N: Sizes, T: Tags, last: int, F: Index, h: int, g: int, w: int)
    requires Tiled(N, last) && T.free <= N.Keys && last !in T.free && F.Keys <= T.free + {h + 1}
    requires h in N && h != last && N[h] > 3 && g in N && g !in T.free && g != h && g + 2 <= w <= g + 1 + N[g]
    ensures w - 2 !in F && w - 3 !in F
  {
    TiledBeside(N, last, h, g);
    assert g < h ==> g + 1 + N[g] <= h;
    NotListed(N, T, last, g, w - 2);
    NotListed(N, T, last, g, w - 3);
    assert w - 2 !in T.free + {h + 1} && w - 3 !in T.free + {h + 1};
  }

  /** The words of a used block belong to no free block's header. */
  lemma {:induction false} NotListed(N: Sizes, T: Tags, last: int, g: int, f: int)
    requires Tiled(N, last) && g in N && g !in T.free && g != last && last !in T.free && g - 1 <= f <= g - 1 + N[g]
    requires T.free <= N.Keys
    ensures f !in T.free
  {
    if f in T.free && f < g {
      TiledBeside(N, last, f, g);
      assert false;
    }
  }

  lemma {:induction false} KeptFewer(m: seq<int>, m': seq<int>, N: Sizes, T: Tags, h: int)
    requires Kept(m, m', N, T, NONE, 0) && h != NONE
    ensures NONE !in N ==> Kept(m, m', N, T, h, 0)
  {
  }

  lemma {:induction false} EmptyAbsorbLinks(m: seq<int>, N: Sizes, last: int, F: Index, r: int, q: int, q2: int)
    requires Tiled(N, last) && |m| == last + 2 && F.Keys <= N.Keys - {last} && q !in F
    requires r - 1 in N && r - 1 != last && r - 1 !in F && q == Next(N, r - 1) && q in N && q != last
             && q2 == Next(N, q) && q2 <= last
    ensures 0 <= r < |m| - 1 && 0 <= q && SameLinks(m, AbsorbWords(m, r, q, q2), F)
  {
    TiledBeside(N, last, r - 1, q);
    TiledBeside(N, last, q, q);
    var m' := AbsorbWords(m, r, q, q2);
    forall g | g in F
      ensures 0 <= g < |m| - 3 && m'[g + 2] == m[g + 2] && m'[g + 3] == m[g + 3]
    {
      ListedBeside(N, last, F, r - 1, g);
      ListedBeside(N, last, F, q, g);
      TiledBeside(N, last, g, g);
      AbsorbedLinkAt(m, r, q, q2, g, m');
    }
  }

  lemma {:induction false} AbsorbedHeader(m: seq<int>, r: int, q: int, q2: int, nr: nat, nq: nat, m': seq<int>)
    requires 0 <= r && r + 1 < q && q + 1 < q2 < |m| && m' == AbsorbWords(m, r, q, q2)
    requires BlockSize(m, r) == 8 * nr && BlockSize(m, q) == 8 * nq
    ensures |m'| == |m| && m'[r] == m[r] && BlockSize(m', r) == 8 * (nr + nq + 1)
  {
    AbsorbedSize(m[r + 1], m[q + 1], nr, nq);
  }

  lemma {:induction false} AbsorbedLinkAt(m: seq<int>, r: int, q: int, q2: int, g: int, m': seq<int>)
    requires 0 < r && r < q < |m| - 1 && 0 <= q2 < |m| && 0 <= g < |m| - 3 && (g + 4 <= r || r <= g)
             && (g + 4 <= q2 || q2 <= g)
    requires m' == AbsorbWords(m, r, q, q2)
    ensures |m'| == |m| && m'[g + 2] == m[g + 2] && m'[g + 3] == m[g + 3]
  {
  }

  /** Writing list links leaves every header, and the first user word of a used block. */
  lemma {:induction false} LinksApart(m: seq<int>, m': seq<int>, N: Sizes, last: int, F: Index, g: int)
    requires Tiled(N, last) && |m| == last + 2 && F.Keys <= N.Keys - {last} && g in N && SameOutsideLinks(m, m', F)
    ensures 0 <= g <= last && m'[g + 1] == m[g + 1] && (g !in F && g != last ==> m'[g + 2] == m[g + 2])
  {
    ListedApart(N, last, F, g);
  }

  /** What keeping the words and the sizes means for the clients. */
  lemma {:induction false} ClientView(m: seq<int>, N: Sizes, T: Tags, m': seq<int>, N': Sizes, T': Tags, last: int,
                                      e: int, f: int)
    requires Tiled(N, last) && Tiled(N', last) && |m| == last + 2
    requires Kept(m, m', N, T, e, 0) && SameUsedBut(N, T, N', T', e, f)
    ensures SameClients(m, N, T, m', N', T', last, e + 2, f + 2)
  {
    forall g | g != e + 2 && g != f + 2
      ensures LiveAt(N', T', last, g) <==> LiveAt(N, T, last, g)
      ensures LiveAt(N, T, last, g) ==> DataAt(m', N', g - 2) == DataAt(m, N, g - 2)
    {
      if LiveAt(N, T, last, g) {
        SameWords(m, m', N, T, N', last, e, g - 2);
      }
    }
  }

  lemma {:induction false} SameWords(m: seq<int>, m': seq<int>, N: Sizes, T: Tags, N': Sizes, last: int, e: int, h: int)
    requires Tiled(N, last) && |m| == last + 2 && Kept(m, m', N, T, e, 0)
    requires h in N && h !in T.free && h != last && h != e && h in N' && N'[h] == N[h]
    ensures DataAt(m', N', h) == DataAt(m, N, h)
  {
    assert Next(N, h) in N;
  }

  /** If no list at or above the search class has a head, every free block is of a class
      that starts below the request. */
  lemma {:induction false} NothingFits(m: seq<int>, N: Sizes, F: Index, heads: seq<seq<int>>, request: nat, g: int)
    requires Linked(m, F, heads) && Classed(N, F) && request % 8 == 0 && g in F
    requires forall d :: InTable(d) && !Below(d, MappingSearch(request)) ==> Head(heads, d) == NULL_BLOCK
    ensures Floor(MappingInsert(8 * N[g])) < request
  {
    assert ClassOk(N, F, g);
    MappingInsertRange(8 * N[g]);
    SearchExact(request, MappingInsert(8 * N[g]));
    ListedIsReached(m, F, heads, g);
  }

  /** The class of `b` is not above that of `g`, if that always fits. */
  ghost predicate NotAbove(N: Sizes, request: nat, b: int, g: int) {
    g in N && b in N && request <= Floor(MappingInsert(8 * N[g])) ==>
      Floor(MappingInsert(8 * N[b])) <= Floor(MappingInsert(8 * N[g]))
  }

  ghost predicate LowestIn(N: Sizes, T: Tags, request: nat, b: int) {
    forall g {:trigger NotAbove(N, request, b, g)} :: g in T.free ==> NotAbove(N, request, b, g)
  }

  /** The block found is of the lowest class that fits. */
  lemma {:induction false} LowestFits(m: seq<int>, N: Sizes, F: Index, heads: seq<seq<int>>, request: nat, d: Class,
                                      g: int)
    requires Linked(m, F, heads) && Classed(N, F) && request % 8 == 0 && g in F
    requires FirstFrom(heads, MappingSearch(request), d) && request <= Floor(MappingInsert(8 * N[g]))
    ensures Floor(d) <= Floor(MappingInsert(8 * N[g]))
  {
    assert ClassOk(N, F, g);
    var e := MappingInsert(8 * N[g]);
    MappingInsertRange(8 * N[g]);
    SearchExact(request, e);
    ListedIsReached(m, F, heads, g);
    if Below(d, e) {
      ClassWidth(d);
      FloorOrdered(d, e);
    }
  }

  /** Every free block is of a class that starts below the request. */
  ghost predicate NoneFitsIn(N: Sizes, T: Tags, request: nat) {
    forall g :: g in T.free && g in N ==> Floor(MappingInsert(8 * N[g])) < request
  }

  /** In numbers: none is as much as a 32nd larger than the request. */
  ghost predicate TooSmallIn(N: Sizes, T: Tags, request: nat) {
    forall g :: g in T.free && g in N ==> 32 * (8 * N[g]) < 33 * request
  }

  lemma {:induction false} NoneFitsMeans(N: Sizes, T: Tags, request: nat)
    requires NoneFitsIn(N, T, request) && request % 8 == 0
    ensures TooSmallIn(N, T, request)
  {
    forall g | g in T.free && g in N
      ensures 32 * (8 * N[g]) < 33 * request
    {
      CloseFit(request, 8 * N[g]);
    }
  }

  /** The block of `p` is too small for the request even with what follows it, and no
      other block fits. */
  ghost predicate StuckIn(N: Sizes, T: Tags, p: int, adjust: nat) {
    && p - 2 in N && NoneFitsIn(N, T, adjust) && adjust > 8 * N[p - 2]
    && (var next := Next(N, p - 2); next in N && next in T.free ==> adjust > 8 * N[p - 2] + 8 * N[next] + 8)
  }

  /** Two memories that agree outside the user area of block `b`. */
  ghost predicate SameOutsideArea(m: seq<int>, m': seq<int>, N: Sizes, b: int)
    requires b in N
  {
    |m'| == |m| && forall w :: 0 <= w < |m| && (w < b + 2 || b + 1 + N[b] < w) ==> m'[w] == m[w]
  }

  /** Writing anywhere in a live block's user area, its last word included, leaves
      the heap intact, although that word is the next header's first. */
  lemma {:induction false} UserWrite(m: seq<int>, m': seq<int>, N: Sizes, T: Tags, F: Index, heads: seq<seq<int>>,
                                     last: int, b: int)
    requires Phys(m, N, T, last, NONE) && Linked(m, F, heads) && Indexed(N, T, F, NONE)
    requires b in N && b !in T.free && b != last && SameOutsideArea(m, m', N, b)
    ensures Phys(m', N, T, last, NONE) && Linked(m', F, heads) && Kept(m, m', N, T, b, 0)
  {
    forall g | g in N
      ensures SizeOk(m', N, T, g)
    {
      assert SizeOk(m, N, T, g);
    }
    assert Next(N, b) !in T.prevFree;
    forall g | g in N && g in T.prevFree
      ensures LinkOk(m', N, T, NONE, g)
    {
      assert LinkOk(m, N, T, NONE, g);
    }
    ListedApart(N, last, F, b);
    assert SameLinks(m, m', F) by {
      ListedSizes(N, last, F);
    }
    LinkedFrame(m, m', F, heads);
  }

  lemma {:induction false} AreasApart(N: Sizes, last: int, h: int, b: int)
    requires Tiled(N, last) && h in N && b in N && h != b && h != last && b != last
    ensures Next(N, h) <= last && Next(N, b) <= last
    ensures h + 2 + N[h] <= b + 2 || b + 2 + N[b] <= h + 2
  {
    assert Next(N, h) in N && Next(N, b) in N;
  }

  /** The first `n` user words of the block at `b` are those the block at `h` had. */
  ghost predicate SamePrefix(m: seq<int>, h: int, m': seq<int>, b: int, n: nat) {
    && 0 <= h && h + 2 + n <= |m| && 0 <= b && b + 2 + n <= |m'|
    && m'[b + 2..b + 2 + n] == m[h + 2..h + 2 + n]
  }

  /** The memory after a copy of `count` words. */
  ghost predicate Copied(m: seq<int>, m': seq<int>, dst: int, src: int, count: nat) {
    && |m'| == |m| && 0 <= dst && dst + count <= |m| && 0 <= src && src + count <= |m|
    && m'[dst..dst + count] == m[src..src + count]
    && forall w :: 0 <= w < |m| && (w < dst || dst + count <= w) ==> m'[w] == m[w]
  }

  lemma {:induction false} CopyStep(m: seq<int>, m': seq<int>, N: Sizes, T: Tags, F: Index, heads: seq<seq<int>>,
                                    last: int, h: int, b: int)
    requires Phys(m, N, T, last, NONE) && Linked(m, F, heads) && Indexed(N, T, F, NONE)
    requires h in N && b in N && b !in T.free && b != last && N[h] <= N[b] && Copied(m, m', b + 2, h + 2, N[h])
    requires 0 <= h
    ensures Phys(m', N, T, last, NONE) && Linked(m', F, heads) && Kept(m, m', N, T, b, 0)
    ensures SamePrefix(m, h, m', b, N[h])
  {
    UserWrite(m, m', N, T, F, heads, last, b);
  }

  /** Allocating block `b` out of free space and then copying live block `h` into
      it changes no live word, and `b` starts with the words of `h`. */
  lemma {:induction false} MoveStep(m: seq<int>, m1: seq<int>, m2: seq<int>, N: Sizes, T: Tags, N1: Sizes, T1: Tags,
                                    last: int, h: int, b: int)
    requires Tiled(N, last) && |m| == last + 2 && Kept(m, m1, N, T, NONE, 0) && SameUsed(N, T, N1, T1, b)
    requires h in N && h !in T.free && h != last && h != b && h in N1 && N1[h] == N[h] && 0 <= b
    requires b in T.free && Kept(m1, m2, N1, T1, b, 0) && SamePrefix(m1, h, m2, b, N[h])
    ensures Kept(m, m2, N, T, NONE, 0) && SamePrefix(m, h, m2, b, N[h])
  {
    KeptChain(m, m1, m2, N, T, N1, T1, b, 0);
    assert m1[h + 2..h + 2 + N[h]] == m[h + 2..h + 2 + N[h]];
  }

  /** A prefix copied to block `b` survives the release of block `h`. */
  lemma {:induction false} ReleaseAfterMove(m: seq<int>, m2: seq<int>, m3: seq<int>, N: Sizes, T: Tags, N2: Sizes,
                                            T2: Tags, N3: Sizes, T3: Tags,
                                            h: int, b: int, n: nat)
    requires Kept(m, m2, N, T, NONE, 0) && SameUsed(N, T, N2, T2, b) && SamePrefix(m, h, m2, b, n)
    requires (forall g :: g in N ==> 0 <= g) && b in T.free && b in N2 && b !in T2.free && n <= N2[b] && b != h
    requires SameUsed(N2, T2, N3, T3, h) && Kept(m2, m3, N2, T2, h, 0)
    ensures Kept(m, m3, N, T, h, 0) && SameUsedBut(N, T, N3, T3, h, b) && SamePrefix(m, h, m3, b, n)
    ensures b in N3 && b !in T3.free && N3[b] == N2[b]
  {
    assert m3[b + 2..b + 2 + n] == m2[b + 2..b + 2 + n];
    forall g, w | g in N && g !in T.free && 0 <= w < |m| && g + 2 <= w <= g + 1 + Span(N, h, 0, g)
      ensures m3[w] == m[w]
    {
      assert g in N2 && N2[g] == N[g];
      assert m2[w] == m[w];
    }
  }

  lemma {:induction false} PrefixOfData(m: seq<int>, m': seq<int>, N: Sizes, N': Sizes, h: int, b: int, n: nat,
                                        last: int)
    requires Tiled(N, last) && Tiled(N', last) && |m| == last + 2 && |m'| == last + 2
    requires h in N && h != last && b in N' && b != last && n <= N[h] && n <= N'[b] && SamePrefix(m, h, m', b, n)
    ensures n <= |DataAt(m', N', b)| && n <= |DataAt(m, N, h)| && DataAt(m', N', b)[..n] == DataAt(m, N, h)[..n]
  {
    DataIs(m, N, last, h);
    DataIs(m', N', last, b);
    PrefixesAgree(m', b + 2, N'[b], m, h + 2, N[h], n);
  }

  lemma {:induction false} DataIs(m: seq<int>, N: Sizes, last: int, h: int)
    requires Tiled(N, last) && |m| == last + 2 && h in N && h != last
    ensures 0 <= h && h + 2 + N[h] <= |m| && DataAt(m, N, h) == m[h + 2..h + 2 + N[h]]
  {
    assert Next(N, h) in N;
  }

  lemma {:induction false} PrefixesAgree(m': seq<int>, b: nat, k': nat, m: seq<int>, a: nat, k: nat, n: nat)
    requires n <= k && a + k <= |m| && n <= k' && b + k' <= |m'| && m'[b..b + n] == m[a..a + n]
    ensures m'[b..b + k'][..n] == m[a..a + k][..n]
  {
    PrefixOfSlice(m', b, k', n);
    PrefixOfSlice(m, a, k, n);
  }

  lemma {:induction false} PrefixOfSlice(m: seq<int>, a: nat, k: nat, n: nat)
    requires n <= k && a + k <= |m|
    ensures m[a..a + k][..n] == m[a..a + n]
  {
  }

  lemma {:induction false} KeptPrefix(m: seq<int>, m': seq<int>, N: Sizes, T: Tags, last: int, h: int, n: nat)
    requires Tiled(N, last) && |m| == last + 2 && h in N && h !in T.free && h != last && n <= N[h]
             && Kept(m, m', N, T, h, n)
    ensures SamePrefix(m, h, m', h, n) && Kept(m, m', N, T, h, 0)
  {
    assert Next(N, h) in N;
    assert N[h] >= 0;
  }

  /** What a successful `realloc` of `p` to `r` means: `r` holds the request and
      starts with the words of `p`, and no other client sees a change. */
  ghost predicate Reallocated(m: seq<int>, N: Sizes, T: Tags, m': seq<int>, N': Sizes, T': Tags, last: int, p: int,
                              r: int, adjust: nat)
    requires LiveAt(N, T, last, p)
  {
    && LiveAt(N', T', last, r) && adjust <= 8 * N'[r - 2] < adjust + BLOCK_HEADER_SIZE
    && SameClients(m, N, T, m', N', T', last, p, r)
    && (r != p ==> !LiveAt(N', T', last, p) && !LiveAt(N, T, last, r))
    && var k := Min(8 * N[p - 2], adjust) / 8;
       var before, after := DataAt(m, N, p - 2), DataAt(m', N', r - 2);
       k <= |before| && k <= |after| && after[..k] == before[..k]
  }

  lemma {:induction false} MovedView(m: seq<int>, N: Sizes, T: Tags, m': seq<int>, N': Sizes, T': Tags, last: int,
                                     h: int, b: int, adjust: nat)
    requires Tiled(N, last) && Tiled(N', last) && |m| == last + 2
    requires LiveAt(N, T, last, h + 2) && b in T.free && b in N' && b !in T'.free && b != last && b != h
             && (h in N' ==> h in T'.free)
    requires SameUsedBut(N, T, N', T', h, b) && Kept(m, m', N, T, h, 0) && SamePrefix(m, h, m', b, N[h])
    requires adjust % 8 == 0 && 8 * N[h] < adjust <= 8 * N'[b] < adjust + BLOCK_HEADER_SIZE
    ensures Reallocated(m, N, T, m', N', T', last, h + 2, b + 2, adjust)
  {
    ClientView(m, N, T, m', N', T', last, h, b);
    PrefixOfData(m, m', N, N', h, b, N[h], last);
  }

  lemma {:induction false} ResizedView(m: seq<int>, N: Sizes, T: Tags, m': seq<int>, N': Sizes, T': Tags, last: int,
                                       h: int, adjust: nat)
    requires Tiled(N, last) && Tiled(N', last) && |m| == last + 2
    requires LiveAt(N, T, last, h + 2) && h in N' && h !in T'.free && SameUsed(N, T, N', T', h)
    requires Kept(m, m', N, T, h, if adjust / 8 <= N[h] then adjust / 8 else N[h])
    requires adjust % 8 == 0 && adjust <= 8 * N'[h] < adjust + BLOCK_HEADER_SIZE
    ensures Reallocated(m, N, T, m', N', T', last, h + 2, h + 2, adjust)
  {
    var n := if adjust / 8 <= N[h] then adjust / 8 else N[h];
    KeptPrefix(m, m', N, T, last, h, n);
    ClientView(m, N, T, m', N', T', last, h, h);
    PrefixOfData(m, m', N, N', h, h, n, last);
    MinWords(N[h], adjust);
  }

  lemma {:induction false} MinWords(k: nat, adjust: nat)
    requires adjust % 8 == 0
    ensures Min(8 * k, adjust) / 8 == if adjust / 8 <= k then adjust / 8 else k
  {
  }

  lemma {:induction false} StoreStep(m: seq<int>, m': seq<int>, N: Sizes, T: Tags, F: Index, heads: seq<seq<int>>,
                                     last: int, b: int, k: nat, v: int)
    requires Phys(m, N, T, last, NONE) && Linked(m, F, heads) && Indexed(N, T, F, NONE)
    requires b in N && b !in T.free && b != last && k < N[b] && b + 2 + k < |m| && m' == m[b + 2 + k := v]
    ensures Phys(m', N, T, last, NONE) && Linked(m', F, heads)
    ensures k < |DataAt(m, N, b)| && DataAt(m', N, b) == DataAt(m, N, b)[k := v]
    ensures SameClients(m, N, T, m', N, T, last, b + 2, b + 2)
  {
    assert Next(N, b) in N;
    UserWrite(m, m', N, T, F, heads, last, b);
    ClientView(m, N, T, m', N, T, last, b, b);
  }

  // ----- a new pool -----

  /** One free block up to the sentinel. */
  function InitialSizes(last: nat): Sizes
    requires last >= 1
  {
    map[0 := last - 1, last := 0]
  }

  lemma {:induction false} InitialPhys(m: seq<int>, last: nat)
    requires 4 <= last && |m| == last + 2
    requires m[1] == Encode(last - 1, true, false) && m[last] == 0 && m[last + 1] == Encode(0, false, true)
    ensures Phys(m, InitialSizes(last), Tags({0}, {last}), last, NONE)
  {
    var N, T := InitialSizes(last), Tags({0}, {last});
    assert Next(N, 0) == last;
    assert SizeOk(m, N, T, 0) && SizeOk(m, N, T, last) && LinkOk(m, N, T, NONE, last);
  }
}

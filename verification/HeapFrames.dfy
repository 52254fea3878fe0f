/** What each piece of an allocator call leaves alone: the links of listed blocks
    and the user words of live blocks, although a block's header overlaps the tail
    of the block before it. */
module HeapFrames {
  import opened SizeClasses
  import opened FreeLists
  import opened HeapLayout

  /** How many words of a live block's user area are looked at: all of them, but
      only `k` of the exceptional block `e`. */
  function Span(N: Sizes, e: int, k: nat, g: int): nat
    requires g in N
  {
    if g == e then k else N[g]
  }

  /** The user words of every block that is not free are the same, up to `k` of
      them for the exceptional block `e`. */
  ghost predicate Kept(m: seq<int>, m': seq<int>, N: Sizes, T: Tags, e: int, k: nat) {
    && |m'| == |m|
    && forall g, w {:trigger N[g], m'[w]} ::
         g in N && g !in T.free && 0 <= w < |m| && g + 2 <= w <= g + 1 + Span(N, e, k, g) ==>
           m'[w] == m[w]
  }

  /** The same blocks are in use, with the same sizes, leaving `e` aside. */
  ghost predicate SameUsed(N: Sizes, T: Tags, N': Sizes, T': Tags, e: int) {
    && (forall g :: g != e ==> ((g in N && g !in T.free) <==> (g in N' && g !in T'.free)))
    && (forall g :: g != e && g in N && g !in T.free && g in N' ==> N'[g] == N[g])
  }

  /** The same, leaving two blocks aside. */
  ghost predicate SameUsedBut(N: Sizes, T: Tags, N': Sizes, T': Tags, e: int, f: int) {
    && (forall g :: g != e && g != f ==> ((g in N && g !in T.free) <==> (g in N' && g !in T'.free)))
    && (forall g :: g != e && g != f && g in N && g !in T.free && g in N' ==> N'[g] == N[g])
  }

  lemma {:induction false} KeptChain(m: seq<int>, m1: seq<int>, m2: seq<int>, N: Sizes, T: Tags, N1: Sizes, T1: Tags,
                                     e: int, k: nat)
    requires Kept(m, m1, N, T, e, k) && Kept(m1, m2, N1, T1, e, k) && SameUsed(N, T, N1, T1, e)
    requires k > 0 && e in N && e !in T.free ==> e in N1 && e !in T1.free
    ensures Kept(m, m2, N, T, e, k)
  {
    forall g, w | g in N && g !in T.free && 0 <= w < |m| && g + 2 <= w <= g + 1 + Span(N, e, k, g)
      ensures m2[w] == m[w]
    {
      assert g in N1 && Span(N1, e, k, g) == Span(N, e, k, g);
      assert m1[w] == m[w];
    }
  }

  ghost predicate SameLinks(m: seq<int>, m': seq<int>, F: Index) {
    && |m'| == |m|
    && (forall h :: h in F ==> 0 <= h < |m| - 3)
    && forall h :: h in F ==> m'[h + 2] == m[h + 2] && m'[h + 3] == m[h + 3]
  }

  ghost predicate SameOutsideLinks(m: seq<int>, m': seq<int>, F: Index) {
    && |m'| == |m|
    && forall w :: 0 <= w < |m| && w - 2 !in F && w - 3 !in F ==> m'[w] == m[w]
  }

  lemma {:induction false} NodeFrame(m: seq<int>, m': seq<int>, F: Index, heads: seq<seq<int>>, h: int)
    requires Spaced(m, F) && Table(heads) && h in F && NodeOk(m, F, heads, h)
    requires SameLinks(m, m', F)
    ensures Spaced(m', F) && NodeOk(m', F, heads, h)
  {
  }

  lemma {:induction false} HeadFrame(m: seq<int>, m': seq<int>, F: Index, heads: seq<seq<int>>, c: Class)
    requires Spaced(m, F) && Table(heads) && InTable(c) && HeadOk(m, F, heads, c)
    requires SameLinks(m, m', F)
    ensures Spaced(m', F) && HeadOk(m', F, heads, c)
  {
  }

  lemma {:induction false} SpacedFrame(m: seq<int>, m': seq<int>, F: Index)
    requires Spaced(m, F) && |m'| == |m|
    ensures Spaced(m', F)
  {
  }

  lemma {:induction false} LinkedFrame(m: seq<int>, m': seq<int>, F: Index, heads: seq<seq<int>>)
    requires Linked(m, F, heads) && SameLinks(m, m', F)
    ensures Linked(m', F, heads)
  {
    SpacedFrame(m, m', F);
    forall h | h in F
      ensures NodeOk(m', F, heads, h)
    {
      assert NodeOk(m, F, heads, h);
      NodeFrame(m, m', F, heads, h);
    }
    forall c | InTable(c)
      ensures HeadOk(m', F, heads, c)
    {
      assert HeadOk(m, F, heads, c);
      HeadFrame(m, m', F, heads, c);
    }
  }

  lemma {:induction false} InsertOutside(m: seq<int>, F: Index, b: int, c: Class, cur: int)
    requires 0 <= b < |m| - 3 && (cur == NULL_BLOCK || (cur in F && 0 <= cur < |m| - 3))
    ensures SameOutsideLinks(m, InsertWords(m, b, cur), InsertIndex(F, b, c, cur))
  {
  }

  lemma {:induction false} RemoveOutside(m: seq<int>, F: Index, heads: seq<seq<int>>, b: int)
    requires Spaced(m, F) && Table(heads) && b in F && NodeOk(m, F, heads, b)
    ensures SameOutsideLinks(m, RemoveWords(m, b), F)
  {
  }

  lemma {:induction false} ListedSizes(N: Sizes, last: int, F: Index)
    requires Tiled(N, last) && F.Keys <= N.Keys - {last}
    ensures forall g :: g in F ==> g in N && N[g] >= 3
  {
    forall g | g in F
      ensures g in N && N[g] >= 3
    {
      assert Next(N, g) in N;
    }
  }

  /** A listed header ends before any later block starts. */
  lemma {:induction false} ListedApart(N: Sizes, last: int, F: Index, g: int)
    requires Tiled(N, last) && F.Keys <= N.Keys - {last} && g in N
    ensures forall h :: h in F ==> h + 4 <= g || g <= h
  {
    ListedSizes(N, last, F);
  }

  /** Writing list links touches no header word and no user word. */
  lemma {:induction false} LinkWrites(m: seq<int>, m': seq<int>, N: Sizes, T: Tags, last: int, x: int, F: Index)
    requires Tiled(N, last) && Headers(m, N, T, last, x) && T.free <= N.Keys && last !in T.free && F.Keys <= T.free
    requires SameOutsideLinks(m, m', F)
    ensures Headers(m', N, T, last, x) && Kept(m, m', N, T, NONE, 0)
  {
    forall g | g in N
      ensures m'[g + 1] == m[g + 1] && m'[g] == m[g]
    {
      ListedApart(N, last, F, g);
    }
    forall g | g in N
      ensures SizeOk(m', N, T, g)
    {
      assert SizeOk(m, N, T, g);
    }
    forall g | g in N && g in T.prevFree
      ensures LinkOk(m', N, T, x, g)
    {
      assert LinkOk(m, N, T, x, g);
    }
    LinkWritesKept(m, m', N, T, last, F);
  }

  lemma {:induction false} LinkWritesKept(m: seq<int>, m': seq<int>, N: Sizes, T: Tags, last: int, F: Index)
    requires Tiled(N, last) && T.free <= N.Keys && last !in T.free && F.Keys <= T.free
    requires SameOutsideLinks(m, m', F)
    ensures Kept(m, m', N, T, NONE, 0)
  {
    forall g, w | g in N && g !in T.free && 0 <= w < |m| && g + 2 <= w <= g + 1 + Span(N, NONE, 0, g)
      ensures m'[w] == m[w]
    {
      ListedApart(N, last, F, g);
      assert forall h :: h in F ==> h != g && (g < h ==> Next(N, g) <= h);
    }
  }

  lemma {:induction false} MarkFreeAt(m: seq<int>, h: int, q: int, w: int, m': seq<int>)
    requires 0 <= h && h + 3 < q < |m| - 1 && m' == MarkFreeWords(m, h, q) && 0 <= w < |m| && w != h + 1 && w != q
             && w != q + 1
    ensures |m'| == |m| && m'[w] == m[w]
  {
  }

  lemma {:induction false} MarkUsedAt(m: seq<int>, h: int, q: int, w: int, m': seq<int>)
    requires 0 <= h && h + 3 < q < |m| - 1 && m' == MarkUsedWords(m, h, q) && 0 <= w < |m| && w != h + 1 && w != q + 1
    ensures |m'| == |m| && m'[w] == m[w]
  {
  }

  lemma {:induction false} MarkFreeFrame(m: seq<int>, N: Sizes, T: Tags, last: int, h: int, q: int, F: Index)
    requires Tiled(N, last) && |m| == last + 2 && h in N && h != last && q == Next(N, h) && q in N
    requires F.Keys <= N.Keys - {last}
    ensures SameLinks(m, MarkFreeWords(m, h, q), F) && Kept(m, MarkFreeWords(m, h, q), N, T, h, 0)
  {
    TiledBeside(N, last, h, h);
    var m' := MarkFreeWords(m, h, q);
    forall g | g in F
      ensures 0 <= g < |m| - 3 && m'[g + 2] == m[g + 2] && m'[g + 3] == m[g + 3]
    {
      TiledBeside(N, last, g, h);
      TiledBeside(N, last, g, q);
      MarkFreeAt(m, h, q, g + 2, m');
      MarkFreeAt(m, h, q, g + 3, m');
    }
    forall g, w | g in N && g !in T.free && 0 <= w < |m| && g + 2 <= w <= g + 1 + Span(N, h, 0, g)
      ensures m'[w] == m[w]
    {
      TiledBeside(N, last, h, g);
      assert g < h ==> g + 1 + N[g] <= h;
      MarkFreeAt(m, h, q, w, m');
    }
  }

  lemma {:induction false} MarkUsedFrame(m: seq<int>, N: Sizes, T: Tags, last: int, h: int, q: int, F: Index)
    requires Tiled(N, last) && |m| == last + 2 && h in N && h != last && q == Next(N, h) && q in N
    requires F.Keys <= N.Keys - {last}
    ensures SameLinks(m, MarkUsedWords(m, h, q), F) && Kept(m, MarkUsedWords(m, h, q), N, T, NONE, 0)
  {
    TiledBeside(N, last, h, h);
    var m' := MarkUsedWords(m, h, q);
    forall g | g in F
      ensures 0 <= g < |m| - 3 && m'[g + 2] == m[g + 2] && m'[g + 3] == m[g + 3]
    {
      TiledBeside(N, last, g, h);
      TiledBeside(N, last, g, q);
      MarkUsedAt(m, h, q, g + 2, m');
      MarkUsedAt(m, h, q, g + 3, m');
    }
    forall g, w | g in N && g !in T.free && 0 <= w < |m| && g + 2 <= w <= g + 1 + Span(N, NONE, 0, g)
      ensures m'[w] == m[w]
    {
      TiledBeside(N, last, h, g);
      assert g < h ==> g + 1 + N[g] <= h;
      MarkUsedAt(m, h, q, w, m');
    }
  }

  lemma {:induction false} AbsorbLinkAt(m: seq<int>, p: int, b: int, q: int, g: int, m': seq<int>)
    requires 0 <= p && p + 3 < b && b + 3 < q && q < |m| - 1 && 0 <= g < |m| - 3 && (g + 4 <= p || p <= g)
             && (g + 4 <= q || q <= g)
    requires m' == AbsorbWords(m, p, b, q)
    ensures |m'| == |m| && m'[g + 2] == m[g + 2] && m'[g + 3] == m[g + 3]
  {
  }

  lemma {:induction false} AbsorbWordAt(m: seq<int>, p: int, b: int, q: int, w: int, m': seq<int>)
    requires 0 <= p && p + 3 < b && b + 3 < q && q < |m| - 1 && 0 <= w < |m| && w != p + 1 && w != q
    requires m' == AbsorbWords(m, p, b, q)
    ensures |m'| == |m| && m'[w] == m[w]
  {
  }

  lemma {:induction false} AbsorbKept(m: seq<int>, N: Sizes, T: Tags, last: int, p: int, b: int, q: int)
    requires Tiled(N, last) && |m| == last + 2 && p in N && p != last && b == Next(N, p) && b in N && b != last
    requires q == Next(N, b) && q in N && b in T.free
    ensures Kept(m, AbsorbWords(m, p, b, q), N, T, NONE, 0)
  {
    TiledBeside(N, last, p, b);
    TiledBeside(N, last, b, b);
    var m' := AbsorbWords(m, p, b, q);
    forall g, w | g in N && g !in T.free && 0 <= w < |m| && g + 2 <= w <= g + 1 + Span(N, NONE, 0, g)
      ensures m'[w] == m[w]
    {
      AbsorbWordAt(m, p, b, q, w, m');
    }
  }

  lemma {:induction false} AbsorbFrame(m: seq<int>, N: Sizes, T: Tags, last: int, p: int, b: int, q: int, F: Index)
    requires Tiled(N, last) && |m| == last + 2 && p in N && p != last && b == Next(N, p) && b in N && b != last
    requires q == Next(N, b) && q in N && b in T.free
    requires F.Keys <= N.Keys - {last}
    ensures SameLinks(m, AbsorbWords(m, p, b, q), F) && Kept(m, AbsorbWords(m, p, b, q), N, T, NONE, 0)
  {
    TiledBeside(N, last, p, b);
    TiledBeside(N, last, b, b);
    var m' := AbsorbWords(m, p, b, q);
    forall g | g in F
      ensures 0 <= g < |m| - 3 && m'[g + 2] == m[g + 2] && m'[g + 3] == m[g + 3]
    {
      TiledBeside(N, last, g, p);
      TiledBeside(N, last, g, q);
      AbsorbLinkAt(m, p, b, q, g, m');
    }
    AbsorbKept(m, N, T, last, p, b, q);
  }

  lemma {:induction false} SplitLinkAt(m: seq<int>, h: int, n: nat, r: int, rest: nat, q: int, free: bool, g: int,
                                       m': seq<int>)
    requires 0 <= h && h + 3 < r && r + 1 < q && q < |m| - 1 && 0 <= g < |m| - 3 && (g + 4 <= h || g == h || q <= g)
    requires m' == SplitWords(m, h, n, r, rest, q, free)
    ensures |m'| == |m| && m'[g + 2] == m[g + 2] && m'[g + 3] == m[g + 3]
  {
    SplitWordsAt(m, h, n, r, rest, q, free);
  }

  lemma {:induction false} SplitLinksFrame(m: seq<int>, N: Sizes, last: int, h: int, n: nat, r: int, q: int, free: bool,
                                           F: Index)
    requires Tiled(N, last) && |m| == last + 2 && h in N && h != last && q == Next(N, h) && q in N
    requires 3 <= n && n + 4 <= N[h] && r == h + 1 + n && F.Keys <= N.Keys - {last}
    ensures SameLinks(m, SplitWords(m, h, n, r, N[h] - n - 1, q, free), F)
  {
    var m' := SplitWords(m, h, n, r, N[h] - n - 1, q, free);
    SplitLength(m, h, n, r, N[h] - n - 1, q, free);
    forall g | g in F
      ensures 0 <= g < |m| - 3 && m'[g + 2] == m[g + 2] && m'[g + 3] == m[g + 3]
    {
      TiledBeside(N, last, g, h);
      TiledBeside(N, last, h, g);
      SplitLinkAt(m, h, n, r, N[h] - n - 1, q, free, g, m');
    }
  }

  lemma {:induction false} SplitWordAt(m: seq<int>, h: int, n: nat, r: int, rest: nat, q: int, free: bool, w: int,
                                       m': seq<int>)
    requires 0 <= h && h + 3 < r && r + 1 < q && q < |m| - 1 && 0 <= w < |m|
    requires w <= h || h + 1 < w < r || (w == r && !free) || q + 1 < w
    requires m' == SplitWords(m, h, n, r, rest, q, free)
    ensures |m'| == |m| && m'[w] == m[w]
  {
    SplitWordsAt(m, h, n, r, rest, q, free);
  }

  lemma {:induction false} SplitKept(m: seq<int>, N: Sizes, T: Tags, last: int, h: int, n: nat, r: int, q: int)
    requires Tiled(N, last) && |m| == last + 2 && h in N && h != last && q == Next(N, h) && q in N
    requires 3 <= n && n + 4 <= N[h] && r == h + 1 + n
    ensures Kept(m, SplitWords(m, h, n, r, N[h] - n - 1, q, h in T.free), N, T, h, n)
  {
    var m' := SplitWords(m, h, n, r, N[h] - n - 1, q, h in T.free);
    SplitLength(m, h, n, r, N[h] - n - 1, q, h in T.free);
    TiledBeside(N, last, h, h);
    forall g, w | g in N && g !in T.free && 0 <= w < |m| && g + 2 <= w <= g + 1 + Span(N, h, n, g)
      ensures m'[w] == m[w]
    {
      TiledBeside(N, last, h, g);
      assert g < h ==> g + 1 + N[g] <= h;
      SplitWordAt(m, h, n, r, N[h] - n - 1, q, h in T.free, w, m');
    }
  }

  // ----- neighbours -----

  /** A block put back with right tags and no free neighbour restores the invariant. */
  lemma {:induction false} PutBack(m: seq<int>, N: Sizes, T: Tags, last: int, x: int)
    requires Phys(m, N, T, last, x) && x in T.free && x in N && x != last
    requires x !in T.prevFree && Next(N, x) in T.prevFree && Next(N, x) !in T.free
    ensures Phys(m, N, T, last, NONE)
  {
    forall h | h in N && h != last && Next(N, h) == x
      ensures h !in T.free
    {
      assert h != x;
    }
    forall g | g in N && g in T.prevFree
      ensures LinkOk(m, N, T, NONE, g)
    {
      assert LinkOk(m, N, T, x, g);
    }
  }

  lemma {:induction false} HeadersWeaken(m: seq<int>, N: Sizes, T: Tags, last: int, x: int)
    requires Tiled(N, last) && Headers(m, N, T, last, NONE)
    ensures Headers(m, N, T, last, x)
  {
    forall g | g in N && g in T.prevFree
      ensures LinkOk(m, N, T, x, g)
    {
      assert LinkOk(m, N, T, NONE, g);
    }
  }

  lemma {:induction false} Weaken(m: seq<int>, N: Sizes, T: Tags, last: int, x: int)
    requires Phys(m, N, T, last, NONE)
    ensures Phys(m, N, T, last, x)
  {
    HeadersWeaken(m, N, T, last, x);
  }

  /** The block before the one in hand, found through its prev_phys word, is free,
      is not the one in hand, and has no free block before it. */
  lemma {:induction false} PrevBlock(m: seq<int>, N: Sizes, T: Tags, last: int, x: int, p: int)
    requires Phys(m, N, T, last, x) && x in N && x in T.prevFree && p == m[x]
    ensures p in N && p in T.free && p != last && p != x && Next(N, p) == x && p !in T.prevFree && x != 0
  {
    assert LinkOk(m, N, T, x, x);
    assert p in T.prevFree ==> LinkOk(m, N, T, x, p);
  }

  /** What follows a free neighbour of the block in hand. */
  lemma {:induction false} NextBlock(m: seq<int>, N: Sizes, T: Tags, last: int, x: int, b: int)
    requires Phys(m, N, T, last, x) && x in N && x != last && b == Next(N, x) && b in T.free
    ensures b in N && b != last && b != x && Next(N, b) in N && Next(N, b) in T.prevFree && Next(N, b) !in T.free
    ensures Next(N, b) != x
  {
    assert Next(N, b) in N;
  }

  /** With no block in hand a free block has no free neighbour. */
  lemma {:induction false} FreeNeighbours(m: seq<int>, N: Sizes, T: Tags, last: int, b: int)
    requires Phys(m, N, T, last, NONE) && b in T.free
    ensures b in N && b != last && b !in T.prevFree
    ensures Next(N, b) in N && Next(N, b) !in T.free && Next(N, b) in T.prevFree
  {
    assert Next(N, b) in N;
    assert b in T.prevFree ==> LinkOk(m, N, T, NONE, b);
  }

  /** Chaining over a step that grew block `h`: its old words are a prefix. */
  lemma {:induction false} GrownKept(m: seq<int>, m1: seq<int>, m2: seq<int>, N: Sizes, T: Tags, N1: Sizes, T1: Tags,
                                     h: int)
    requires Kept(m, m1, N, T, NONE, 0) && Kept(m1, m2, N1, T1, NONE, 0) && SameUsed(N, T, N1, T1, h)
    requires h in N && h in N1 && h !in T1.free && N[h] <= N1[h]
    ensures Kept(m, m2, N, T, NONE, 0)
  {
    forall g, w | g in N && g !in T.free && 0 <= w < |m| && g + 2 <= w <= g + 1 + Span(N, NONE, 0, g)
      ensures m2[w] == m[w]
    {
      assert g in N1 && N[g] <= N1[g];
      assert m1[w] == m[w];
    }
  }

  /** Chaining a growth and a trim of block `h` to `n` words. */
  lemma {:induction false} ResizedKept(m: seq<int>, m1: seq<int>, m2: seq<int>, N: Sizes, T: Tags, N1: Sizes, T1: Tags,
                                       h: int, n: nat)
    requires Kept(m, m1, N, T, NONE, 0) && Kept(m1, m2, N1, T1, h, n) && SameUsed(N, T, N1, T1, h)
    requires (forall g :: g in N ==> 0 <= g) && h in N && h in N1 && h !in T1.free && N[h] <= N1[h]
    ensures Kept(m, m2, N, T, h, if n <= N[h] then n else N[h])
  {
    forall g, w | g in N && g !in T.free && 0 <= w < |m|
      && g + 2 <= w <= g + 1 + Span(N, h, if n <= N[h] then n else N[h], g)
      ensures m2[w] == m[w]
    {
      assert g in N1;
      assert m1[w] == m[w];
    }
  }
}

/** Consequences of the heap invariant that hold in every reachable state. */
module HeapTheorems {
  import opened SizeClasses
  import opened FreeLists
  import opened HeapLayout
  import opened HeapFrames
  import opened HeapSteps

  // ----- conservation -----

  /** The blocks met by walking the pool from `h` to the sentinel, exclusive. */
  ghost function Walk(N: Sizes, last: int, h: int): seq<int>
    requires Tiled(N, last) && h in N
    decreases last - h
  {
    if h == last then []
    else
      assert Next(N, h) in N;
      [h] + Walk(N, last, Next(N, h))
  }

  /** Bytes taken by a run of blocks, each with its 8-byte header. */
  ghost function Footprint(N: Sizes, s: seq<int>): nat
    requires forall i :: 0 <= i < |s| ==> s[i] in N
  {
    if s == [] then 0 else (8 * N[s[0]] + 8) + Footprint(N, s[1..])
  }

  /** The walk meets exactly the blocks from `h` on, in address order. */
  lemma {:induction false} WalkMeets(N: Sizes, last: int, h: int, g: int)
    requires Tiled(N, last) && h in N
    ensures g in Walk(N, last, h) <==> g in N && h <= g < last
    decreases last - h
  {
    if h != last {
      assert Next(N, h) in N;
      WalkMeets(N, last, Next(N, h), g);
    }
  }

  lemma {:induction false} WalkInside(N: Sizes, last: int, h: int)
    requires Tiled(N, last) && h in N
    ensures forall i :: 0 <= i < |Walk(N, last, h)| ==> Walk(N, last, h)[i] in N
  {
    forall i | 0 <= i < |Walk(N, last, h)|
      ensures Walk(N, last, h)[i] in N
    {
      WalkMeets(N, last, h, Walk(N, last, h)[i]);
    }
  }

  /** Sizes plus headers add up to the distance to the sentinel: in every state the
      blocks account for every byte of the pool. */
  lemma {:induction false} Conservation(N: Sizes, last: int, h: int)
    requires Tiled(N, last) && h in N
    ensures forall i :: 0 <= i < |Walk(N, last, h)| ==> Walk(N, last, h)[i] in N
    ensures Footprint(N, Walk(N, last, h)) == 8 * (last - h)
    decreases last - h
  {
    WalkInside(N, last, h);
    if h != last {
      assert Next(N, h) in N;
      Conservation(N, last, Next(N, h));
      assert Walk(N, last, h)[1..] == Walk(N, last, Next(N, h));
    }
  }

  // ----- coalescing -----

  /** With nothing allocated the pool is one free block of its original size. */
  lemma {:induction false} FullyCoalesced(m: seq<int>, N: Sizes, T: Tags, last: int)
    requires Phys(m, N, T, last, NONE) && last > 0
    requires forall p :: !LiveAt(N, T, last, p)
    ensures N == InitialSizes(last) && T.free == {0}
  {
    assert !LiveAt(N, T, last, 2);
    assert 0 in T.free && Next(N, 0) in N;
    var q := Next(N, 0);
    assert !LiveAt(N, T, last, q + 2);
    assert q == last;
    forall g | g in N
      ensures g == 0 || g == last
    {
    }
    assert N.Keys == {0, last};
  }

  // ----- the layout depends on the live blocks alone -----

  /** The same pointers are live, with the same sizes. */
  ghost predicate SameLive(N: Sizes, T: Tags, N': Sizes, T': Tags, last: int) {
    && (forall p :: LiveAt(N, T, last, p) <==> LiveAt(N', T', last, p))
    && (forall p :: LiveAt(N, T, last, p) && p - 2 in N' ==> N'[p - 2] == N[p - 2])
  }

  /** A free block both layouts have ends no later in the second. */
  lemma {:induction false} FreeEnds(N: Sizes, T: Tags, N': Sizes, T': Tags, last: int, h: int)
    requires Tiled(N, last) && Tiled(N', last) && Coalesced(N, T, last, NONE) && SameLive(N, T, N', T', last)
    requires h in N && h in N' && h != last && h in T.free
    ensures N'[h] <= N[h]
  {
    var q := Next(N, h);
    assert q in N && h >= 0 && q !in T.free;
    assert q != last ==> LiveAt(N, T, last, q + 2) && LiveAt(N', T', last, q + 2);
    assert Next(N', h) in N';
  }

  lemma {:induction false} SameBlock(N: Sizes, T: Tags, N': Sizes, T': Tags, last: int, h: int)
    requires Tiled(N, last) && Tiled(N', last) && Coalesced(N, T, last, NONE) && Coalesced(N', T', last, NONE)
    requires SameLive(N, T, N', T', last) && h in N && h in N' && h != last
    ensures N'[h] == N[h] && (h in T'.free <==> h in T.free)
  {
    assert LiveAt(N, T, last, h + 2) <==> LiveAt(N', T', last, h + 2);
    if h in T.free {
      assert SameLive(N', T', N, T, last);
      FreeEnds(N, T, N', T', last, h);
      FreeEnds(N', T', N, T, last, h);
    }
  }

  lemma {:induction false} SameWalk(N: Sizes, T: Tags, N': Sizes, T': Tags, last: int, h: int)
    requires Tiled(N, last) && Tiled(N', last) && Coalesced(N, T, last, NONE) && Coalesced(N', T', last, NONE)
    requires SameLive(N, T, N', T', last) && h in N && h in N'
    ensures Walk(N', last, h) == Walk(N, last, h)
    decreases last - h
  {
    if h != last {
      SameBlock(N, T, N', T', last, h);
      assert Next(N, h) in N && Next(N', h) in N';
      SameWalk(N, T, N', T', last, Next(N, h));
    }
  }

  /** Whatever happened before, heaps with the same live blocks have the same blocks. */
  lemma {:induction false} LayoutUnique(N: Sizes, T: Tags, N': Sizes, T': Tags, last: int)
    requires Tiled(N, last) && Tiled(N', last) && Coalesced(N, T, last, NONE) && Coalesced(N', T', last, NONE)
    requires SameLive(N, T, N', T', last) && T.free <= N.Keys && T'.free <= N'.Keys && last !in T.free
             && last !in T'.free
    ensures N == N' && T.free == T'.free
  {
    SameWalk(N, T, N', T', last, 0);
    forall g
      ensures g in N <==> g in N'
    {
      WalkMeets(N, last, 0, g);
      WalkMeets(N', last, 0, g);
    }
    forall g | g in N
      ensures N[g] == N'[g] && (g in T.free <==> g in T'.free)
    {
      if g != last {
        SameBlock(N, T, N', T', last, g);
      }
    }
  }

  // ----- the lists -----

  /** Each free block is on exactly one list, that of its own size class, and the
      lists hold nothing else. */
  lemma {:induction false} FreeBlocksListed(m: seq<int>, N: Sizes, T: Tags, F: Index, heads: seq<seq<int>>, c: Class,
                                            h: int)
    requires Linked(m, F, heads) && Indexed(N, T, F, NONE) && NONE !in T.free && InTable(c)
    ensures h in FreeList(m, F, heads, c) <==> h in T.free && h in N && MappingInsert(8 * N[h]) == c
  {
    OnExactlyOneList(m, F, heads, c, h);
    if h in F {
      assert ClassOk(N, F, h);
    }
  }

  // ----- where the source's checks stop short -----

  /** The pool size `tlsf_add_pool` works with, in 64-bit arithmetic. */
  function PoolBytes(bytes: nat): nat
    requires bytes < WORD_LIMIT
  {
    RoundDown(Wrap(bytes - 16), ALIGN_SIZE)
  }

  /** Its range check refuses what is too small (the subtraction wraps) or too big,
      but lets one size through whose class is outside the table: 2^32 itself. */
  lemma {:induction false} PoolCheck(bytes: nat, pool: nat)
    requires bytes < WORD_LIMIT && pool == PoolBytes(bytes)
    ensures BLOCK_SIZE_MIN <= pool <= BLOCK_SIZE_MAX <==> 40 <= bytes < BLOCK_SIZE_MAX + 24
    ensures 40 <= bytes < BLOCK_SIZE_MAX + 24 ==>
              (MappingInsert(pool).fl < FL_INDEX_COUNT <==> bytes < BLOCK_SIZE_MAX + 16)
  {
    PoolBytesRange(bytes);
    if pool <= BLOCK_SIZE_MAX {
      ClassInTable(pool);
    }
  }

  lemma {:induction false} PoolBytesRange(bytes: nat)
    requires bytes < WORD_LIMIT
    ensures BLOCK_SIZE_MIN <= PoolBytes(bytes) <= BLOCK_SIZE_MAX <==> 40 <= bytes < BLOCK_SIZE_MAX + 24
    ensures PoolBytes(bytes) == BLOCK_SIZE_MAX <==> BLOCK_SIZE_MAX + 16 <= bytes < BLOCK_SIZE_MAX + 24
  {
    RoundDownMod(Wrap(bytes - 16), 8);
  }

  /** A non-zero request that adjusts to zero makes `realloc` return the block it was
      given, which is always too small for the request. One of 24 bytes is left as it
      is. A bigger one gets a zero size word, and from then on no layout with that block
      in it, whatever its sizes and tags, accounts for the memory. */
  lemma {:induction false} ReallocRefused(m: seq<int>, N: Sizes, T: Tags, last: int, h: int, size: nat, m': seq<int>,
                                          N': Sizes, T': Tags, x: int)
    requires Phys(m, N, T, last, NONE) && LiveAt(N, T, last, h + 2) && 8 * last <= BLOCK_SIZE_MAX
    requires 0 < size < WORD_LIMIT && AdjustRequestSize(size, ALIGN_SIZE) == 0
    requires |m'| == |m| && 0 <= h < |m| - 1 && m'[h + 1] == WithSize(m[h + 1], 0)
    ensures 8 * N[h] < size
    ensures 8 * N[h] < BLOCK_HEADER_SIZE <==> N[h] == 3
    ensures Tiled(N', last) && h in N' ==> !Headers(m', N', T', last, x)
  {
    AdjustCovers(size);
    assert Next(N, h) in N;
    if Tiled(N', last) && h in N' {
      assert Next(N', h) in N';
      assert Headers(m', N', T', last, x) ==> SizeOk(m', N', T', h);
    }
  }
}

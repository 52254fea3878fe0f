/** The pool as a flat array of 8-byte words tiled by blocks. Addresses are word
    indices; word 0 is the word just below the pool, so that the block at `h` has
    prev_phys at word h (the last word of the block before it), its size and two
    status bits at h+1, and its user area from h+2. */
module HeapLayout {

  /** No block in hand. */
  const NONE := -2

  /** Block sizes in words, by header address. */
  type Sizes = map<int, nat>

  function Next(N: Sizes, h: int): int
    requires h in N
  {
    h + 1 + N[h]
  }

  /** The blocks cover the pool from word 0 up to the zero-size sentinel at
      `last`, without gap or overlap. */
  ghost predicate Tiled(N: Sizes, last: int) {
    && 0 in N && last in N && N[last] == 0
    && (forall h :: h in N ==> 0 <= h <= last)
    && (forall h {:trigger Next(N, h)} :: h in N && h != last ==> N[h] >= 3 && Next(N, h) in N)
    && (forall h, g :: h in N && g in N && h < g ==> h + 1 + N[h] <= g)
  }

  /** Which blocks are free, and which have their prev-free bit set. */
  datatype Tags = Tags(free: set<int>, prevFree: set<int>)

  /** Only real blocks carry tags, and each block's copy of its predecessor's
      status is right, except possibly after the block `x` in hand. */
  ghost predicate Tagged(N: Sizes, T: Tags, last: int, x: int)
    requires Tiled(N, last)
  {
    && T.free <= N.Keys && T.prevFree <= N.Keys
    && last !in T.free && 0 !in T.prevFree
    && forall h {:trigger Next(N, h)} :: h in N && h != last && h != x ==> (Next(N, h) in T.prevFree <==> h in T.free)
  }

  /** No two neighbours are both free, except possibly around `x`. */
  ghost predicate Coalesced(N: Sizes, T: Tags, last: int, x: int)
    requires Tiled(N, last)
  {
    forall h {:trigger Next(N, h)} :: h in N && h != last && h != x && Next(N, h) != x ==>
      !(h in T.free && Next(N, h) in T.free)
  }

  function Encode(n: nat, free: bool, prevFree: bool): int {
    8 * n + (if free then 1 else 0) + (if prevFree then 2 else 0)
  }

  /** A prev-free block holds its predecessor's address in the word that overlaps
      the predecessor's tail. */
  ghost predicate LinkOk(m: seq<int>, N: Sizes, T: Tags, x: int, g: int)
    requires 0 <= g < |m|
  {
    m[g] in N && Next(N, m[g]) == g && (m[g] in T.free || m[g] == x)
  }

  /** A block's size word encodes its size and its two tags. */
  predicate SizeOk(m: seq<int>, N: Sizes, T: Tags, h: int)
    requires h in N && 0 <= h < |m| - 1
  {
    m[h + 1] == Encode(N[h], h in T.free, h in T.prevFree)
  }

  ghost predicate Headers(m: seq<int>, N: Sizes, T: Tags, last: int, x: int)
    requires Tiled(N, last)
  {
    && |m| == last + 2
    && (forall h {:trigger SizeOk(m, N, T, h)} :: h in N ==> SizeOk(m, N, T, h))
    && (forall g {:trigger LinkOk(m, N, T, x, g)} :: g in N && g in T.prevFree ==> LinkOk(m, N, T, x, g))
  }

  /** The physical invariant while block `x` is in hand. */
  ghost predicate Phys(m: seq<int>, N: Sizes, T: Tags, last: int, x: int) {
    Tiled(N, last) && Tagged(N, T, last, x) && Coalesced(N, T, last, x) && Headers(m, N, T, last, x)
  }

  // ----- words of a header -----

  function BlockSize(m: seq<int>, h: int): int
    requires 0 <= h < |m| - 1
  {
    m[h + 1] - m[h + 1] % 4
  }

  function WithSize(w: int, bytes: int): int { bytes + w % 4 }
  function WithFree(w: int): int { w - w % 2 + 1 }
  function WithUsed(w: int): int { w - w % 2 }
  function WithPrevFree(w: int): int { w - w % 4 + w % 2 + 2 }
  function WithPrevUsed(w: int): int { w - w % 4 + w % 2 }

  lemma {:induction false} EncodedBits(n: nat, free: bool, prevFree: bool, w: int)
    requires w == Encode(n, free, prevFree)
    ensures w % 2 == (if free then 1 else 0)
    ensures w % 4 == (if free then 1 else 0) + (if prevFree then 2 else 0)
    ensures w / 2 % 2 == 1 <==> prevFree
  {
  }

  /** Reading and rewriting the parts of an encoded size word. */
  lemma {:induction false} EncodedWord(n: nat, free: bool, prevFree: bool)
    ensures var w := Encode(n, free, prevFree);
            && w - w % 4 == 8 * n && (w % 2 == 1 <==> free) && (w / 2 % 2 == 1 <==> prevFree)
            && WithFree(w) == Encode(n, true, prevFree) && WithUsed(w) == Encode(n, false, prevFree)
            && WithPrevFree(w) == Encode(n, free, true) && WithPrevUsed(w) == Encode(n, free, false)
            && forall k: nat :: WithSize(w, 8 * k) == Encode(k, free, prevFree)
  {
    EncodedBits(n, free, prevFree, Encode(n, free, prevFree));
  }

  lemma {:induction false} LowBits(k: nat, bits: nat)
    requires bits < 4
    ensures (8 * k + bits) % 4 == bits
  {
  }

  lemma {:induction false} SizeAndBits(k: nat, bits: nat, u: int)
    requires bits < 4 && u == 8 * k + bits
    ensures u - u % 4 == 8 * k && (u - u % 4) / 8 == k
  {
    LowBits(k, bits);
    assert 8 * k / 8 == k;
  }

  /** The size a block has once it has absorbed another. */
  lemma {:induction false} AbsorbedSize(w: int, v: int, np: nat, nb: nat)
    requires w - w % 4 == 8 * np && v - v % 4 == 8 * nb
    ensures var u := w + ((v - v % 4) + 8); u - u % 4 == 8 * (np + nb + 1) && (u - u % 4) / 8 == np + nb + 1
  {
    SizeAndBits(np + nb + 1, w % 4, w + ((v - v % 4) + 8));
  }

  // ----- marking -----

  function MarkFreeWords(m: seq<int>, h: int, q: int): seq<int>
    requires 0 <= h < |m| - 1 && 0 <= q < |m| - 1
  {
    var m1 := m[q := h];
    var m2 := m1[q + 1 := WithPrevFree(m1[q + 1])];
    m2[h + 1 := WithFree(m2[h + 1])]
  }

  function MarkUsedWords(m: seq<int>, h: int, q: int): seq<int>
    requires 0 <= h < |m| - 1 && 0 <= q < |m| - 1
  {
    var m1 := m[q + 1 := WithPrevUsed(m[q + 1])];
    m1[h + 1 := WithUsed(m1[h + 1])]
  }

  function MarkFreeTags(T: Tags, h: int, q: int): Tags {
    Tags(T.free + {h}, T.prevFree + {q})
  }

  function MarkUsedTags(T: Tags, h: int, q: int): Tags {
    Tags(T.free - {h}, T.prevFree - {q})
  }

  /** Where other blocks lie: before `h`, right after it, or further on. */
  predicate Beside(h: int, q: int, g: int) { g <= h || g == q || g > q + 1 }

  lemma {:induction false} TiledBeside(N: Sizes, last: int, h: int, g: int)
    requires Tiled(N, last) && h in N && h != last && g in N
    ensures Next(N, h) in N && 0 <= h && h + 3 < Next(N, h) <= last && 0 <= g <= last && Beside(h, Next(N, h), g)
  {
    var q := Next(N, h);
    assert q in N;
    if q < g {
      assert q != last && Next(N, q) in N;
    }
  }

  lemma {:induction false} MarkFreeSize(m: seq<int>, N: Sizes, T: Tags, h: int, q: int, g: int)
    requires 0 <= h && h + 1 < q < |m| - 1 && g in N && 0 <= g < |m| - 1 && Beside(h, q, g) && SizeOk(m, N, T, g)
    ensures SizeOk(MarkFreeWords(m, h, q), N, MarkFreeTags(T, h, q), g)
  {
    EncodedWord(N[g], g in T.free, g in T.prevFree);
  }

  lemma {:induction false} MarkFreeLink(m: seq<int>, N: Sizes, T: Tags, h: int, q: int, g: int)
    requires 0 <= h && h + 1 < q < |m| - 1 && h in N && q == Next(N, h) && 0 <= g < |m| - 1 && Beside(h, q, g)
    requires g == q || LinkOk(m, N, T, h, g)
    ensures LinkOk(MarkFreeWords(m, h, q), N, MarkFreeTags(T, h, q), NONE, g)
  {
  }

  lemma {:induction false} MarkUsedSize(m: seq<int>, N: Sizes, T: Tags, h: int, q: int, g: int)
    requires 0 <= h && h + 1 < q < |m| - 1 && g in N && 0 <= g < |m| - 1 && Beside(h, q, g) && SizeOk(m, N, T, g)
    ensures SizeOk(MarkUsedWords(m, h, q), N, MarkUsedTags(T, h, q), g)
  {
    EncodedWord(N[g], g in T.free, g in T.prevFree);
  }

  lemma {:induction false} MarkUsedLink(m: seq<int>, N: Sizes, T: Tags, h: int, q: int, g: int)
    requires 0 <= h && h + 1 < q < |m| - 1 && h in N && q == Next(N, h) && 0 <= g < |m| - 1 && Beside(h, q, g)
    requires LinkOk(m, N, T, h, g) && g != q
    ensures LinkOk(MarkUsedWords(m, h, q), N, MarkUsedTags(T, h, q), NONE, g)
  {
  }

  lemma {:induction false} MarkFreeHeaders(m: seq<int>, N: Sizes, T: Tags, last: int, h: int, q: int)
    requires Tiled(N, last) && Headers(m, N, T, last, h) && h in N && h != last && q == Next(N, h)
    ensures q in N && Headers(MarkFreeWords(m, h, q), N, MarkFreeTags(T, h, q), last, NONE)
  {
    var T' := MarkFreeTags(T, h, q);
    TiledBeside(N, last, h, h);
    var m' := MarkFreeWords(m, h, q);
    forall g | g in N
      ensures SizeOk(m', N, T', g)
    {
      TiledBeside(N, last, h, g);
      assert SizeOk(m, N, T, g);
      MarkFreeSize(m, N, T, h, q, g);
    }
    forall g | g in N && g in T'.prevFree
      ensures LinkOk(m', N, T', NONE, g)
    {
      TiledBeside(N, last, h, g);
      assert g == q || LinkOk(m, N, T, h, g);
      MarkFreeLink(m, N, T, h, q, g);
    }
  }

  lemma {:induction false} MarkUsedHeaders(m: seq<int>, N: Sizes, T: Tags, last: int, h: int, q: int)
    requires Tiled(N, last) && Headers(m, N, T, last, h) && h in N && h != last && q == Next(N, h)
    ensures q in N && Headers(MarkUsedWords(m, h, q), N, MarkUsedTags(T, h, q), last, NONE)
  {
    var T' := MarkUsedTags(T, h, q);
    TiledBeside(N, last, h, h);
    var m' := MarkUsedWords(m, h, q);
    forall g | g in N
      ensures SizeOk(m', N, T', g)
    {
      TiledBeside(N, last, h, g);
      assert SizeOk(m, N, T, g);
      MarkUsedSize(m, N, T, h, q, g);
    }
    forall g | g in N && g in T'.prevFree
      ensures LinkOk(m', N, T', NONE, g)
    {
      TiledBeside(N, last, h, g);
      assert LinkOk(m, N, T, h, g);
      MarkUsedLink(m, N, T, h, q, g);
    }
  }

  /** Marking the block in hand free puts every tag right again. */
  lemma {:induction false} MarkFreePhys(m: seq<int>, N: Sizes, T: Tags, last: int, h: int, q: int)
    requires Phys(m, N, T, last, h) && h in N && h != last && q == Next(N, h)
    ensures q in N
    ensures var T' := MarkFreeTags(T, h, q);
            && Tagged(N, T', last, NONE) && Coalesced(N, T', last, h)
            && Headers(MarkFreeWords(m, h, q), N, T', last, NONE)
  {
    MarkFreeHeaders(m, N, T, last, h, q);
  }

  lemma {:induction false} MarkUsedPhys(m: seq<int>, N: Sizes, T: Tags, last: int, h: int, q: int)
    requires Phys(m, N, T, last, h) && h in N && h != last && q == Next(N, h)
    ensures q in N
    ensures var T' := MarkUsedTags(T, h, q);
            && Tagged(N, T', last, NONE) && Coalesced(N, T', last, NONE)
            && Headers(MarkUsedWords(m, h, q), N, T', last, NONE)
  {
    MarkUsedHeaders(m, N, T, last, h, q);
  }

  // ----- absorbing -----

  function AbsorbWords(m: seq<int>, p: int, b: int, q: int): seq<int>
    requires 0 <= p < |m| - 1 && 0 <= b < |m| - 1 && 0 <= q < |m|
  {
    m[p + 1 := m[p + 1] + (BlockSize(m, b) + 8)][q := p]
  }

  function AbsorbSizes(N: Sizes, p: int, b: int): Sizes
    requires p in N && b in N
  {
    (N - {b})[p := N[p] + N[b] + 1]
  }

  function AbsorbTags(T: Tags, b: int): Tags {
    Tags(T.free - {b}, T.prevFree - {b})
  }

  lemma {:induction false} AbsorbNext(N: Sizes, last: int, p: int, b: int, h: int)
    requires Tiled(N, last) && p in N && p != last && Next(N, p) == b && b != last && b in N
             && h in AbsorbSizes(N, p, b)
    ensures 0 <= h <= last && h in N && h != b
    ensures h != last ==>
              AbsorbSizes(N, p, b)[h] >= 3 && Next(AbsorbSizes(N, p, b), h) in AbsorbSizes(N, p, b)
              && Next(AbsorbSizes(N, p, b), h) == if h == p then Next(N, b) else Next(N, h)
  {
    assert Next(N, b) in N;
    if h != p && h != last {
      assert Next(N, h) in N;
    }
  }

  lemma {:induction false} AbsorbOrder(N: Sizes, last: int, p: int, b: int, h: int, g: int)
    requires Tiled(N, last) && p in N && p != last && Next(N, p) == b && b != last && b in N
    requires h in AbsorbSizes(N, p, b) && g in AbsorbSizes(N, p, b) && h < g
    ensures h + 1 + AbsorbSizes(N, p, b)[h] <= g
  {
    if h == p {
      assert b < g;
    }
  }

  lemma {:induction false} AbsorbTiled(N: Sizes, last: int, p: int, b: int)
    requires Tiled(N, last) && p in N && p != last && Next(N, p) == b && b != last
    ensures b in N && Next(N, b) in N && Tiled(AbsorbSizes(N, p, b), last)
    ensures Next(AbsorbSizes(N, p, b), p) == Next(N, b)
    ensures forall g :: g in AbsorbSizes(N, p, b) <==> g in N && g != b
  {
    var N' := AbsorbSizes(N, p, b);
    assert Next(N, p) in N && Next(N, b) in N;
    AbsorbNext(N, last, p, b, p);
    forall h | h in N'
      ensures 0 <= h <= last
    {
      AbsorbNext(N, last, p, b, h);
    }
    forall h | h in N' && h != last
      ensures N'[h] >= 3 && Next(N', h) in N'
    {
      AbsorbNext(N, last, p, b, h);
    }
    forall h, g | h in N' && g in N' && h < g
      ensures h + 1 + N'[h] <= g
    {
      AbsorbOrder(N, last, p, b, h, g);
    }
  }

  lemma {:induction false} AbsorbSize(m: seq<int>, N: Sizes, T: Tags, p: int, b: int, q: int, g: int)
    requires p in N && b in N && 0 <= p && p + 3 < b && b + 3 < q < |m| - 1 && q == Next(N, b) && b == Next(N, p)
    requires g in N && g != b && 0 <= g < |m| - 1 && (g <= p || g >= q) && SizeOk(m, N, T, g) && SizeOk(m, N, T, b)
    requires g < p ==> g + 1 < p
    ensures SizeOk(AbsorbWords(m, p, b, q), AbsorbSizes(N, p, b), AbsorbTags(T, b), g)
  {
    EncodedWord(N[b], b in T.free, b in T.prevFree);
  }

  lemma {:induction false} AbsorbLink(m: seq<int>, N: Sizes, T: Tags, last: int, p: int, b: int, q: int, x: int, g: int)
    requires Tiled(N, last) && |m| == last + 2 && p in N && p != last && b == Next(N, p) && b != last && b in N
             && q == Next(N, b) && q in N
    requires (x == p || x == b) && g in N && g != b && g in T.prevFree && LinkOk(m, N, T, x, g)
    ensures LinkOk(AbsorbWords(m, p, b, q), AbsorbSizes(N, p, b), AbsorbTags(T, b), p, g)
  {
    TiledBeside(N, last, p, g);
    TiledBeside(N, last, b, g);
    if g != q {
      TiledBeside(N, last, p, m[g]);
    }
  }

  lemma {:induction false} AbsorbHeaders(m: seq<int>, N: Sizes, T: Tags, last: int, p: int, b: int, x: int)
    requires Tiled(N, last) && Headers(m, N, T, last, x) && p in N && p != last && Next(N, p) == b && b != last
    requires x == p || x == b
    requires Tiled(AbsorbSizes(N, p, b), last) && b in N && Next(N, b) in N && Next(N, b) <= last
    ensures Headers(AbsorbWords(m, p, b, Next(N, b)), AbsorbSizes(N, p, b), AbsorbTags(T, b), last, p)
  {
    var q := Next(N, b);
    TiledBeside(N, last, p, b);
    TiledBeside(N, last, b, b);
    var N', T', m' := AbsorbSizes(N, p, b), AbsorbTags(T, b), AbsorbWords(m, p, b, q);
    forall g | g in N'
      ensures SizeOk(m', N', T', g)
    {
      TiledBeside(N, last, p, g);
      TiledBeside(N, last, b, g);
      if g < p { TiledBeside(N, last, g, p); }
      assert SizeOk(m, N, T, b) && SizeOk(m, N, T, g);
      AbsorbSize(m, N, T, p, b, q, g);
    }
    forall g | g in N' && g in T'.prevFree
      ensures LinkOk(m', N', T', p, g)
    {
      assert LinkOk(m, N, T, x, g);
      AbsorbLink(m, N, T, last, p, b, q, x, g);
    }
  }

  /** Absorbing a block into its predecessor, one of the two being in hand. */
  lemma {:induction false} AbsorbPhys(m: seq<int>, N: Sizes, T: Tags, last: int, p: int, b: int, x: int)
    requires Phys(m, N, T, last, x) && p in N && p != last && Next(N, p) == b && b != last
    requires x == p || x == b
    ensures b in N && Next(N, b) in N
    ensures Phys(AbsorbWords(m, p, b, Next(N, b)), AbsorbSizes(N, p, b), AbsorbTags(T, b), last, p)
  {
    AbsorbTiled(N, last, p, b);
    AbsorbHeaders(m, N, T, last, p, b, x);
    var N' := AbsorbSizes(N, p, b);
    assert forall g {:trigger Next(N', g)} :: g in N' && g != p ==> Next(N', g) == Next(N, g);
  }

  // ----- splitting -----

  /** The words `block_split` writes. */
  function SplitBase(m: seq<int>, h: int, n: nat, r: int, rest: nat, q: int): seq<int>
    requires 0 <= h < |m| - 1 && 0 <= r < |m| - 1 && 0 <= q < |m| - 1
  {
    var m1 := m[r + 1 := WithSize(m[r + 1], 8 * rest)];
    var m2 := m1[h + 1 := WithSize(m1[h + 1], 8 * n)];
    MarkFreeWords(m2, r, q)
  }

  /** A split followed by the tagging of the second part, which its callers do. */
  function SplitWords(m: seq<int>, h: int, n: nat, r: int, rest: nat, q: int, free: bool): seq<int>
    requires 0 <= h < |m| - 1 && 0 <= r < |m| - 1 && 0 <= q < |m| - 1
  {
    var m3 := SplitBase(m, h, n, r, rest, q);
    if free then
      var m4 := m3[r := h];
      m4[r + 1 := WithPrevFree(m4[r + 1])]
    else
      m3[r + 1 := WithPrevUsed(m3[r + 1])]
  }

  function SplitSizes(N: Sizes, h: int, n: nat): Sizes
    requires h in N && n + 1 <= N[h]
  {
    N[h := n][h + 1 + n := N[h] - n - 1]
  }

  function SplitTags(T: Tags, h: int, r: int, q: int): Tags {
    Tags(T.free + {r}, T.prevFree + {q} + if h in T.free then {r} else {})
  }

  lemma {:induction false} SplitNext(N: Sizes, last: int, h: int, n: nat, g: int)
    requires Tiled(N, last) && h in N && h != last && 3 <= n && n + 4 <= N[h] && g in SplitSizes(N, h, n)
    ensures h + 1 + n !in N && 0 <= g <= last
    ensures g != last ==>
              SplitSizes(N, h, n)[g] >= 3 && Next(SplitSizes(N, h, n), g) in SplitSizes(N, h, n)
              && Next(SplitSizes(N, h, n), g) == if g == h then h + 1 + n else if g == h + 1 + n then Next(N, h)
                 else Next(N, g)
  {
    assert Next(N, h) in N;
    if g in N && g != h && g != last {
      assert Next(N, g) in N;
    }
  }

  lemma {:induction false} SplitOrder(N: Sizes, last: int, h: int, n: nat, f: int, g: int)
    requires Tiled(N, last) && h in N && h != last && 3 <= n && n + 4 <= N[h]
    requires f in SplitSizes(N, h, n) && g in SplitSizes(N, h, n) && f < g
    ensures f + 1 + SplitSizes(N, h, n)[f] <= g
  {
    assert f in N && h < f ==> h + 1 + N[h] <= f;
    assert f in N && f < h ==> f + 1 + N[f] <= h;
    assert g in N && h < g ==> h + 1 + N[h] <= g;
    assert f in N && g in N ==> f + 1 + N[f] <= g;
  }

  lemma {:induction false} SplitTiled(N: Sizes, last: int, h: int, n: nat)
    requires Tiled(N, last) && h in N && h != last && 3 <= n && n + 4 <= N[h]
    ensures h + 1 + n !in N && Next(N, h) in N && Tiled(SplitSizes(N, h, n), last)
    ensures Next(SplitSizes(N, h, n), h) == h + 1 + n
    ensures Next(SplitSizes(N, h, n), h + 1 + n) == Next(N, h)
  {
    var N' := SplitSizes(N, h, n);
    assert Next(N, h) in N;
    SplitNext(N, last, h, n, h);
    SplitNext(N, last, h, n, h + 1 + n);
    forall g | g in N'
      ensures 0 <= g <= last
    {
      SplitNext(N, last, h, n, g);
    }
    forall g | g in N' && g != last
      ensures N'[g] >= 3 && Next(N', g) in N'
    {
      SplitNext(N, last, h, n, g);
    }
    forall f, g | f in N' && g in N' && f < g
      ensures f + 1 + N'[f] <= g
    {
      SplitOrder(N, last, h, n, f, g);
    }
  }

  /** A fresh size word keeps two bits of whatever the word held before. */
  lemma {:induction false} FreshWord(w: int, n: nat)
    ensures WithSize(w, 8 * n) == Encode(n, w % 2 == 1, w % 4 >= 2)
  {
  }

  /** Word by word, what a split writes. */
  lemma {:induction false} SplitWordsAt(m: seq<int>, h: int, n: nat, r: int, rest: nat, q: int, free: bool)
    requires 0 <= h && h + 1 < r && r + 1 < q && q < |m| - 1
    ensures var m' := SplitWords(m, h, n, r, rest, q, free);
            && |m'| == |m|
            && m'[h + 1] == WithSize(m[h + 1], 8 * n)
            && m'[r] == (if free then h else m[r])
            && m'[r + 1] == (if free then WithPrevFree(WithFree(WithSize(m[r + 1], 8 * rest)))
                             else WithPrevUsed(WithFree(WithSize(m[r + 1], 8 * rest))))
            && m'[q] == r
            && m'[q + 1] == WithPrevFree(m[q + 1])
            && forall w :: 0 <= w < |m| && w != h + 1 && w != r && w != r + 1 && w != q && w != q + 1 ==> m'[w] == m[w]
  {
  }

  lemma {:induction false} SplitLength(m: seq<int>, h: int, n: nat, r: int, rest: nat, q: int, free: bool)
    requires 0 <= h < |m| - 1 && 0 <= r < |m| - 1 && 0 <= q < |m| - 1
    ensures |SplitWords(m, h, n, r, rest, q, free)| == |m|
  {
  }

  /** Whatever two low bits it keeps, a fresh size word reads back its size. */
  lemma {:induction false} FreshSize(w: int, n: nat)
    ensures WithSize(w, 8 * n) - WithSize(w, 8 * n) % 4 == 8 * n
  {
    FreshWord(w, n);
    EncodedBits(n, w % 2 == 1, w % 4 >= 2, WithSize(w, 8 * n));
  }

  lemma {:induction false} FreshEncoded(w: int, n: nat)
    ensures WithPrevFree(WithFree(WithSize(w, 8 * n))) == Encode(n, true, true)
    ensures WithPrevUsed(WithFree(WithSize(w, 8 * n))) == Encode(n, true, false)
    ensures WithPrevFree(WithUsed(WithSize(w, 8 * n))) == Encode(n, false, true)
  {
    FreshWord(w, n);
    EncodedWord(n, w % 2 == 1, w % 4 >= 2);
    EncodedWord(n, true, w % 4 >= 2);
    EncodedWord(n, false, w % 4 >= 2);
  }

  lemma {:induction false} SplitLinks(m: seq<int>, N: Sizes, T: Tags, last: int, h: int, n: nat, r: int, q: int,
                                      m': seq<int>, g: int)
    requires Tiled(N, last) && T.free <= N.Keys && T.prevFree <= N.Keys && |m| == last + 2
    requires h in N && h != last && 3 <= n && n + 4 <= N[h] && r == h + 1 + n && q == Next(N, h)
    requires r !in N && q in N
    requires m' == SplitWords(m, h, n, r, N[h] - n - 1, q, h in T.free)
    requires g in SplitTags(T, h, r, q).prevFree
    requires g in T.prevFree ==> g in N && LinkOk(m, N, T, h, g)
    ensures 0 <= g < |m'| && LinkOk(m', SplitSizes(N, h, n), SplitTags(T, h, r, q), NONE, g)
  {
    var N' := SplitSizes(N, h, n);
    if g != q && g != r {
      assert m'[g] == m[g];
      assert Next(N', m[g]) == Next(N, m[g]);
    }
  }

  lemma {:induction false} SplitFresh(m: seq<int>, h: int, n: nat, r: int, rest: nat, q: int, free: bool, m': seq<int>)
    requires 0 <= h && h + 1 < r && r + 1 < q && q < |m| - 1 && m' == SplitWords(m, h, n, r, rest, q, free)
    ensures m'[r + 1] == Encode(rest, true, free)
  {
    SplitWordsAt(m, h, n, r, rest, q, free);
    FreshEncoded(m[r + 1], rest);
  }

  /** The size words of the blocks there before a split. */
  lemma {:induction false} SplitSizeWord(m: seq<int>, h: int, n: nat, r: int, rest: nat, q: int, free: bool, g: int,
                                         m': seq<int>)
    requires 0 <= h && h + 1 < r && r + 1 < q && q < |m| - 1 && 0 <= g < |m| - 1 && Beside(h, q, g)
    requires m' == SplitWords(m, h, n, r, rest, q, free)
    ensures |m'| == |m|
    ensures m'[g + 1] == if g == h then WithSize(m[g + 1], 8 * n) else if g == q then WithPrevFree(m[g + 1])
            else m[g + 1]
  {
    SplitWordsAt(m, h, n, r, rest, q, free);
  }

  lemma {:induction false} SplitSize(m: seq<int>, N: Sizes, T: Tags, h: int, n: nat, r: int, q: int, g: int,
                                     m': seq<int>)
    requires h in N && 0 <= h && 3 <= n && n + 4 <= N[h] && r == h + 1 + n && q == Next(N, h) && q < |m| - 1 && r !in N
    requires g in N && 0 <= g < |m| - 1 && Beside(h, q, g) && SizeOk(m, N, T, g)
    requires m' == SplitWords(m, h, n, r, N[h] - n - 1, q, h in T.free)
    ensures |m'| == |m| && m'[g + 1] == Encode(if g == h then n else N[g], g in T.free, g in T.prevFree || g == q)
  {
    SplitSizeWord(m, h, n, r, N[h] - n - 1, q, h in T.free, g, m');
    EncodedWord(N[g], g in T.free, g in T.prevFree);
  }

  lemma {:induction false} SplitSizeOk(m: seq<int>, N: Sizes, T: Tags, h: int, n: nat, r: int, q: int, g: int,
                                       m': seq<int>, N': Sizes, T': Tags)
    requires h in N && 0 <= h && 3 <= n && n + 4 <= N[h] && r == h + 1 + n && q == Next(N, h) && q < |m| - 1 && r !in N
    requires r !in T.prevFree && (g == r || (g in N && 0 <= g < |m| - 1 && Beside(h, q, g) && SizeOk(m, N, T, g)))
    requires m' == SplitWords(m, h, n, r, N[h] - n - 1, q, h in T.free) && N' == SplitSizes(N, h, n)
             && T' == SplitTags(T, h, r, q)
    ensures g in N' && 0 <= g < |m'| - 1 && SizeOk(m', N', T', g)
  {
    if g == r {
      SplitFresh(m, h, n, r, N[h] - n - 1, q, h in T.free, m');
    } else {
      SplitSize(m, N, T, h, n, r, q, g, m');
    }
  }

  lemma {:induction false} SplitSizesOk(m: seq<int>, N: Sizes, T: Tags, last: int, h: int, n: nat, r: int, q: int,
                                        m': seq<int>, N': Sizes, T': Tags, g: int)
    requires Tiled(N, last) && Headers(m, N, T, last, h) && T.prevFree <= N.Keys
    requires h in N && h != last && 3 <= n && n + 4 <= N[h] && r == h + 1 + n && q == Next(N, h) && r !in N
    requires m' == SplitWords(m, h, n, r, N[h] - n - 1, q, h in T.free) && N' == SplitSizes(N, h, n)
             && T' == SplitTags(T, h, r, q)
    requires g in N'
    ensures 0 <= g < |m'| - 1 && SizeOk(m', N', T', g)
  {
    TiledBeside(N, last, h, h);
    if g != r {
      TiledBeside(N, last, h, g);
      assert SizeOk(m, N, T, g);
    }
    SplitSizeOk(m, N, T, h, n, r, q, g, m', N', T');
  }

  lemma {:induction false} SplitHeaders(m: seq<int>, N: Sizes, T: Tags, last: int, h: int, n: nat, r: int, q: int,
                                        m': seq<int>, N': Sizes, T': Tags)
    requires Tiled(N, last) && Headers(m, N, T, last, h) && T.free <= N.Keys && T.prevFree <= N.Keys
    requires h in N && h != last && 3 <= n && n + 4 <= N[h] && r == h + 1 + n && q == Next(N, h)
    requires r !in N && q in N && q <= last && |m'| == |m| && Tiled(N', last)
    requires m' == SplitWords(m, h, n, r, N[h] - n - 1, q, h in T.free) && N' == SplitSizes(N, h, n)
             && T' == SplitTags(T, h, r, q)
    ensures Headers(m', N', T', last, NONE)
  {
    forall g | g in N'
      ensures 0 <= g < |m'| - 1 && SizeOk(m', N', T', g)
    {
      SplitSizesOk(m, N, T, last, h, n, r, q, m', N', T', g);
    }
    forall g | g in N' && g in T'.prevFree
      ensures 0 <= g < |m'| && LinkOk(m', N', T', NONE, g)
    {
      assert g in T.prevFree ==> LinkOk(m, N, T, h, g);
      SplitLinks(m, N, T, last, h, n, r, q, m', g);
    }
  }

  lemma {:induction false} SplitTag(N: Sizes, T: Tags, last: int, h: int, n: nat, r: int, q: int, g: int)
    requires Tiled(N, last) && Tagged(N, T, last, h) && h in N && h != last && 3 <= n && n + 4 <= N[h] && r == h + 1 + n
             && q == Next(N, h)
    requires r !in N && g in SplitSizes(N, h, n) && g != last
    ensures Next(SplitSizes(N, h, n), g) in SplitTags(T, h, r, q).prevFree <==> g in SplitTags(T, h, r, q).free
  {
    SplitNext(N, last, h, n, g);
    if g != h && g != r {
      assert Next(N, g) in T.prevFree <==> g in T.free;
      assert g < h ==> Next(N, g) <= h;
    }
  }

  lemma {:induction false} SplitTagSets(N: Sizes, T: Tags, last: int, h: int, n: nat, r: int, q: int)
    requires T.free <= N.Keys && T.prevFree <= N.Keys && last !in T.free && 0 !in T.prevFree
    requires h in N && 0 <= h && n + 4 <= N[h] && r == h + 1 + n && q == Next(N, h) && r !in N && q in N && last in N
    ensures var N', T' := SplitSizes(N, h, n), SplitTags(T, h, r, q);
            T'.free <= N'.Keys && T'.prevFree <= N'.Keys && last !in T'.free && 0 !in T'.prevFree
  {
  }

  lemma {:induction false} SplitTagged(N: Sizes, T: Tags, last: int, h: int, n: nat, r: int, q: int, N': Sizes,
                                       T': Tags)
    requires Tiled(N, last) && Tagged(N, T, last, h)
    requires h in N && h != last && 3 <= n && n + 4 <= N[h] && r == h + 1 + n && q == Next(N, h)
    requires r !in N && q in N && N' == SplitSizes(N, h, n) && T' == SplitTags(T, h, r, q) && Tiled(N', last)
    ensures Tagged(N', T', last, NONE)
  {
    SplitTagSets(N, T, last, h, n, r, q);
    forall g | g in N' && g != last
      ensures Next(N', g) in T'.prevFree <==> g in T'.free
    {
      SplitTag(N, T, last, h, n, r, q, g);
    }
  }

  lemma {:induction false} SplitApart(N: Sizes, T: Tags, last: int, h: int, n: nat, r: int, q: int, x: int, g: int)
    requires Tiled(N, last) && Tagged(N, T, last, h) && Coalesced(N, T, last, h)
    requires h in N && h != last && 3 <= n && n + 4 <= N[h] && r == h + 1 + n && q == Next(N, h) && r !in N && q in N
    requires (x == h && q !in T.free) || (x == r && (h !in T.free || h !in T.prevFree))
    requires g in SplitSizes(N, h, n) && g != last && g != x && Next(SplitSizes(N, h, n), g) != x
    ensures !(g in SplitTags(T, h, r, q).free && Next(SplitSizes(N, h, n), g) in SplitTags(T, h, r, q).free)
  {
    SplitNext(N, last, h, n, g);
    if g != h && g != r {
      assert Next(N, g) in N && (Next(N, g) in T.prevFree <==> g in T.free);
    }
  }

  lemma {:induction false} SplitCoalesced(N: Sizes, T: Tags, last: int, h: int, n: nat, r: int, q: int, N': Sizes,
                                          T': Tags, x: int)
    requires Tiled(N, last) && Tagged(N, T, last, h) && Coalesced(N, T, last, h)
    requires h in N && h != last && 3 <= n && n + 4 <= N[h] && r == h + 1 + n && q == Next(N, h)
    requires r !in N && q in N && N' == SplitSizes(N, h, n) && T' == SplitTags(T, h, r, q) && Tiled(N', last)
    requires (x == h && q !in T.free) || (x == r && (h !in T.free || h !in T.prevFree))
    ensures Coalesced(N', T', last, x)
  {
    forall g | g in N' && g != last && g != x && Next(N', g) != x
      ensures !(g in T'.free && Next(N', g) in T'.free)
    {
      SplitApart(N, T, last, h, n, r, q, x, g);
    }
  }

  /** Splitting the block in hand: the second part is free, and every tag is right. */
  lemma {:induction false} SplitPhys(m: seq<int>, N: Sizes, T: Tags, last: int, h: int, n: nat, r: int, q: int)
    requires Phys(m, N, T, last, h)
    requires h in N && h != last && 3 <= n && n + 4 <= N[h] && r == h + 1 + n && q == Next(N, h)
    ensures r !in N && q in N && Tiled(SplitSizes(N, h, n), last)
    ensures Tagged(SplitSizes(N, h, n), SplitTags(T, h, r, q), last, NONE)
    ensures q !in T.free ==> Coalesced(SplitSizes(N, h, n), SplitTags(T, h, r, q), last, h)
    ensures h !in T.free || h !in T.prevFree ==> Coalesced(SplitSizes(N, h, n), SplitTags(T, h, r, q), last, r)
    ensures Headers(SplitWords(m, h, n, r, N[h] - n - 1, q, h in T.free), SplitSizes(N, h, n), SplitTags(T, h, r, q),
            last, NONE)
  {
    SplitTiled(N, last, h, n);
    TiledBeside(N, last, h, q);
    SplitLength(m, h, n, r, N[h] - n - 1, q, h in T.free);
    SplitHeaders(m, N, T, last, h, n, r, q, SplitWords(m, h, n, r, N[h] - n - 1, q, h in T.free), SplitSizes(N, h, n),
      SplitTags(T, h, r, q));
    SplitTagged(N, T, last, h, n, r, q, SplitSizes(N, h, n), SplitTags(T, h, r, q));
    if q !in T.free {
      SplitCoalesced(N, T, last, h, n, r, q, SplitSizes(N, h, n), SplitTags(T, h, r, q), h);
    }
    if h !in T.free || h !in T.prevFree {
      SplitCoalesced(N, T, last, h, n, r, q, SplitSizes(N, h, n), SplitTags(T, h, r, q), r);
    }
  }
}

/** The allocator itself. `mem` is the pool as 8-byte words (see HeapLayout);
    pointers to blocks are word indices, and a user pointer is the word index of
    the first user word. */
module Tlsf {
  import opened SizeClasses
  import opened FreeLists
  import opened Alignment
  import opened Bitmaps
  import opened HeapLayout
  import opened HeapFrames
  import opened HeapSteps

  /** The null user pointer. */
  const NULL := 0

  /** Address of the block after `h`, as the size word gives it. */
  function NextOf(m: seq<int>, h: int): int
    requires 0 <= h < |m| - 1
  {
    h + 1 + BlockSize(m, h) / 8
  }

  lemma {:induction false} ReadSize(m: seq<int>, N: Sizes, T: Tags, last: int, x: int, h: int)
    requires Tiled(N, last) && Headers(m, N, T, last, x) && h in N
    ensures BlockSize(m, h) == 8 * N[h] && NextOf(m, h) == Next(N, h)
    ensures IsFree(m, h) <==> h in T.free
    ensures IsPrevFree(m, h) <==> h in T.prevFree
  {
    assert SizeOk(m, N, T, h);
    EncodedWord(N[h], h in T.free, h in T.prevFree);
  }

  predicate IsFree(m: seq<int>, h: int)
    requires 0 <= h < |m| - 1
  {
    m[h + 1] % 2 == 1
  }

  predicate IsPrevFree(m: seq<int>, h: int)
    requires 0 <= h < |m| - 1
  {
    m[h + 1] / 2 % 2 == 1
  }

  class Heap {
    const mem: array<int>
    const last: int
    /** Byte address of word 0. */
    const base: nat

    var nullNext: int
    var nullPrev: int
    var flBitmap: Word32
    var slBitmap: seq<Word32>
    var blocks: seq<seq<int>>

    ghost var N: Sizes
    ghost var T: Tags
    ghost var F: Index

    // ----- free lists -----

    ghost predicate ListsOk()
      reads this, mem
    {
      Linked(mem[..], F, blocks) && BitmapsOk(flBitmap, slBitmap, blocks)
    }

    method StorePrevFree(b: int, v: int)
      requires b == NULL_BLOCK || 0 <= b < mem.Length - 3
      modifies mem, this`nullPrev
      ensures mem[..] == SetPrevLink(old(mem[..]), b, v)
    {
      if b == NULL_BLOCK {
        nullPrev := v;
      } else {
        mem[b + 3] := v;
      }
    }

    method StoreNextFree(b: int, v: int)
      requires b == NULL_BLOCK || 0 <= b < mem.Length - 3
      modifies mem, this`nullNext
      ensures mem[..] == SetNextLink(old(mem[..]), b, v)
    {
      if b == NULL_BLOCK {
        nullNext := v;
      } else {
        mem[b + 2] := v;
      }
    }

    method RemoveFreeBlock(b: int, c: Class)
      requires ListsOk() && b in F && c == F[b].c && NodeOk(mem[..], F, blocks, b)
      modifies mem, this`nullNext, this`nullPrev, this`blocks, this`flBitmap, this`slBitmap, this`F
      ensures ListsOk() && F == old(F) - {b}
      ensures SameOutsideLinks(old(mem[..]), mem[..], old(F))
    {
      ghost var m := mem[..];
      RemoveLinked(m, F, blocks, b);
      RemoveOutside(m, F, blocks, b);
      var prev, next := mem[b + 3], mem[b + 2];
      StorePrevFree(next, prev);
      StoreNextFree(prev, next);
      assert mem[..] == RemoveWords(m, b);
      assert HeadOk(m, F, blocks, c);
      if blocks[c.fl][c.sl] == b {
        if next == NULL_BLOCK {
          var row := slBitmap[c.fl][c.sl := false];
          ClearBits(flBitmap, slBitmap, blocks, c, row);
          slBitmap := slBitmap[c.fl := row];
          if !NonZero(row) {
            flBitmap := flBitmap[c.fl := false];
          }
        } else {
          KeepBits(flBitmap, slBitmap, blocks, c, next);
        }
        blocks := SetHead(blocks, c, next);
      }
      F := F - {b};
    }

    method InsertFreeBlock(b: int, c: Class)
      requires ListsOk() && b !in F && InTable(c) && Apart(mem[..], F, b)
      modifies mem, this`nullPrev, this`blocks, this`flBitmap, this`slBitmap, this`F
      ensures ListsOk() && F.Keys == old(F).Keys + {b} && F[b].c == c
      ensures forall h :: h in old(F) ==> F[h] == old(F)[h]
      ensures SameOutsideLinks(old(mem[..]), mem[..], F)
    {
      ghost var m := mem[..];
      var current := blocks[c.fl][c.sl];
      assert HeadOk(m, F, blocks, c);
      InsertLinked(m, F, blocks, b, c, current);
      InsertOutside(m, F, b, c, current);
      mem[b + 2] := current;
      mem[b + 3] := NULL_BLOCK;
      StorePrevFree(current, b);
      assert mem[..] == InsertWords(m, b, current);
      SetBits(flBitmap, slBitmap, blocks, c, b);
      F := InsertIndex(F, b, c, current);
      blocks := SetHead(blocks, c, b);
      flBitmap := flBitmap[c.fl := true];
      slBitmap := slBitmap[c.fl := slBitmap[c.fl][c.sl := true]];
    }

    method BlockRemove(b: int)
      requires ListsOk() && b in F && b in N && ClassOk(N, F, b) && 0 <= b && BlockSize(mem[..], b) == 8 * N[b]
      modifies mem, this`nullNext, this`nullPrev, this`blocks, this`flBitmap, this`slBitmap, this`F
      ensures ListsOk() && F == old(F) - {b}
      ensures SameOutsideLinks(old(mem[..]), mem[..], old(F))
    {
      assert NodeOk(mem[..], F, blocks, b);
      var size := mem[b + 1] - mem[b + 1] % 4;
      var c := MappingInsert(size);
      RemoveFreeBlock(b, c);
    }

    method BlockInsert(b: int)
      requires ListsOk() && b !in F && b in N && Apart(mem[..], F, b)
      requires BlockSize(mem[..], b) == 8 * N[b] < BLOCK_SIZE_MAX
      modifies mem, this`nullPrev, this`blocks, this`flBitmap, this`slBitmap, this`F
      ensures ListsOk() && F.Keys == old(F).Keys + {b} && ClassOk(N, F, b)
      ensures forall h :: h in old(F) ==> F[h] == old(F)[h]
      ensures SameOutsideLinks(old(mem[..]), mem[..], F)
    {
      var size := mem[b + 1] - mem[b + 1] % 4;
      var c := MappingInsert(size);
      ClassInTable(size);
      InsertFreeBlock(b, c);
    }

    // ----- headers -----

    method BlockLinkNext(h: int) returns (next: int)
      requires 0 <= h < mem.Length - 1 && 0 <= NextOf(mem[..], h) < mem.Length
      modifies mem
      ensures next == NextOf(old(mem[..]), h)
      ensures mem[..] == old(mem[..])[next := h]
    {
      next := h + 1 + (mem[h + 1] - mem[h + 1] % 4) / 8;
      mem[next] := h;
    }

    method BlockMarkAsFree(h: int)
      requires 0 <= h < mem.Length - 1 && 0 <= NextOf(mem[..], h) < mem.Length - 1
      modifies mem
      ensures mem[..] == MarkFreeWords(old(mem[..]), h, NextOf(old(mem[..]), h))
    {
      var next := BlockLinkNext(h);
      mem[next + 1] := WithPrevFree(mem[next + 1]);
      mem[h + 1] := WithFree(mem[h + 1]);
    }

    method BlockMarkAsUsed(h: int)
      requires 0 <= h < mem.Length - 1 && 0 <= NextOf(mem[..], h) < mem.Length - 1
      modifies mem
      ensures mem[..] == MarkUsedWords(old(mem[..]), h, NextOf(old(mem[..]), h))
    {
      var next := h + 1 + (mem[h + 1] - mem[h + 1] % 4) / 8;
      mem[next + 1] := WithPrevUsed(mem[next + 1]);
      mem[h + 1] := WithUsed(mem[h + 1]);
    }

    method BlockAbsorb(p: int, b: int, ghost np: nat, ghost nb: nat, ghost q: int)
      requires 0 <= p < mem.Length - 1 && 0 <= b < mem.Length - 1 && 0 <= q < mem.Length
      requires BlockSize(mem[..], p) == 8 * np && BlockSize(mem[..], b) == 8 * nb && q == p + np + nb + 2
      modifies mem
      ensures mem[..] == AbsorbWords(old(mem[..]), p, b, q)
    {
      AbsorbedSize(mem[p + 1], mem[b + 1], np, nb);
      mem[p + 1] := mem[p + 1] + ((mem[b + 1] - mem[b + 1] % 4) + 8);
      var next := BlockLinkNext(p);
    }

    method BlockSplit(h: int, n: nat, ghost rest: nat, ghost q: int) returns (r: int)
      requires 0 <= h && h + 2 + n < q < mem.Length - 1
      requires BlockSize(mem[..], h) == 8 * (n + rest + 1) && q == h + 1 + n + rest + 1
      modifies mem
      ensures r == h + 1 + n
      ensures mem[..] == SplitBase(old(mem[..]), h, n, r, rest, q)
    {
      r := h + 1 + n;
      var remainSize := (mem[h + 1] - mem[h + 1] % 4) - (8 * n + 8);
      FreshSize(mem[r + 1], rest);
      mem[r + 1] := WithSize(mem[r + 1], remainSize);
      mem[h + 1] := WithSize(mem[h + 1], 8 * n);
      assert BlockSize(mem[..], r) == 8 * rest;
      assert NextOf(mem[..], r) == q;
      BlockMarkAsFree(r);
    }

    // ----- merging and trimming -----

    /** Everything holds, except that block `x` is in hand: off the lists, and
        possibly mistagged or next to free blocks. */
    ghost predicate Holding(x: int)
      reads this, mem
    {
      && mem.Length == last + 2 && 8 * last <= BLOCK_SIZE_MAX
      && Phys(mem[..], N, T, last, x) && ListsOk() && Indexed(N, T, F, x)
    }

    /** Takes the block `b` into its predecessor `p`; one of them, `listed`, leaves its
        list and the other is in hand. */
    method RemoveAndAbsorb(p: int, b: int, listed: int, ghost x: int)
      requires Holding(x) && p in N && p != last && Next(N, p) == b && b in N && b != last && b in T.free && p != b
      requires (x == p && listed == b) || (x == b && listed == p && p in T.free)
      modifies this, mem
      ensures p in old(N) && b in old(N) && N == AbsorbSizes(old(N), p, b) && T == AbsorbTags(old(T), b) && Holding(p)
      ensures p in N && N[p] == old(N)[p] + old(N)[b] + 1 && Next(N, p) == Next(old(N), b)
      ensures SameUsed(old(N), old(T), N, T, p) && Kept(old(mem[..]), mem[..], old(N), old(T), NONE, 0)
    {
      ghost var m := mem[..];
      ReadSize(m, N, T, last, x, listed);
      assert ClassOk(N, F, listed);
      BlockRemove(listed);
      ghost var m1 := mem[..];
      LinkWrites(m, m1, N, T, last, x, old(F));
      ReadSize(m1, N, T, last, x, p);
      ReadSize(m1, N, T, last, x, b);
      ghost var q := Next(N, b);
      ClassedFrame(N, old(F), N, F);
      BlockAbsorb(p, b, N[p], N[b], q);
      AbsorbStep(m1, N, T, F, blocks, last, p, b, q, x, mem[..], AbsorbSizes(N, p, b), AbsorbTags(T, b));
      KeptChain(m, m1, mem[..], N, T, N, T, NONE, 0);
      N, T := AbsorbSizes(N, p, b), AbsorbTags(T, b);
    }

    method BlockMergePrev(h: int) returns (x: int)
      requires Holding(h) && h in N && h != last && h in T.free && Next(N, h) in T.prevFree
      modifies this, mem
      ensures Holding(x) && x in N && x != last && x in T.free && x !in T.prevFree && Next(N, x) in T.prevFree
      ensures SameUsed(old(N), old(T), N, T, NONE) && Kept(old(mem[..]), mem[..], old(N), old(T), NONE, 0)
    {
      ghost var m := mem[..];
      ReadSize(m, N, T, last, h, h);
      x := h;
      if mem[h + 1] / 2 % 2 == 1 {
        x := mem[h];
        PrevBlock(m, N, T, last, h, x);
        RemoveAndAbsorb(x, h, x, h);
      }
    }

    method BlockMergeNext(h: int)
      requires Holding(h) && h in N && h != last && (h in T.free ==> Next(N, h) in T.prevFree)
      modifies this, mem
      ensures Holding(h) && h in N && Next(N, h) !in T.free
      ensures (h in T.free <==> h in old(T).free) && (h in T.prevFree <==> h in old(T).prevFree)
      ensures h in T.free ==> Next(N, h) in T.prevFree
      ensures SameUsed(old(N), old(T), N, T, h) && Kept(old(mem[..]), mem[..], old(N), old(T), NONE, 0)
      ensures N[h] == if Next(old(N), h) in old(T).free then old(N)[h] + old(N)[Next(old(N), h)] + 1 else old(N)[h]
    {
      ghost var m := mem[..];
      ReadSize(m, N, T, last, h, h);
      var next := h + 1 + (mem[h + 1] - mem[h + 1] % 4) / 8;
      assert next == Next(N, h) && next in N;
      ReadSize(m, N, T, last, h, next);
      if mem[next + 1] % 2 == 1 {
        NextBlock(m, N, T, last, h, next);
        RemoveAndAbsorb(h, next, next, h);
      }
    }

    /** Inserting the block in hand ends an operation. */
    method PutOnList(x: int)
      requires Holding(x) && x in N && x != last && x in T.free && x !in T.prevFree
      requires Next(N, x) in T.prevFree && Next(N, x) !in T.free
      modifies mem, this`nullPrev, this`blocks, this`flBitmap, this`slBitmap, this`F
      ensures Holding(NONE) && Kept(old(mem[..]), mem[..], N, T, NONE, 0)
    {
      ghost var m := mem[..];
      ReadSize(m, N, T, last, x, x);
      BlockApart(N, F, last, x, m);
      BlockInsert(x);
      LinkWrites(m, mem[..], N, T, last, x, F);
      PutBack(mem[..], N, T, last, x);
      ClassedInsert(N, old(F), F, x);
    }

    /** How every operation that frees space ends: merge with what follows, list. */
    method MergeNextAndList(x: int)
      requires Holding(x) && x in N && x != last && x in T.free && x !in T.prevFree && Next(N, x) in T.prevFree
      modifies this, mem
      ensures Holding(NONE) && x in T.free
      ensures SameUsed(old(N), old(T), N, T, NONE) && Kept(old(mem[..]), mem[..], old(N), old(T), NONE, 0)
    {
      BlockMergeNext(x);
      ghost var m1 := mem[..];
      PutOnList(x);
      KeptChain(old(mem[..]), m1, mem[..], old(N), old(T), N, T, NONE, 0);
    }

    /** The words of a split and of the tagging its callers do. */
    method SplitAndLink(h: int, n: nat, ghost rest: nat, ghost q: int) returns (r: int)
      requires 0 <= h && h + 2 + n < q < mem.Length - 1
      requires BlockSize(mem[..], h) == 8 * (n + rest + 1) && q == h + 1 + n + rest + 1
      modifies mem
      ensures r == h + 1 + n
      ensures mem[..] == SplitWords(old(mem[..]), h, n, r, rest, q, old(mem[h + 1]) % 2 == 1)
    {
      var free := mem[h + 1] % 2 == 1;
      r := BlockSplit(h, n, rest, q);
      if free {
        mem[r] := h;
        mem[r + 1] := WithPrevFree(mem[r + 1]);
      } else {
        mem[r + 1] := WithPrevUsed(mem[r + 1]);
      }
    }

    /** A split with the tagging its callers do: the second part is free, off the
        lists, and every tag is right. */
    method SplitAndTag(h: int, n: nat) returns (r: int)
      requires mem.Length == last + 2 && Phys(mem[..], N, T, last, h) && ListsOk() && F.Keys == T.free - {h}
               && Classed(N, F)
      requires h in N && h != last && 3 <= n && n + 4 <= N[h]
      modifies mem, this`N, this`T
      ensures r == h + 1 + n && r !in old(N) && r != last
      ensures N == SplitSizes(old(N), h, n) && T == SplitTags(old(T), h, r, Next(old(N), h))
      ensures Tiled(N, last) && Tagged(N, T, last, NONE) && Headers(mem[..], N, T, last, NONE)
      ensures Next(old(N), h) !in old(T).free ==> Coalesced(N, T, last, h)
      ensures h !in T.free || h !in old(T).prevFree ==> Coalesced(N, T, last, r)
      ensures ListsOk() && F.Keys == T.free - {h, r} && Classed(N, F)
      ensures SameUsed(old(N), old(T), N, T, h) && Kept(old(mem[..]), mem[..], old(N), old(T), h, n)
      ensures Next(N, r) == Next(old(N), h) && Next(N, h) == r
    {
      ghost var m := mem[..];
      ReadSize(m, N, T, last, h, h);
      ghost var q := Next(N, h);
      r := SplitAndLink(h, n, N[h] - n - 1, q);
      ghost var m', N', T' := mem[..], SplitSizes(N, h, n), SplitTags(T, h, r, q);
      SplitStep(m, N, T, F, blocks, last, h, n, r, q, m', N', T');
      N, T := N', T';
    }

    /** Splitting off the tail of a free block in hand and listing the tail. */
    method BlockTrimFree(h: int, size: nat)
      requires Holding(h) && h in N && h != last && h in T.free && Next(N, h) !in T.free
      requires size % 8 == 0 && BLOCK_SIZE_MIN <= size
      modifies this, mem
      ensures Holding(h) && h in N && h in T.free
      ensures N[h] == if 8 * old(N)[h] >= BLOCK_HEADER_SIZE + size then size / 8 else old(N)[h]
      ensures SameUsed(old(N), old(T), N, T, NONE) && Kept(old(mem[..]), mem[..], old(N), old(T), NONE, 0)
    {
      ReadSize(mem[..], N, T, last, h, h);
      if mem[h + 1] - mem[h + 1] % 4 >= BLOCK_HEADER_SIZE + size {
        var r := SplitAndTag(h, size / 8);
        ghost var m1 := mem[..];
        HeadersWeaken(m1, N, T, last, h);
        ListOther(h, r);
        KeptChain(old(mem[..]), m1, mem[..], old(N), old(T), N, T, NONE, 0);
      }
    }

    /** Listing the tail of a live block, merged with what follows it. */
    method BlockTrimUsed(h: int, size: nat)
      requires Holding(NONE) && h in N && h != last && h !in T.free
      requires size % 8 == 0 && BLOCK_SIZE_MIN <= size <= 8 * N[h]
      modifies this, mem
      ensures Holding(NONE) && h in N && h !in T.free
      ensures N[h] == if 8 * old(N)[h] >= BLOCK_HEADER_SIZE + size then size / 8 else old(N)[h]
      ensures SameUsed(old(N), old(T), N, T, h) && Kept(old(mem[..]), mem[..], old(N), old(T), h, size / 8)
    {
      ReadSize(mem[..], N, T, last, NONE, h);
      if mem[h + 1] - mem[h + 1] % 4 >= BLOCK_HEADER_SIZE + size {
        Weaken(mem[..], N, T, last, h);
        var r := SplitAndTag(h, size / 8);
        ghost var m1, N1, T1 := mem[..], N, T;
        HeadersWeaken(m1, N, T, last, r);
        MergeNextAndList(r);
        KeptChain(old(mem[..]), m1, mem[..], old(N), old(T), N1, T1, h, size / 8);
      }
    }

    /** Cutting `gap` bytes off the front of a free block in hand; the rest stays
        in hand and the front goes on its list. */
    method BlockTrimFreeLeading(h: int, gap: nat) returns (r: int)
      requires Holding(h) && h in N && h != last && h in T.free && h !in T.prevFree && Next(N, h) !in T.free
      requires gap % 8 == 0 && BLOCK_HEADER_SIZE <= gap
      modifies this, mem
      ensures r == if BLOCK_HEADER_SIZE + gap <= 8 * old(N)[h] then h + gap / 8 else h
      ensures Holding(r) && r in N && r != last && r in T.free && Next(N, r) !in T.free
      ensures N[r] == old(N)[h] - (r - h)
      ensures SameUsed(old(N), old(T), N, T, NONE) && Kept(old(mem[..]), mem[..], old(N), old(T), NONE, 0)
    {
      ReadSize(mem[..], N, T, last, h, h);
      r := h;
      if mem[h + 1] - mem[h + 1] % 4 >= BLOCK_HEADER_SIZE + gap {
        r := SplitLeading(h, (gap - 8) / 8);
      }
    }

    /** Splitting a free block in hand and listing its first part. */
    method SplitLeading(h: int, n: nat) returns (r: int)
      requires Holding(h) && h in N && h != last && h in T.free && h !in T.prevFree && Next(N, h) !in T.free
      requires 3 <= n && n + 4 <= N[h]
      modifies this, mem
      ensures r == h + 1 + n && Holding(r) && r in N && r != last && r in T.free && Next(N, r) !in T.free
      ensures N[r] == old(N)[h] - (r - h)
      ensures SameUsed(old(N), old(T), N, T, NONE) && Kept(old(mem[..]), mem[..], old(N), old(T), NONE, 0)
    {
      r := SplitAndTag(h, n);
      ghost var m1 := mem[..];
      HeadersWeaken(m1, N, T, last, r);
      ListOther(r, h);
      KeptChain(old(mem[..]), m1, mem[..], old(N), old(T), N, T, NONE, 0);
    }

    /** Listing a free block other than the one in hand. */
    method ListOther(h: int, r: int)
      requires mem.Length == last + 2 && 8 * last <= BLOCK_SIZE_MAX && ListsOk()
      requires Phys(mem[..], N, T, last, h) && F.Keys == T.free - {h, r} && Classed(N, F)
      requires r in N && r != last && r in T.free && r != h
      modifies mem, this`nullPrev, this`blocks, this`flBitmap, this`slBitmap, this`F
      ensures Holding(h) && Kept(old(mem[..]), mem[..], N, T, NONE, 0)
    {
      ghost var m := mem[..];
      ReadSize(m, N, T, last, h, r);
      BlockApart(N, F, last, r, m);
      BlockInsert(r);
      LinkWrites(m, mem[..], N, T, last, h, F);
      ClassedInsert(N, old(F), F, r);
    }

    // ----- the interface -----

    ghost predicate Valid()
      reads this, mem
    {
      Holding(NONE) && Placed()
    }

    /** The pool is word-aligned and lies inside the address space. */
    ghost predicate Placed() {
      4 <= last && base % 8 == 0 && base + 8 * (last + 2) <= WORD_LIMIT
    }

    /** Byte address of a word. */
    function Address(p: int): int {
      base + 8 * p
    }

    /** A pointer the client holds. */
    ghost predicate IsLive(p: int)
      reads this
    {
      LiveAt(N, T, last, p)
    }

    /** Bytes the client may use at `p`. */
    ghost function SizeAt(p: int): nat
      reads this
      requires IsLive(p)
    {
      8 * N[p - 2]
    }

    /** The block holds the request, with less than a header's worth to spare. */
    ghost predicate Holds(p: int, adjust: nat)
      reads this
      requires IsLive(p)
    {
      adjust <= SizeAt(p) < adjust + BLOCK_HEADER_SIZE
    }

    /** The words stored there. */
    ghost function Data(p: int): seq<int>
      reads this, mem
    {
      DataAt(mem[..], N, p - 2)
    }

    /** Everything the client held in the given state, except possibly `p` and `r`,
        is as it was, and nothing else is live. */
    ghost predicate OthersKept(m: seq<int>, N0: Sizes, T0: Tags, p: int, r: int)
      reads this, mem
    {
      SameClients(m, N0, T0, mem[..], N, T, last, p, r)
    }

    // ----- searching -----

    /** The first non-empty list at or above class `c`. */
    method SearchSuitableBlock(c: Class) returns (found: bool, b: int, d: Class)
      requires BitmapsOk(flBitmap, slBitmap, blocks) && InTable(c)
      ensures !found ==> b == NONE && forall e :: InTable(e) && !Below(e, c) ==> Head(blocks, e) == NULL_BLOCK
      ensures found ==> FirstFrom(blocks, c, d) && b == Head(blocks, d)
    {
      d := c;
      var slMap := MaskFrom(slBitmap[c.fl], c.sl);
      if !NonZero(slMap) {
        var flMap := MaskFrom(flBitmap, c.fl + 1);
        if !NonZero(flMap) {
          NoneFrom(flBitmap, slBitmap, blocks, c);
          return false, NONE, d;
        }
        var fl := Ffs(flMap);
        FirstInLaterRow(flBitmap, slBitmap, blocks, c, fl);
        d := Class(fl, Ffs(slBitmap[fl]));
      } else {
        FirstInRow(flBitmap, slBitmap, blocks, c);
        d := Class(c.fl, Ffs(slMap));
      }
      return true, blocks[d.fl][d.sl], d;
    }

    method BlockLocateFree(size: nat) returns (b: int)
      requires Holding(NONE) && size % 8 == 0
      modifies mem, this`nullNext, this`nullPrev, this`blocks, this`flBitmap, this`slBitmap, this`F
      ensures b == NONE ==>
                && Holding(NONE) && mem[..] == old(mem[..]) && blocks == old(blocks) && F == old(F)
                && flBitmap == old(flBitmap) && slBitmap == old(slBitmap)
                && (size == 0 || NoneFitsIn(N, T, size))
      ensures b != NONE ==>
                && Holding(b) && size != 0 && b in T.free && size <= Floor(MappingInsert(8 * N[b])) <= 8 * N[b]
                && LowestIn(N, T, size, b) && b in N && b != last && b !in T.prevFree && Next(N, b) !in T.free
                && Kept(old(mem[..]), mem[..], N, T, NONE, 0)
    {
      b := NONE;
      if size != 0 {
        var c := MappingSearch(size);
        var d := c;
        ghost var m := mem[..];
        MappingInsertRange(RoundUp(size));
        var found := false;
        if c.fl < FL_INDEX_COUNT {
          found, b, d := SearchSuitableBlock(c);
        }
        if found {
          assert HeadOk(m, F, blocks, d) && NodeOk(m, F, blocks, b) && ClassOk(N, F, b);
          MappingInsertRange(8 * N[b]);
          SearchExact(size, d);
          forall g {:trigger NotAbove(N, size, b, g)} | g in T.free
            ensures NotAbove(N, size, b, g)
          {
            if g in N && size <= Floor(MappingInsert(8 * N[g])) {
              LowestFits(m, N, F, blocks, size, d, g);
            }
          }
          FreeNeighbours(m, N, T, last, b);
          RemoveFreeBlock(b, d);
          LinkWrites(m, mem[..], N, T, last, NONE, old(F));
          ClassedFrame(N, old(F), N, F);
          Weaken(mem[..], N, T, last, b);
        } else {
          forall g | g in T.free
            ensures Floor(MappingInsert(8 * N[g])) < size
          {
            NothingFits(m, N, F, blocks, size, g);
          }
        }
      }
    }

    method ReleaseBlock(h: int)
      requires Valid() && h in N && h !in T.free && h != last
      modifies this, mem
      ensures Valid() && (h in N ==> h in T.free)
      ensures SameUsed(old(N), old(T), N, T, h) && Kept(old(mem[..]), mem[..], old(N), old(T), h, 0)
    {
      ghost var m := mem[..];
      Weaken(m, N, T, last, h);
      ReadSize(m, N, T, last, NONE, h);
      ghost var q := Next(N, h);
      BlockMarkAsFree(h);
      ghost var m1 := mem[..];
      MarkFreeStep(m, N, T, F, blocks, last, h, q, m1, MarkFreeTags(T, h, q));
      T := MarkFreeTags(T, h, q);
      ghost var T1 := T;
      var x := BlockMergePrev(h);
      ghost var m2, N2, T2 := mem[..], N, T;
      MergeNextAndList(x);
      KeptChain(m1, m2, mem[..], old(N), T1, N2, T2, NONE, 0);
      KeptChain(m, m1, mem[..], old(N), old(T), old(N), T1, h, 0);
    }

    method Free(p: int)
      requires Valid() && (p == NULL || IsLive(p))
      modifies this, mem
      ensures Valid() && !IsLive(p) && OthersKept(old(mem[..]), old(N), old(T), p, p)
    {
      if p != NULL {
        ReleaseBlock(p - 2);
        ClientView(old(mem[..]), old(N), old(T), mem[..], N, T, last, p - 2, p - 2);
      }
    }

    /** Turning the free block in hand into an allocation. */
    method BlockPrepareUsed(b: int, size: nat) returns (p: int)
      requires Holding(b) && Placed() && b in N && b != last && b in T.free && Next(N, b) !in T.free
      requires size % 8 == 0 && BLOCK_SIZE_MIN <= size
      modifies this, mem
      ensures Valid() && p == b + 2 && b in N && b !in T.free
      ensures N[b] == if 8 * old(N)[b] >= BLOCK_HEADER_SIZE + size then size / 8 else old(N)[b]
      ensures SameUsed(old(N), old(T), N, T, b) && Kept(old(mem[..]), mem[..], old(N), old(T), NONE, 0)
    {
      BlockTrimFree(b, size);
      ghost var m1, T1 := mem[..], T;
      ReadSize(m1, N, T, last, b, b);
      ghost var q := Next(N, b);
      BlockMarkAsUsed(b);
      MarkUsedStep(m1, N, T, F, blocks, last, b, q, mem[..], MarkUsedTags(T, b, q));
      T := MarkUsedTags(T, b, q);
      KeptChain(old(mem[..]), m1, mem[..], old(N), old(T), N, T1, NONE, 0);
      p := b + 2;
    }

    ghost predicate NoneFits(request: nat)
      reads this
    {
      NoneFitsIn(N, T, request)
    }

    method Allocate(adjust: nat) returns (p: int)
      requires Valid() && adjust % 8 == 0 && (adjust == 0 || BLOCK_SIZE_MIN <= adjust)
      modifies this, mem
      ensures Valid()
      ensures p == NULL ==> mem[..] == old(mem[..]) && N == old(N) && T == old(T)
      ensures p != NULL ==>
                && p - 2 in old(T).free && p - 2 in N && p - 2 !in T.free
                && SameUsed(old(N), old(T), N, T, p - 2) && Kept(old(mem[..]), mem[..], old(N), old(T), NONE, 0)
                && adjust <= 8 * N[p - 2] < adjust + BLOCK_HEADER_SIZE
      ensures p == NULL <==> adjust == 0 || old(NoneFits(adjust))
    {
      var block := BlockLocateFree(adjust);
      p := NULL;
      if block != NONE {
        ghost var m1 := mem[..];
        p := BlockPrepareUsed(block, adjust);
        KeptChain(old(mem[..]), m1, mem[..], old(N), old(T), old(N), old(T), NONE, 0);
      }
    }

    method Malloc(size: nat) returns (p: int)
      requires Valid() && size < WORD_LIMIT
      modifies this, mem
      ensures Valid()
      ensures p == NULL ==> mem[..] == old(mem[..]) && N == old(N) && T == old(T)
      ensures p != NULL ==>
                && !old(IsLive(p)) && IsLive(p) && OthersKept(old(mem[..]), old(N), old(T), p, p)
                && Holds(p, AdjustRequestSize(size, ALIGN_SIZE))
      ensures p == NULL <==>
                AdjustRequestSize(size, ALIGN_SIZE) == 0 || old(NoneFits(AdjustRequestSize(size, ALIGN_SIZE)))
      ensures p == NULL && AdjustRequestSize(size, ALIGN_SIZE) != 0 ==>
                old(TooSmallIn(N, T, AdjustRequestSize(size, ALIGN_SIZE)))
    {
      var adjust := AdjustRequestSize(size, ALIGN_SIZE);
      AdjustCovers(size);
      if NoneFits(adjust) { NoneFitsMeans(N, T, adjust); }
      p := Allocate(adjust);
      if p != NULL {
        ClientView(old(mem[..]), old(N), old(T), mem[..], N, T, last, p - 2, p - 2);
      }
    }

    /** How much to search for. */
    method PaddedRequest(align: nat, adjust: nat) returns (s: nat)
      requires (adjust == 0 || BLOCK_SIZE_MIN <= adjust < BLOCK_SIZE_MAX) && adjust % 8 == 0
      requires IsPow2(align) && 0 < align <= TOP_ALIGN
      ensures s == AlignedSize(adjust, align) && s % 8 == 0 && (adjust == 0 ==> s == 0)
      ensures s != 0 && align != TOP_ALIGN ==> Padded(adjust, align, s)
    {
      s := AlignedSize(adjust, align);
      AlignedSizePadded(adjust, align, s);
    }

    /** The gap in front of the aligned address inside block `b`. */
    method LeadingGap(b: int, align: nat, adjust: nat, alignedSize: nat) returns (gap: nat)
      requires Placed() && 0 <= b && 8 * (b + 2) + alignedSize <= 8 * (last + 1) && IsPow2(align)
               && 0 < align <= TOP_ALIGN
      requires BLOCK_SIZE_MIN <= adjust && (align != TOP_ALIGN ==> Padded(adjust, align, alignedSize))
      ensures Address(b + 2) < WORD_LIMIT && gap == Gap(Address(b + 2), align)
      ensures gap % 8 == 0 && (gap == 0 || gap >= BLOCK_HEADER_SIZE)
      ensures align != TOP_ALIGN ==>
                && IsMultiple(Address(b + 2) + gap, align) && gap + adjust <= alignedSize
                && (gap != 0 ==> BLOCK_HEADER_SIZE + gap <= alignedSize)
    {
      var ptr := Address(b + 2);
      gap := Gap(ptr, align);
      AlignPlan(ptr, align, adjust, alignedSize, gap);
    }

    /** Cutting the gap off, if there is room, and allocating what follows it. */
    method TrimAndPrepare(b: int, gap: nat, adjust: nat) returns (p: int)
      requires Holding(b) && Placed() && b in N && b != last && b in T.free && b !in T.prevFree && Next(N, b) !in T.free
      requires gap % 8 == 0 && (gap == 0 || gap >= BLOCK_HEADER_SIZE)
      requires adjust % 8 == 0 && BLOCK_SIZE_MIN <= adjust
      modifies this, mem
      ensures Valid() && p >= 2 && p - 2 in N && p - 2 !in T.free && p - 2 != last
      ensures p - 2 in old(N) ==> p - 2 in old(T).free
      ensures SameUsed(old(N), old(T), N, T, p - 2) && Kept(old(mem[..]), mem[..], old(N), old(T), NONE, 0)
      ensures Carved(8 * old(N)[b], gap, adjust, b, p, 8 * N[p - 2])
    {
      var r := b;
      if gap != 0 {
        r := BlockTrimFreeLeading(b, gap);
      }
      ghost var m1, N1, T1 := mem[..], N, T;
      p := BlockPrepareUsed(r, adjust);
      KeptChain(old(mem[..]), m1, mem[..], old(N), old(T), N1, T1, NONE, 0);
    }

    /** The same, with a gap that leads to an aligned address. */
    method TrimToAlign(b: int, gap: nat, adjust: nat, ghost align: nat, ghost padded: nat) returns (p: int)
      requires Holding(b) && Placed() && b in N && b != last && b in T.free && b !in T.prevFree && Next(N, b) !in T.free
      requires gap % 8 == 0 && (gap == 0 || gap >= BLOCK_HEADER_SIZE) && align > 0
      requires adjust % 8 == 0 && BLOCK_SIZE_MIN <= adjust && padded <= 8 * N[b] && b >= 0
      requires align != TOP_ALIGN ==>
                 && IsMultiple(Address(b + 2) + gap, align) && gap + adjust <= padded
                 && (gap != 0 ==> BLOCK_HEADER_SIZE + gap <= padded)
      modifies this, mem
      ensures Valid() && p >= 2 && p - 2 in N && p - 2 !in T.free && p - 2 != last
      ensures p - 2 in old(N) ==> p - 2 in old(T).free
      ensures SameUsed(old(N), old(T), N, T, p - 2) && Kept(old(mem[..]), mem[..], old(N), old(T), NONE, 0)
      ensures Carved(8 * old(N)[b], gap, adjust, b, p, 8 * N[p - 2])
      ensures align != TOP_ALIGN ==>
                IsMultiple(Address(p), align) && adjust <= 8 * N[p - 2] < adjust + BLOCK_HEADER_SIZE
    {
      p := TrimAndPrepare(b, gap, adjust);
      if align != TOP_ALIGN {
        CarvedAligned(base, align, old(N)[b], gap, adjust, padded, b, p, 8 * N[p - 2]);
      }
    }

    method PlaceAligned(b: int, align: nat, adjust: nat, alignedSize: nat) returns (p: int)
      requires Holding(b) && Placed() && b in N && b != last && b in T.free && b !in T.prevFree && Next(N, b) !in T.free
      requires IsPow2(align) && 0 < align <= TOP_ALIGN && adjust % 8 == 0 && BLOCK_SIZE_MIN <= adjust
      requires alignedSize <= 8 * N[b] && (align != TOP_ALIGN ==> Padded(adjust, align, alignedSize))
      modifies this, mem
      ensures Valid() && p >= 2 && p - 2 in N && p - 2 !in T.free && p - 2 != last
      ensures p - 2 in old(N) ==> p - 2 in old(T).free
      ensures SameUsed(old(N), old(T), N, T, p - 2) && Kept(old(mem[..]), mem[..], old(N), old(T), NONE, 0)
      ensures CarvedFrom(old(N), old(T).free, b, align, adjust, p)
      ensures align != TOP_ALIGN ==>
                IsMultiple(Address(p), align) && adjust <= 8 * N[p - 2] < adjust + BLOCK_HEADER_SIZE
    {
      BlockApart(N, F, last, b, mem[..]);
      assert Next(N, b) in N;
      var gap := LeadingGap(b, align, adjust, alignedSize);
      p := TrimToAlign(b, gap, adjust, align, alignedSize);
    }

    /** Block `b` of a heap could be what an aligned allocation of `p` was carved from. */
    ghost predicate CarvedFrom(was: Sizes, free: set<int>, b: int, align: nat, adjust: nat, p: int)
      reads this
      requires 0 < align <= TOP_ALIGN
    {
      && b in was && b in free && p - 2 in N && 0 <= Address(b + 2) < WORD_LIMIT
      && Carved(8 * was[b], Gap(Address(b + 2), align), adjust, b, p, 8 * N[p - 2])
    }

    /** An aligned allocation, once it is known how much to search for. */
    method AllocatePadded(align: nat, adjust: nat, alignedSize: nat) returns (p: int)
      requires Valid() && (alignedSize != 0 ==> BLOCK_SIZE_MIN <= adjust) && adjust % 8 == 0 && alignedSize % 8 == 0
      requires IsPow2(align) && 0 < align <= TOP_ALIGN
               && (alignedSize != 0 && align != TOP_ALIGN ==> Padded(adjust, align, alignedSize))
      modifies this, mem
      ensures Valid()
      ensures p == NULL ==> mem[..] == old(mem[..]) && N == old(N) && T == old(T)
      ensures p == NULL <==> alignedSize == 0 || old(NoneFits(alignedSize))
      ensures p != NULL ==>
                && p - 2 in N && p - 2 !in T.free && p - 2 != last && (p - 2 in old(N) ==> p - 2 in old(T).free)
                && SameUsed(old(N), old(T), N, T, p - 2) && Kept(old(mem[..]), mem[..], old(N), old(T), NONE, 0)
      ensures p != NULL ==> exists b :: CarvedFrom(old(N), old(T).free, b, align, adjust, p)
      ensures p != NULL && align != TOP_ALIGN ==>
                IsMultiple(Address(p), align) && adjust <= 8 * N[p - 2] < adjust + BLOCK_HEADER_SIZE
    {
      p := NULL;
      var block := BlockLocateFree(alignedSize);
      if block != NONE {
        ghost var m1 := mem[..];
        p := PlaceAligned(block, align, adjust, alignedSize);
        KeptChain(old(mem[..]), m1, mem[..], old(N), old(T), old(N), old(T), NONE, 0);
      }
    }

    method Memalign(align: nat, size: nat) returns (p: int)
      requires Valid() && size < WORD_LIMIT && IsPow2(align)
      modifies this, mem
      ensures Valid() && 0 < align <= TOP_ALIGN
      ensures p == NULL ==> mem[..] == old(mem[..]) && N == old(N) && T == old(T)
      ensures var adjust := AdjustRequestSize(size, ALIGN_SIZE);
              && (p == NULL <==> AlignedSize(adjust, align) == 0 || old(NoneFits(AlignedSize(adjust, align))))
              && (p == NULL && AlignedSize(adjust, align) != 0 ==> old(TooSmallIn(N, T, AlignedSize(adjust, align))))
      ensures p != NULL ==> !old(IsLive(p)) && IsLive(p) && OthersKept(old(mem[..]), old(N), old(T), p, p)
      ensures p != NULL ==>
                exists b :: CarvedFrom(old(N), old(T).free, b, align, AdjustRequestSize(size, ALIGN_SIZE), p)
      ensures p != NULL && align != TOP_ALIGN ==>
                && IsMultiple(Address(p), align)
                && Holds(p, AdjustRequestSize(size, ALIGN_SIZE))
    {
      Pow2Range(align);
      var adjust := AdjustRequestSize(size, ALIGN_SIZE);
      AdjustCovers(size);
      var alignedSize := PaddedRequest(align, adjust);
      if NoneFits(alignedSize) { NoneFitsMeans(N, T, alignedSize); }
      p := AllocatePadded(align, adjust, alignedSize);
      if p != NULL {
        ClientView(old(mem[..]), old(N), old(T), mem[..], N, T, last, p - 2, p - 2);
      }
    }

    // ----- realloc -----

    /** Taking over the free block that follows a live one. */
    method GrowIntoNext(h: int)
      requires Valid() && h in N && h !in T.free && h != last && Next(N, h) in T.free
      modifies this, mem
      ensures Valid() && h in N && h !in T.free
      ensures N[h] == old(N)[h] + old(N)[Next(old(N), h)] + 1
      ensures SameUsed(old(N), old(T), N, T, h) && Kept(old(mem[..]), mem[..], old(N), old(T), NONE, 0)
    {
      Weaken(mem[..], N, T, last, h);
      BlockMergeNext(h);
      ghost var m1, T1 := mem[..], T;
      ReadSize(m1, N, T, last, h, h);
      ghost var q := Next(N, h);
      BlockMarkAsUsed(h);
      MarkUsedStep(m1, N, T, F, blocks, last, h, q, mem[..], MarkUsedTags(T, h, q));
      T := MarkUsedTags(T, h, q);
      GrownKept(old(mem[..]), m1, mem[..], old(N), old(T), N, T1, h);
    }

    /** Resizing without moving. */
    method ResizeInPlace(h: int, adjust: nat)
      requires Valid() && h in N && h !in T.free && h != last && adjust % 8 == 0 && BLOCK_SIZE_MIN <= adjust
      requires adjust <= 8 * N[h] || (Next(N, h) in T.free && adjust <= 8 * (N[h] + N[Next(N, h)] + 1))
      modifies this, mem
      ensures Valid() && h in N && h !in T.free && adjust <= 8 * N[h] < adjust + BLOCK_HEADER_SIZE
      ensures SameUsed(old(N), old(T), N, T, h)
      ensures Kept(old(mem[..]), mem[..], old(N), old(T), h, if adjust / 8 <= old(N)[h] then adjust / 8 else old(N)[h])
    {
      ReadSize(mem[..], N, T, last, NONE, h);
      var grow := adjust > mem[h + 1] - mem[h + 1] % 4;
      if grow {
        GrowIntoNext(h);
      }
      ghost var m1, N1, T1 := mem[..], N, T;
      BlockTrimUsed(h, adjust);
      ResizedKept(old(mem[..]), m1, mem[..], old(N), old(T), N1, T1, h, adjust / 8);
    }

    /** `memcpy` of whole words between two areas. */
    method CopyWords(dst: nat, src: nat, count: nat)
      requires dst + count <= mem.Length && src + count <= mem.Length && (dst + count <= src || src + count <= dst)
      modifies mem
      ensures Copied(old(mem[..]), mem[..], dst, src, count)
    {
      for i := 0 to count
        invariant mem[dst..dst + i] == old(mem[src..src + i])
        invariant forall w :: 0 <= w < mem.Length && (w < dst || dst + i <= w) ==> mem[w] == old(mem[w])
      {
        mem[dst + i] := mem[src + i];
      }
    }

    /** The size of a block in words, as its header says. */
    method WordsIn(h: int) returns (n: nat)
      requires Valid() && h in N && h != last
      ensures n == N[h]
    {
      ReadSize(mem[..], N, T, last, NONE, h);
      n := (mem[h + 1] - mem[h + 1] % 4) / 8;
    }

    /** Copying one live block's words to the front of another. */
    method CopyBlock(h: int, b: int)
      requires Valid() && h in N && h !in T.free && h != last && b in N && b !in T.free && b != last && h != b
               && N[h] <= N[b]
      modifies mem
      ensures Valid() && Kept(old(mem[..]), mem[..], N, T, b, 0)
      ensures SamePrefix(old(mem[..]), h, mem[..], b, N[h])
    {
      ghost var m := mem[..];
      AreasApart(N, last, h, b);
      var n := WordsIn(h);
      CopyWords(b + 2, h + 2, n);
      CopyStep(m, mem[..], N, T, F, blocks, last, h, b);
    }

    /** Allocating a block elsewhere and copying; the old block is freed by the caller. */
    method MoveData(h: int, adjust: nat) returns (found: bool, b: int)
      requires Valid() && h in N && h !in T.free && h != last && adjust % 8 == 0 && BLOCK_SIZE_MIN <= adjust
               && 8 * N[h] < adjust
      modifies this, mem
      ensures Valid()
      ensures !found ==> mem[..] == old(mem[..]) && N == old(N) && T == old(T)
      ensures found ==>
                && b in old(T).free && b in N && b !in T.free && h in N && N[h] == old(N)[h] && h !in T.free
                && SameUsed(old(N), old(T), N, T, b) && Kept(old(mem[..]), mem[..], old(N), old(T), NONE, 0)
                && adjust <= 8 * N[b] < adjust + BLOCK_HEADER_SIZE
                && SamePrefix(old(mem[..]), h, mem[..], b, N[h])
      ensures found <==> !old(NoneFits(adjust))
    {
      var p := Allocate(adjust);
      found, b := p != NULL, p - 2;
      if found {
        ghost var m1 := mem[..];
        CopyBlock(h, b);
        MoveStep(old(mem[..]), m1, mem[..], old(N), old(T), N, T, last, h, b);
      }
    }

    /** Resizing by moving. */
    method ResizeByMoving(h: int, adjust: nat) returns (found: bool, b: int)
      requires Valid() && h in N && h !in T.free && h != last && adjust % 8 == 0 && BLOCK_SIZE_MIN <= adjust
               && 8 * N[h] < adjust
      modifies this, mem
      ensures Valid()
      ensures !found ==> mem[..] == old(mem[..]) && N == old(N) && T == old(T)
      ensures found ==>
                && b in old(T).free && b in N && b !in T.free && b != h && (h in N ==> h in T.free)
                && SameUsedBut(old(N), old(T), N, T, h, b) && Kept(old(mem[..]), mem[..], old(N), old(T), h, 0)
                && adjust <= 8 * N[b] < adjust + BLOCK_HEADER_SIZE
                && SamePrefix(old(mem[..]), h, mem[..], b, old(N)[h])
      ensures found <==> !old(NoneFits(adjust))
    {
      found, b := MoveData(h, adjust);
      if found {
        ghost var m2, N2, T2 := mem[..], N, T;
        ReleaseBlock(h);
        ReleaseAfterMove(old(mem[..]), m2, mem[..], old(N), old(T), N2, T2, N, T, h, b, old(N)[h]);
      }
    }

    /** Whether the block and what follows it are too small for the request. */
    method MustMove(h: int, adjust: nat) returns (move: bool)
      requires Valid() && h in N && h != last
      ensures Next(N, h) in N
      ensures move <==> adjust > 8 * N[h] && (Next(N, h) !in T.free || adjust > 8 * (N[h] + N[Next(N, h)] + 1))
    {
      ReadSize(mem[..], N, T, last, NONE, h);
      var next := h + 1 + (mem[h + 1] - mem[h + 1] % 4) / 8;
      assert next == Next(N, h) && next in N;
      ReadSize(mem[..], N, T, last, NONE, next);
      var cursize := mem[h + 1] - mem[h + 1] % 4;
      var combined := cursize + (mem[next + 1] - mem[next + 1] % 4) + 8;
      move := adjust > cursize && (mem[next + 1] % 2 != 1 || adjust > combined);
    }

    ghost predicate Stuck(p: int, adjust: nat)
      reads this
    {
      StuckIn(N, T, p, adjust)
    }

    method ReallocLive(p: int, adjust: nat) returns (r: int)
      requires Valid() && IsLive(p) && adjust % 8 == 0 && BLOCK_SIZE_MIN <= adjust
      modifies this, mem
      ensures Valid()
      ensures r == NULL ==> mem[..] == old(mem[..]) && N == old(N) && T == old(T)
      ensures r != NULL ==> Reallocated(old(mem[..]), old(N), old(T), mem[..], N, T, last, p, r, adjust)
      ensures r == NULL <==> old(Stuck(p, adjust))
    {
      var h := p - 2;
      ghost var m := mem[..];
      var move := MustMove(h, adjust);
      if move {
        var found, b := ResizeByMoving(h, adjust);
        r := if found then b + 2 else NULL;
        if found {
          MovedView(m, old(N), old(T), mem[..], N, T, last, h, b, adjust);
        }
      } else {
        ResizeInPlace(h, adjust);
        r := p;
        ResizedView(m, old(N), old(T), mem[..], N, T, last, h, adjust);
      }
    }

    /** Taking the block after one whose header starts at `r`, inside another's header. */
    method AbsorbAfter(r: int, q: int, ghost rest: nat)
      requires ListsOk() && Tiled(N, last) && mem.Length == last + 2 && F.Keys <= N.Keys - {last} && q in F
               && ClassOk(N, F, q)
      requires r - 1 in N && r - 1 !in F && r - 1 != last && q == Next(N, r - 1) && r + 1 + rest == q && rest >= 3
      requires BlockSize(mem[..], r) == 8 * rest && BlockSize(mem[..], q) == 8 * N[q]
      requires T.free <= N.Keys && last !in T.free && F.Keys <= T.free
      modifies mem, this`nullNext, this`nullPrev, this`blocks, this`flBitmap, this`slBitmap, this`F
      ensures ListsOk() && F == old(F) - {q}
      ensures mem[r] == old(mem[r]) && BlockSize(mem[..], r) == 8 * (rest + N[q] + 1) && rest + N[q] + 1 < last
      ensures Kept(old(mem[..]), mem[..], N, T, r - 1, 0)
    {
      ghost var m, q2 := mem[..], Next(N, q);
      TiledBeside(N, last, r - 1, q);
      TiledBeside(N, last, q, q);
      BlockRemove(q);
      ghost var m1 := mem[..];
      LinksApart(m, m1, N, last, old(F), r - 1);
      LinksApart(m, m1, N, last, old(F), q);
      BlockAbsorb(r, q, rest, N[q], q2);
      AbsorbedHeader(m1, r, q, q2, rest, N[q], mem[..]);
      EmptyAbsorbLinks(m1, N, last, F, r, q, q2);
      LinkedFrame(m1, mem[..], F, blocks);
      LinkWritesKept(m, m1, N, T, last, old(F));
      KeptFewer(m, m1, N, T, r - 1);
      EmptyAbsorbKept(m1, N, T, last, r - 1, q, q2, mem[..]);
      KeptChain(m, m1, mem[..], N, T, N, T, r - 1, 0);
    }

    /** `block_trim_used` to zero bytes: the block is left with a zero size word. */
    method TrimToNothing(h: int)
      requires Valid() && h in N && h != last && h !in T.free && N[h] > 3
      modifies this, mem
      ensures mem[h + 1] == WithSize(old(mem[h + 1]), 0) && Kept(old(mem[..]), mem[..], old(N), old(T), h, 0)
    {
      ghost var m, N0, q, rest := mem[..], N, Next(N, h), N[h] - 1;
      var r := SplitOffAll(h);
      ghost var m1 := mem[..];
      var next := r + 1 + (mem[r + 1] - mem[r + 1] % 4) / 8;
      ghost var size: nat := rest;
      if mem[next + 1] % 2 == 1 {
        assert ClassOk(N, F, q);
        AbsorbAfter(r, next, rest);
        size := rest + N[q] + 1;
      }
      forall g | g in F
        ensures g + 4 <= r || r + 4 <= g
      {
        ListedBeside(N, last, old(F), h, g);
      }
      ghost var m2 := mem[..];
      N := N[r := size];
      BlockInsert(r);
      EmptyInsertKept(m2, mem[..], N0, T, last, F, h);
      KeptChain(m, m1, m2, N0, T, N0, T, h, 0);
      KeptChain(m, m2, mem[..], N0, T, N0, T, h, 0);
    }

    /** The split: the second part is all of the block but one word. */
    method SplitOffAll(h: int) returns (r: int)
      requires Valid() && h in N && h != last && h !in T.free && N[h] > 3
      modifies mem
      ensures r == h + 1 && ListsOk() && Next(N, h) in N
      ensures mem[r] == WithSize(old(mem[r]), 0) && BlockSize(mem[..], r) == 8 * (N[h] - 1)
      ensures Kept(old(mem[..]), mem[..], N, T, h, 0)
      ensures BlockSize(mem[..], Next(N, h)) == 8 * N[Next(N, h)]
              && (mem[Next(N, h) + 1] % 2 == 1 <==> Next(N, h) in T.free)
    {
      ghost var m, q, rest := mem[..], Next(N, h), N[h] - 1;
      TiledBeside(N, last, h, h);
      ReadSize(m, N, T, last, NONE, h);
      r := SplitAndLink(h, 0, rest, q);
      EmptySplitAt(m, h, rest, q, mem[..]);
      EmptySplitLinks(m, mem[..], N, last, F, h, q);
      EmptySplitKept(m, mem[..], N, T, last, h, q);
      LinkedFrame(m, mem[..], F, blocks);
      assert SizeOk(m, N, T, q);
      EmptySplitSizes(m, N, T, h, rest, q, mem[..]);
    }

    /** A live block and a non-zero request that adjusts to zero. */
    predicate Underflows(p: int, size: nat)
      requires size < WORD_LIMIT
    {
      p != NULL && size != 0 && AdjustRequestSize(size, ALIGN_SIZE) == 0
    }

    method ReallocToNothing(p: int)
      requires Valid() && IsLive(p)
      modifies this, mem
      ensures old(SizeAt(p)) < BLOCK_HEADER_SIZE ==> Valid() && mem[..] == old(mem[..]) && N == old(N) && T == old(T)
      ensures old(SizeAt(p)) >= BLOCK_HEADER_SIZE ==> 1 <= p <= mem.Length && mem[p - 1] == WithSize(old(mem[p - 1]), 0)
      ensures Kept(old(mem[..]), mem[..], old(N), old(T), p - 2, 0)
    {
      ReadSize(mem[..], N, T, last, NONE, p - 2);
      if mem[p - 1] - mem[p - 1] % 4 >= BLOCK_HEADER_SIZE {
        TrimToNothing(p - 2);
      }
    }

    method Realloc(p: int, size: nat) returns (r: int)
      requires Valid() && size < WORD_LIMIT && (p == NULL || IsLive(p))
      modifies this, mem
      ensures !Underflows(p, size) || old(SizeAt(p)) < BLOCK_HEADER_SIZE ==> Valid()
      ensures Underflows(p, size) ==>
                && r == p && Kept(old(mem[..]), mem[..], old(N), old(T), p - 2, 0)
                && (old(SizeAt(p)) < BLOCK_HEADER_SIZE ==> mem[..] == old(mem[..]) && N == old(N) && T == old(T))
                && (old(SizeAt(p)) >= BLOCK_HEADER_SIZE ==>
                     1 <= p <= mem.Length && mem[p - 1] == WithSize(old(mem[p - 1]), 0))
      ensures p != NULL && size == 0 ==> r == NULL && !IsLive(p) && OthersKept(old(mem[..]), old(N), old(T), p, p)
      ensures p == NULL && r != NULL ==>
                && !old(IsLive(r)) && IsLive(r) && OthersKept(old(mem[..]), old(N), old(T), r, r)
                && Holds(r, AdjustRequestSize(size, ALIGN_SIZE))
      ensures (p == NULL || size != 0) && r == NULL ==> mem[..] == old(mem[..]) && N == old(N) && T == old(T)
      ensures p != NULL && size != 0 && r != NULL && !Underflows(p, size) ==>
                Reallocated(old(mem[..]), old(N), old(T), mem[..], N, T, last, p, r,
                  AdjustRequestSize(size, ALIGN_SIZE))
      ensures p != NULL && size != 0 && !Underflows(p, size) ==>
                (r == NULL <==> old(Stuck(p, AdjustRequestSize(size, ALIGN_SIZE))))
      ensures (p == NULL || size != 0) && r == NULL && AdjustRequestSize(size, ALIGN_SIZE) != 0 ==>
                old(TooSmallIn(N, T, AdjustRequestSize(size, ALIGN_SIZE)))
      ensures p == NULL ==>
                (r == NULL <==>
                    AdjustRequestSize(size, ALIGN_SIZE) == 0 || old(NoneFits(AdjustRequestSize(size, ALIGN_SIZE))))
    {
      r := NULL;
      if p != NULL && size == 0 {
        Free(p);
      } else if p == NULL {
        r := Malloc(size);
      } else if AdjustRequestSize(size, ALIGN_SIZE) == 0 {
        ReallocToNothing(p);
        r := p;
      } else {
        AdjustCovers(size);
        if NoneFits(AdjustRequestSize(size, ALIGN_SIZE)) { NoneFitsMeans(N, T, AdjustRequestSize(size, ALIGN_SIZE)); }
        r := ReallocLive(p, AdjustRequestSize(size, ALIGN_SIZE));
      }
    }

    // ----- construction -----

    /** Writing a whole size word over whatever it held. */
    method WriteHeader(h: int, n: nat, free: bool)
      requires 0 <= h < mem.Length - 1
      modifies mem
      ensures mem[..] == old(mem[..])[h + 1 := Encode(n, free, !free)]
    {
      var w := mem[h + 1];
      FreshEncoded(w, n);
      w := WithSize(w, 8 * n);
      if free {
        mem[h + 1] := WithPrevUsed(WithFree(w));
      } else {
        mem[h + 1] := WithPrevFree(WithUsed(w));
      }
    }

    /** The pool as one free block in front of a zero-size sentinel. */
    method AddPool(n: nat)
      requires mem.Length == last + 2 && last == n + 1 && 3 <= n && 8 * n < BLOCK_SIZE_MAX && ListsOk() && F == map[]
      requires N == InitialSizes(last) && T == Tags({0}, {last})
      modifies mem, this`nullPrev, this`blocks, this`flBitmap, this`slBitmap, this`F
      ensures Holding(NONE)
    {
      WriteHeader(0, n, true);
      EncodedWord(n, true, false);
      LinkedFrame(old(mem[..]), mem[..], F, blocks);
      BlockInsert(0);
      ghost var m1 := mem[..];
      assert m1[1] == Encode(n, true, false);
      var next := BlockLinkNext(0);
      WriteHeader(next, 0, false);
      InitialPhys(mem[..], last);
      LinkedFrame(m1, mem[..], F, blocks);
    }

    /** `tlsf_create_with_pool` with a pool of `poolBytes` bytes after alignment and
        checks; word 0 lies one word below the pool. */
    constructor (base: nat, poolBytes: nat)
      requires poolBytes % 8 == 0 && BLOCK_SIZE_MIN <= poolBytes < BLOCK_SIZE_MAX
      requires base % 8 == 0 && base + poolBytes + 24 <= WORD_LIMIT
      ensures Valid() && this.base == base && 8 * (last - 1) == poolBytes
      ensures last >= 1 && N == InitialSizes(last) && T.free == {0}
      ensures fresh(mem)
    {
      this.base := base;
      var n := poolBytes / 8;
      this.last := n + 1;
      mem := new int[n + 3];
      nullNext, nullPrev := NULL_BLOCK, NULL_BLOCK;
      flBitmap := ZERO;
      slBitmap := seq(FL_INDEX_COUNT, _ => ZERO);
      blocks := seq(FL_INDEX_COUNT, _ => seq(SL_INDEX_COUNT, _ => NULL_BLOCK));
      N := InitialSizes(n + 1);
      T := Tags({0}, {n + 1});
      F := map[];
      new;
      EmptyTable(mem[..], blocks, slBitmap);
      AddPool(n);
    }

    // ----- the client's own view -----

    /** `tlsf_block_size`. */
    method BlockSizeOf(p: int) returns (size: nat)
      requires Valid() && (p == NULL || IsLive(p))
      ensures p == NULL ==> size == 0
      ensures p != NULL ==> size == SizeAt(p) == 8 * |Data(p)|
    {
      size := 0;
      if p != NULL {
        ReadSize(mem[..], N, T, last, NONE, p - 2);
        assert Next(N, p - 2) in N;
        size := mem[p - 1] - mem[p - 1] % 4;
      }
    }

    /** A client storing a word in its own area. */
    method Store(p: int, k: nat, v: int)
      requires Valid() && IsLive(p) && k < |Data(p)|
      modifies mem
      ensures Valid() && Data(p) == old(Data(p))[k := v] && OthersKept(old(mem[..]), N, T, p, p)
    {
      ghost var m := mem[..];
      mem[p + k] := v;
      StoreStep(m, mem[..], N, T, F, blocks, last, p - 2, k, v);
    }

    // ----- integrity checks -----

    /** `tlsf_check_pool`: walks the blocks and compares each prev-free bit with the
        status of the block before. */
    method CheckPool() returns (status: int)
      requires Valid()
      ensures status == 0
    {
      status := 0;
      var prevStatus := false;
      var block := 0;
      ReadSize(mem[..], N, T, last, NONE, block);
      while mem[block + 1] - mem[block + 1] % 4 != 0
        invariant block in N && status == 0 && (prevStatus <==> block in T.prevFree)
        invariant BlockSize(mem[..], block) == 8 * N[block]
        decreases last - block
      {
        ReadSize(mem[..], N, T, last, NONE, block);
        var thisPrev := mem[block + 1] / 2 % 2 == 1;
        var thisFree := mem[block + 1] % 2 == 1;
        if prevStatus != thisPrev {
          status := status - 1;
        }
        prevStatus := thisFree;
        var next := block + 1 + (mem[block + 1] - mem[block + 1] % 4) / 8;
        assert next == Next(N, block) && next in N;
        block := next;
        ReadSize(mem[..], N, T, last, NONE, block);
      }
    }

    /** One list entry of `tlsf_check`: how many of the six conditions fail. */
    method CheckBlock(block: int, i: nat, j: nat) returns (status: int)
      requires Valid() && block in F && F[block].c == Class(i, j)
      ensures status == 0
    {
      status := 0;
      FreeNeighbours(mem[..], N, T, last, block);
      ReadSize(mem[..], N, T, last, NONE, block);
      var next := block + 1 + (mem[block + 1] - mem[block + 1] % 4) / 8;
      ReadSize(mem[..], N, T, last, NONE, next);
      assert ClassOk(N, F, block);
      var size := mem[block + 1] - mem[block + 1] % 4;
      if mem[block + 1] % 2 != 1 { status := status - 1; }
      if mem[block + 1] / 2 % 2 == 1 { status := status - 1; }
      if mem[next + 1] % 2 == 1 { status := status - 1; }
      if mem[next + 1] / 2 % 2 != 1 { status := status - 1; }
      if size < BLOCK_SIZE_MIN { status := status - 1; }
      var c := MappingInsert(size);
      if c.fl != i || c.sl != j { status := status - 1; }
    }

    /** One cell of the table in `tlsf_check`. */
    method CheckList(i: nat, j: nat) returns (status: int)
      requires Valid() && i < FL_INDEX_COUNT && j < SL_INDEX_COUNT
      ensures status == 0
    {
      status := 0;
      var slMap := slBitmap[i][j];
      var block := blocks[i][j];
      var c := Class(i, j);
      assert HeadOk(mem[..], F, blocks, c) && block == Head(blocks, c);
      if !flBitmap[i] && slMap { status := status - 1; }
      if !slMap {
        if block != NULL_BLOCK { status := status - 1; }
        return;
      }
      if !NonZero(slBitmap[i]) { status := status - 1; }
      if block == NULL_BLOCK { status := status - 1; }
      while block != NULL_BLOCK
        invariant status == 0 && (block == NULL_BLOCK || (block in F && F[block].c == c))
        decreases if block == NULL_BLOCK then 0 else F[block].rank + 1
      {
        assert NodeOk(mem[..], F, blocks, block);
        var s := CheckBlock(block, i, j);
        status := status + s;
        assert mem[block + 2] != NULL_BLOCK ==> NodeOk(mem[..], F, blocks, mem[block + 2]);
        block := mem[block + 2];
      }
    }

    /** `tlsf_check` over the whole table. */
    method Check() returns (status: int)
      requires Valid()
      ensures status == 0
    {
      status := 0;
      for i := 0 to FL_INDEX_COUNT
        invariant status == 0
      {
        for j := 0 to SL_INDEX_COUNT
          invariant status == 0
        {
          var s := CheckList(i, j);
          status := status + s;
        }
      }
    }
  }
}

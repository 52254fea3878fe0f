/** The alignment arithmetic of `tlsf_memalign`: how much extra it asks for, where
    the aligned pointer lands, and why the leading gap can always be split off. */
module Alignment {
  import opened SizeClasses

  /** The largest power of two that is an address. */
  const TOP_ALIGN := 0x8000_0000_0000_0000

  predicate IsPow2(a: nat) {
    exists k: nat :: k < 64 && a == Pow2(k)
  }

  /** Multiples of `a`, told by rounding. */
  predicate IsMultiple(x: nat, a: nat)
    requires a > 0
  {
    RoundDown(x, a) == x
  }

  lemma {:induction false} MultipleMod(x: nat, a: nat)
    requires a > 0
    ensures IsMultiple(x, a) <==> x % a == 0
  {
    RoundDownMod(x, a);
  }

  lemma {:induction false} RoundDownMultiple(s: nat, a: nat)
    requires a > 0
    ensures IsMultiple(RoundDown(s, a), a)
    decreases s
  {
    if s >= a {
      RoundDownMultiple(s - a, a);
    }
  }

  /** Away from the wrap, rounding up gives the next multiple. */
  lemma {:induction false} AlignUpSpec(x: nat, a: nat)
    requires 0 < a < WORD_LIMIT && x + (a - 1) < WORD_LIMIT
    ensures IsMultiple(AlignUp(x, a), a) && x <= AlignUp(x, a) < x + a
  {
    RoundDownBounds(x + (a - 1), a);
    RoundDownMultiple(x + (a - 1), a);
  }

  lemma {:induction false} MultiplesSpaced(x: nat, y: nat, a: nat)
    requires 0 < a && IsMultiple(x, a) && IsMultiple(y, a) && x < y
    ensures x + a <= y
    decreases x
  {
    if x >= a {
      MultiplesSpaced(x - a, y - a, a);
    }
  }

  /** A multiple is its own rounding. */
  lemma {:induction false} AlignUpMultiple(x: nat, a: nat)
    requires 0 < a < WORD_LIMIT && x + (a - 1) < WORD_LIMIT && IsMultiple(x, a)
    ensures AlignUp(x, a) == x
  {
    AlignUpSpec(x, a);
    if x < AlignUp(x, a) {
      MultiplesSpaced(x, AlignUp(x, a), a);
    }
  }

  lemma {:induction false} FactorEight(x: nat, a: nat)
    requires 0 < a && a % 8 == 0 && IsMultiple(x, a)
    ensures x % 8 == 0
    decreases x
  {
    if x >= a {
      FactorEight(x - a, a);
    }
  }

  lemma {:induction false} Pow2Eight(k: nat)
    requires k >= 3
    ensures Pow2(k) % 8 == 0
  {
    assert Shl(1, k) == 2 * Shl(1, k - 1) == 4 * Shl(1, k - 2);
  }

  /** Alignments above 8 are 16, 32, or a multiple of 64, and at most 2^63. */
  lemma {:induction false} BigPow2(a: nat)
    requires IsPow2(a) && a > ALIGN_SIZE
    ensures a % 8 == 0 && a >= 16 && (a == 16 || a >= 32) && a <= TOP_ALIGN
    ensures a == TOP_ALIGN || a <= 0x4000_0000_0000_0000
  {
    var k: nat :| k < 64 && a == Pow2(k);
    assert Pow2(3) == 8 && Pow2(4) == 16 && Pow2(5) == 32;
    if k < 3 { Pow2Grows(k, 3); }
    Pow2Eight(k);
    if k > 5 { Pow2Grows(5, k); }
    TopPowers();
    if k < 62 { Pow2Grows(k, 62); }
  }

  lemma {:induction false} TopPowers()
    ensures Pow2(62) == 0x4000_0000_0000_0000 && Pow2(63) == 0x8000_0000_0000_0000
  {
    SmallPowers();
    ShlTen(32);
    ShlTen(42);
    ShlTen(52);
    assert Pow2(63) == 2 * Pow2(62);
  }

  lemma {:induction false} ShlTen(k: nat)
    ensures Pow2(k + 10) == 1024 * Pow2(k)
  {
    ShlAdds(1, k, 5);
    ShlAdds(1, k + 5, 5);
    ShlFive(Pow2(k));
    ShlFive(Pow2(k + 5));
  }

  lemma {:induction false} ShlFive(x: nat)
    ensures Shl(x, 5) == 32 * x
  {
    assert Shl(x, 1) == 2 * x;
    assert Shl(x, 2) == 4 * x;
    assert Shl(x, 3) == 8 * x;
    assert Shl(x, 4) == 16 * x;
  }

  // ----- what memalign asks for -----

  function SizeWithGap(adjust: nat, align: nat): nat
    requires adjust < BLOCK_SIZE_MAX && 0 < align <= TOP_ALIGN
  {
    AdjustRequestSize(adjust + align + BLOCK_HEADER_SIZE, align)
  }

  /** The padded request is refused or covers the padding, with one exception: for
      the largest alignment the rounding wraps and 24 bytes are asked for. */
  lemma {:induction false} PaddingCovers(adjust: nat, align: nat)
    requires BLOCK_SIZE_MIN <= adjust < BLOCK_SIZE_MAX && IsPow2(align) && align > ALIGN_SIZE
    ensures align <= TOP_ALIGN
    ensures var s := SizeWithGap(adjust, align);
            && s % 8 == 0
            && ((s == 0 || s >= adjust + align + BLOCK_HEADER_SIZE) <==> align != TOP_ALIGN)
            && (align != TOP_ALIGN ==> s < adjust + align + BLOCK_HEADER_SIZE + align)
            && (s == 0 ==> adjust + align + BLOCK_HEADER_SIZE + align > BLOCK_SIZE_MAX)
            && (align == TOP_ALIGN ==> s == BLOCK_SIZE_MIN)
  {
    BigPow2(align);
    var x := adjust + align + BLOCK_HEADER_SIZE;
    if align != TOP_ALIGN {
      AlignUpSpec(x, align);
      FactorEight(AlignUp(x, align), align);
    }
  }

  // ----- where the pointer lands -----

  /** The distance from `ptr` to the aligned address `memalign` settles on, in
      64-bit arithmetic: the first aligned address, or, if the gap could not hold a
      block, a later one. */
  function Gap(ptr: nat, align: nat): nat
    requires ptr < WORD_LIMIT && 0 < align < WORD_LIMIT
  {
    var aligned := AlignUp(ptr, align);
    RoundDownBounds(Wrap(ptr + (align - 1)), align);
    var gap := Wrap(aligned - ptr);
    if 0 < gap < BLOCK_HEADER_SIZE then
      var offset := Max(BLOCK_HEADER_SIZE - gap, align);
      var next := Wrap(aligned + offset);
      RoundDownBounds(Wrap(next + (align - 1)), align);
      Wrap(AlignUp(next, align) - ptr)
    else gap
  }

  lemma {:induction false} FirstGap(ptr: nat, align: nat, aligned: nat)
    requires 0 < align < WORD_LIMIT && ptr + (align - 1) < WORD_LIMIT && aligned == AlignUp(ptr, align)
    requires aligned == ptr || aligned >= ptr + BLOCK_HEADER_SIZE
    ensures Gap(ptr, align) == aligned - ptr
  {
    AlignUpSpec(ptr, align);
  }

  lemma {:induction false} LaterGap(ptr: nat, align: nat, aligned: nat, final: nat)
    requires 0 < align < WORD_LIMIT && ptr < WORD_LIMIT && aligned == AlignUp(ptr, align)
    requires ptr < aligned < ptr + BLOCK_HEADER_SIZE && ptr <= final < WORD_LIMIT
    requires aligned + Max(BLOCK_HEADER_SIZE - (aligned - ptr), align) < WORD_LIMIT
    requires final == AlignUp(aligned + Max(BLOCK_HEADER_SIZE - (aligned - ptr), align), align)
    ensures Gap(ptr, align) == final - ptr
  {
  }

  /** What a padded block is sure to offer, for the smallest request. */
  function Room(align: nat): nat { BLOCK_SIZE_MIN + align + BLOCK_HEADER_SIZE }

  /** The end of the address space is aligned to every power of two. */
  lemma {:induction false} TopAligned(align: nat)
    requires IsPow2(align)
    ensures align > 0 && IsMultiple(WORD_LIMIT, align)
  {
    var k: nat :| k < 64 && align == Pow2(k);
    TopPowers();
    assert Pow2(64) == 2 * Pow2(63);
    PowerMultiple(k, 64);
  }

  lemma {:induction false} PowerMultiple(k: nat, n: nat)
    requires k <= n
    ensures Pow2(k) > 0 && IsMultiple(Pow2(n), Pow2(k))
    decreases n
  {
    if k < n {
      PowerMultiple(k, n - 1);
      MultipleTwice(Pow2(n - 1), Pow2(k));
      assert Pow2(n) == 2 * Pow2(n - 1);
    } else if k > 0 {
      PowerMultiple(k - 1, k - 1);
    }
  }

  lemma {:induction false} MultipleTwice(x: nat, a: nat)
    requires a > 0 && IsMultiple(x, a)
    ensures IsMultiple(2 * x, a)
  {
    MultipleSum(x, x, a);
  }

  lemma {:induction false} MultipleSum(x: nat, y: nat, a: nat)
    requires a > 0 && IsMultiple(x, a) && IsMultiple(y, a)
    ensures IsMultiple(x + y, a)
    decreases y
  {
    if y >= a {
      MultipleSum(x, y - a, a);
    }
  }

  /** The later address: far enough for a block, and not too far. */
  lemma {:induction false} LaterAddress(ptr: nat, align: nat, aligned: nat) returns (final: nat)
    requires align % 8 == 0 && (align == 16 || 32 <= align) && IsMultiple(WORD_LIMIT, align)
    requires ptr % 8 == 0 && ptr + Room(align) <= WORD_LIMIT
    requires IsMultiple(aligned, align) && aligned % 8 == 0
    requires ptr < aligned < ptr + BLOCK_HEADER_SIZE && aligned < ptr + align
    ensures aligned + Max(BLOCK_HEADER_SIZE - (aligned - ptr), align) < WORD_LIMIT
    ensures final == AlignUp(aligned + Max(BLOCK_HEADER_SIZE - (aligned - ptr), align), align)
    ensures IsMultiple(final, align) && final % 8 == 0 && ptr + BLOCK_HEADER_SIZE <= final <= ptr + align + 24
  {
    if align == 16 {
      final := NearAddress(ptr, align, aligned);
    } else {
      final := FarAddress(ptr, align, aligned);
    }
    FactorEight(final, align);
  }

  lemma {:induction false} NearAddress(ptr: nat, align: nat, aligned: nat) returns (final: nat)
    requires align == 16 && ptr + 72 <= WORD_LIMIT && ptr < aligned < ptr + 16
    ensures aligned + Max(BLOCK_HEADER_SIZE - (aligned - ptr), align) == ptr + BLOCK_HEADER_SIZE
    ensures final == AlignUp(ptr + BLOCK_HEADER_SIZE, align)
    ensures IsMultiple(final, align) && ptr + BLOCK_HEADER_SIZE <= final <= ptr + BLOCK_HEADER_SIZE + 15
  {
    AlignUpSpec(ptr + BLOCK_HEADER_SIZE, align);
    final := AlignUp(ptr + BLOCK_HEADER_SIZE, align);
  }

  lemma {:induction false} FarAddress(ptr: nat, align: nat, aligned: nat) returns (final: nat)
    requires 32 <= align && IsMultiple(WORD_LIMIT, align) && ptr + Room(align) <= WORD_LIMIT
    requires IsMultiple(aligned, align) && ptr < aligned < ptr + BLOCK_HEADER_SIZE
    ensures final == aligned + align == aligned + Max(BLOCK_HEADER_SIZE - (aligned - ptr), align) < WORD_LIMIT
    ensures final == AlignUp(final, align) && IsMultiple(final, align)
  {
    final := aligned + align;
    MultiplesSpaced(final, WORD_LIMIT, align);
    AlignUpMultiple(final, align);
  }

  /** The address is aligned, and a non-zero gap is big enough for a block yet
      small enough that the padded request leaves room to split it off and still
      hold the adjusted request. */
  lemma {:induction false} GapFits(ptr: nat, align: nat, adjust: nat, gap: nat)
    requires IsPow2(align) && align > ALIGN_SIZE && BLOCK_SIZE_MIN <= adjust
    requires ptr % 8 == 0 && ptr + Room(align) <= WORD_LIMIT && gap == Gap(ptr, align)
    ensures IsMultiple(ptr + gap, align) && gap % 8 == 0
    ensures gap == 0 || gap >= BLOCK_HEADER_SIZE
    ensures gap != 0 ==> BLOCK_HEADER_SIZE + gap <= adjust + align + BLOCK_HEADER_SIZE
    ensures gap + adjust <= adjust + align + BLOCK_HEADER_SIZE
  {
    BigPow2(align);
    TopAligned(align);
    var final := FinalAddress(ptr, align);
    GapTo(ptr, align, gap, final);
  }

  lemma {:induction false} GapTo(ptr: nat, align: nat, gap: nat, final: nat)
    requires align > 0 && ptr % 8 == 0 && final % 8 == 0 && ptr <= final <= ptr + align + 24 && gap == final - ptr
    requires IsMultiple(final, align)
    ensures IsMultiple(ptr + gap, align) && gap % 8 == 0 && gap <= align + 24
  {
    assert ptr + gap == final;
  }

  /** It is the first address that is aligned and leaves no gap or one that can hold a
      block. */
  lemma {:induction false} GapLeast(ptr: nat, align: nat, gap: nat, other: nat)
    requires IsPow2(align) && align > ALIGN_SIZE && ptr % 8 == 0 && ptr + Room(align) <= WORD_LIMIT
    requires gap == Gap(ptr, align)
    requires IsMultiple(other, align) && (other == ptr || ptr + BLOCK_HEADER_SIZE <= other)
    ensures ptr + gap <= other
  {
    GapFits(ptr, align, BLOCK_SIZE_MIN, gap);
    if other < ptr + gap {
      MultiplesSpaced(other, ptr + gap, align);
      AlignUpMultiple(ptr, align);
      FirstGap(ptr, align, ptr);
    }
  }

  /** Where `memalign` ends up, told without its own arithmetic. */
  lemma {:induction false} FinalAddress(ptr: nat, align: nat) returns (final: nat)
    requires align % 8 == 0 && (align == 16 || 32 <= align) && IsMultiple(WORD_LIMIT, align)
    requires ptr % 8 == 0 && ptr + Room(align) <= WORD_LIMIT
    ensures ptr <= final && Gap(ptr, align) == final - ptr
    ensures IsMultiple(final, align) && final % 8 == 0 && final <= ptr + align + 24
    ensures final == ptr || final >= ptr + BLOCK_HEADER_SIZE
  {
    AlignUpSpec(ptr, align);
    var aligned := AlignUp(ptr, align);
    FactorEight(aligned, align);
    if ptr < aligned < ptr + BLOCK_HEADER_SIZE {
      final := LaterAddress(ptr, align, aligned);
      LaterGap(ptr, align, aligned, final);
    } else {
      final := aligned;
      FirstGap(ptr, align, aligned);
    }
  }

  /** The padding is exactly enough: from alignment 64 on there are addresses for
      which a smaller one would leave no room for the leading block. */
  lemma {:induction false} GapTight(align: nat)
    requires IsPow2(align) && 64 <= align < BLOCK_SIZE_MAX
    ensures var ptr := 2 * align - 24;
            BLOCK_HEADER_SIZE + Gap(ptr, align) == BLOCK_SIZE_MIN + align + BLOCK_HEADER_SIZE
  {
    var ptr := 2 * align - 24;
    AlignUpSpec(ptr, align);
    var aligned := AlignUp(ptr, align);
    assert IsMultiple(align, align);
    assert IsMultiple(2 * align, align);
    assert IsMultiple(3 * align, align);
    if aligned < 2 * align {
      MultiplesSpaced(aligned, 2 * align, align);
    } else if 2 * align < aligned {
      MultiplesSpaced(2 * align, aligned, align);
    }
    AlignUpMultiple(3 * align, align);
    LaterGap(ptr, align, aligned, 3 * align);
  }

  /** The gap at the largest alignment: up to the middle or the end of the address
      space, or, if that is too close for a block, half the address space further. */
  function TopGap(ptr: nat, top: nat): int {
    var first := if ptr == 0 then 0 else if ptr <= top then top - ptr else 2 * top - ptr;
    if 0 < first < BLOCK_HEADER_SIZE then first + top else first
  }

  /** At the largest alignment the gap is still a multiple of 8 that is zero or big
      enough for a block, so the heap survives the call. */
  lemma {:induction false} GapAtLargest(ptr: nat, top: nat)
    requires ptr % 8 == 0 && ptr < WORD_LIMIT && 2 * top == WORD_LIMIT
    ensures Gap(ptr, top) == TopGap(ptr, top)
    ensures TopGap(ptr, top) % 8 == 0 && (TopGap(ptr, top) == 0 || TopGap(ptr, top) >= BLOCK_HEADER_SIZE)
  {
    TopGapIs(ptr, top);
    TopGapEight(ptr, top, ptr / 8, top / 8);
  }

  lemma {:induction false} TopGapIs(ptr: nat, top: nat)
    requires ptr < WORD_LIMIT && 2 * top == WORD_LIMIT
    ensures Gap(ptr, top) == TopGap(ptr, top)
  {
    TopAlignUp(ptr, top);
    var aligned := if 0 < ptr <= top then top else 0;
    var first := Wrap(aligned - ptr);
    if 0 < first < BLOCK_HEADER_SIZE {
      var next := if aligned == 0 then top else 0;
      TopAlignUp(next, top);
      SecondGap(ptr, top, aligned, first, next, next);
    } else {
      NoSecondGap(ptr, top, aligned, first);
    }
  }

  lemma {:induction false} TopGapEight(ptr: nat, top: nat, k: nat, t: nat)
    requires ptr == 8 * k && top == 8 * t
    ensures TopGap(ptr, top) % 8 == 0
  {
    assert TopGap(ptr, top) in {0, 8 * (t - k), 8 * (2 * t - k), 8 * (3 * t - k)};
  }

  lemma {:induction false} NoSecondGap(ptr: nat, align: nat, aligned: nat, first: nat)
    requires ptr < WORD_LIMIT && 0 < align < WORD_LIMIT && aligned == AlignUp(ptr, align) < WORD_LIMIT
    requires first == Wrap(aligned - ptr) && (first == 0 || first >= BLOCK_HEADER_SIZE)
    ensures Gap(ptr, align) == first
  {
  }

  lemma {:induction false} SecondGap(ptr: nat, align: nat, aligned: nat, first: nat, next: nat, final: nat)
    requires ptr < WORD_LIMIT && BLOCK_HEADER_SIZE <= align < WORD_LIMIT && aligned == AlignUp(ptr, align) < WORD_LIMIT
    requires first == Wrap(aligned - ptr) && 0 < first < BLOCK_HEADER_SIZE
    requires next == Wrap(aligned + align) && final == AlignUp(next, align) < WORD_LIMIT
    ensures Gap(ptr, align) == Wrap(final - ptr)
  {
  }

  /** Rounding up to the largest alignment, in 64 bits. */
  lemma {:induction false} TopAlignUp(x: nat, top: nat)
    requires x < WORD_LIMIT && 2 * top == WORD_LIMIT
    ensures AlignUp(x, top) == if 0 < x <= top then top else 0
  {
    TopRounding(Wrap(x + (top - 1)), top);
  }

  lemma {:induction false} TopRounding(s: nat, top: nat)
    requires top > 0 && s < 2 * top
    ensures RoundDown(s, top) == if s < top then 0 else top
  {
    if s >= top {
      assert RoundDown(s - top, top) == 0;
    }
  }

  /** What `memalign` passes to the search. */
  function AlignedSize(adjust: nat, align: nat): nat
    requires adjust < BLOCK_SIZE_MAX && 0 < align <= TOP_ALIGN
  {
    if adjust != 0 && align > ALIGN_SIZE then SizeWithGap(adjust, align) else adjust
  }

  lemma {:induction false} SmallAlignment(ptr: nat, align: nat)
    requires ptr % 8 == 0 && ptr < WORD_LIMIT && IsPow2(align) && align <= ALIGN_SIZE
    ensures align > 0 && Gap(ptr, align) == 0 && IsMultiple(ptr, align)
  {
    SmallPow2(align);
    EightMultiple(align);
    MultipleOfEight(ptr, align);
    AlignUpMultiple(ptr, align);
    FirstGap(ptr, align, ptr);
  }

  lemma {:induction false} SmallPow2(align: nat)
    requires IsPow2(align) && align <= ALIGN_SIZE
    ensures align == 1 || align == 2 || align == 4 || align == 8
  {
    var k: nat :| k < 64 && align == Pow2(k);
    assert Pow2(0) == 1 && Pow2(1) == 2 && Pow2(2) == 4 && Pow2(3) == 8;
    if k > 3 { Pow2Grows(3, k); }
  }

  lemma {:induction false} EightMultiple(align: nat)
    requires align == 1 || align == 2 || align == 4 || align == 8
    ensures IsMultiple(8, align)
  {
    MultipleTwice(align, align);
    MultipleTwice(2 * align, align);
    MultipleTwice(4 * align, align);
  }

  lemma {:induction false} MultipleOfEight(ptr: nat, align: nat)
    requires ptr % 8 == 0 && align > 0 && IsMultiple(8, align)
    ensures IsMultiple(ptr, align)
    decreases ptr
  {
    if ptr >= 8 {
      MultipleOfEight(ptr - 8, align);
      MultipleSum(ptr - 8, 8, align);
    }
  }

  lemma {:induction false} Pow2Range(align: nat)
    requires IsPow2(align)
    ensures 0 < align <= TOP_ALIGN
  {
    if align > ALIGN_SIZE {
      BigPow2(align);
    } else {
      var k: nat :| k < 64 && align == Pow2(k);
    }
  }

  /** A size that leaves room for an aligned block of `adjust` bytes. */
  predicate Padded(adjust: nat, align: nat, s: nat) {
    adjust <= s < BLOCK_SIZE_MAX && (align > ALIGN_SIZE ==> adjust + align + BLOCK_HEADER_SIZE <= s)
  }

  lemma {:induction false} AlignedSizePadded(adjust: nat, align: nat, s: nat)
    requires (adjust == 0 || BLOCK_SIZE_MIN <= adjust < BLOCK_SIZE_MAX) && adjust % 8 == 0
    requires IsPow2(align) && 0 < align <= TOP_ALIGN && s == AlignedSize(adjust, align)
    ensures s % 8 == 0 && (adjust == 0 ==> s == 0)
    ensures s != 0 && align != TOP_ALIGN ==> Padded(adjust, align, s)
  {
    if adjust != 0 && align > ALIGN_SIZE {
      PaddingCovers(adjust, align);
    }
  }

  /** In a padded size the gap is a legal leading block that can be split off, the
      pointer after it is aligned, and the rest holds the request. At alignment 2^63,
      where nothing is padded, the gap is still legal. */
  lemma {:induction false} AlignPlan(ptr: nat, align: nat, adjust: nat, have: nat, gap: nat)
    requires IsPow2(align) && BLOCK_SIZE_MIN <= adjust && 0 < align <= TOP_ALIGN
    requires ptr % 8 == 0 && ptr < WORD_LIMIT && gap == Gap(ptr, align)
    requires align != TOP_ALIGN ==> Padded(adjust, align, have) && ptr + have <= WORD_LIMIT
    ensures gap % 8 == 0 && (gap == 0 || gap >= BLOCK_HEADER_SIZE)
    ensures align != TOP_ALIGN ==>
              && IsMultiple(ptr + gap, align) && gap + adjust <= have
              && (gap != 0 ==> BLOCK_HEADER_SIZE + gap <= have)
  {
    if align <= ALIGN_SIZE {
      SmallAlignment(ptr, align);
    } else if align == TOP_ALIGN {
      GapAtLargest(ptr, align);
    } else {
      GapFits(ptr, align, adjust, gap);
    }
  }

  // ----- what is left of the block -----

  /** A block of `have` bytes at `b` gives up a front of `gap` bytes if there is room
      for that and for another block; what is left is cut down to `adjust` bytes if
      that leaves room for a block, and is allocated at `p` with `size` bytes. */
  predicate Carved(have: nat, gap: nat, adjust: nat, b: int, p: int, size: int) {
    var front := if gap != 0 && BLOCK_HEADER_SIZE + gap <= have then gap else 0;
    && p == b + 2 + front / 8
    && size == if have - front >= BLOCK_HEADER_SIZE + adjust then adjust else have - front
  }

  /** Where the gap and the request fit, the block is aligned and holds the request. */
  lemma {:induction false} CarvedAligned(base: nat, align: nat, n: nat, gap: nat, adjust: nat, padded: nat, b: int,
                                         p: int,
                                         size: int)
    requires Carved(8 * n, gap, adjust, b, p, size) && b >= 0 && align > 0 && gap % 8 == 0 && adjust % 8 == 0
    requires gap + adjust <= padded <= 8 * n && (gap != 0 ==> BLOCK_HEADER_SIZE + gap <= padded)
    requires IsMultiple(base + 8 * (b + 2) + gap, align)
    ensures p >= 2 && IsMultiple(base + 8 * p, align) && adjust <= size < adjust + BLOCK_HEADER_SIZE
  {
    assert base + 8 * p == base + 8 * (b + 2) + gap;
  }

  /** At the largest alignment the pointer is aligned exactly when the block starts at
      the boundary, or reaches over it with room for a block before and after. */
  lemma {:induction false} AlignedAtLargest(ptr: nat, top: nat, have: nat, adjust: nat, b: int, p: int, size: int)
    requires 2 * top == WORD_LIMIT && ptr % 8 == 0 && 0 < ptr && ptr + have <= WORD_LIMIT && have > 0
    requires Carved(have, Gap(ptr, top), adjust, b, p, size)
    ensures ptr + 8 * (p - (b + 2)) == top <==>
            ptr == top || (ptr + BLOCK_HEADER_SIZE <= top && top + BLOCK_HEADER_SIZE <= ptr + have)
  {
    GapAtLargest(ptr, top);
  }

  /** A block away from the boundary is handed out whole, unaligned, whatever its size. */
  lemma {:induction false} UnalignedAtLargest(ptr: nat, top: nat, have: nat, adjust: nat, b: int, p: int, size: int)
    requires 2 * top == WORD_LIMIT && ptr % 8 == 0 && 0 < ptr && 0 < have
    requires ptr + have <= top || (top < ptr && ptr + have <= WORD_LIMIT)
    requires Carved(have, Gap(ptr, top), adjust, b, p, size)
    ensures p == b + 2 && (have < adjust ==> size == have) && !IsMultiple(ptr, top)
  {
    GapAtLargest(ptr, top);
    TopRounding(ptr, top);
  }
}

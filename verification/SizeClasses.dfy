/** The size-class arithmetic of the two-level segregated fit allocator: request
    adjustment, the two mappings from sizes to (first-level, second-level)
    indices, and why a block found at or above the search class always fits. */
module SizeClasses {

  const ALIGN_SIZE := 8
  const SL_INDEX_COUNT := 32
  const SL_INDEX_COUNT_LOG2 := 5
  const FL_INDEX_SHIFT := 8
  const FL_INDEX_COUNT := 25
  const SMALL_BLOCK_SIZE := 256
  const BLOCK_SIZE_MIN := 24
  const BLOCK_SIZE_MAX := 0x1_0000_0000
  const BLOCK_HEADER_SIZE := 32
  const WORD_LIMIT := 0x1_0000_0000_0000_0000

  // ----- shifts -----

  /** `x << k`, without a width limit. */
  function Shl(x: nat, k: nat): (r: nat)
    ensures x <= r
  {
    if k == 0 then x else 2 * Shl(x, k - 1)
  }

  /** `x >> k`. */
  function Shr(x: nat, k: nat): nat {
    if k == 0 then x else Shr(x / 2, k - 1)
  }

  function Pow2(k: nat): nat { Shl(1, k) }

  lemma ShlMonotone(a: nat, b: nat, k: nat)
    requires a < b
    ensures Shl(a, k) + Pow2(k) <= Shl(b, k)
  {
  }

  lemma {:induction false} ShlNext(a: nat, k: nat)
    ensures Shl(a + 1, k) == Shl(a, k) + Pow2(k)
  {
    if k != 0 {
      ShlNext(a, k - 1);
    }
  }

  /** Shifting in two steps. */
  lemma {:induction false} ShlAdds(x: nat, j: nat, k: nat)
    ensures Shl(x, j + k) == Shl(Shl(x, j), k)
  {
    if k != 0 {
      ShlAdds(x, j, k - 1);
    }
  }

  /** A right shift names the multiple of 2^k just below its argument. */
  lemma {:induction false} ShrBounds(x: nat, k: nat)
    ensures Shl(Shr(x, k), k) <= x < Shl(Shr(x, k) + 1, k)
  {
    if k != 0 {
      ShrBounds(x / 2, k - 1);
    }
  }

  lemma {:induction false} Pow2Grows(j: nat, k: nat)
    requires j < k
    ensures 2 * Pow2(j) <= Pow2(k)
    decreases k
  {
    if j + 1 < k {
      Pow2Grows(j, k - 1);
    }
  }

  lemma {:induction false} SmallPowers()
    ensures Pow2(5) == 32 && Pow2(8) == 256 && Pow2(32) == BLOCK_SIZE_MAX
  {
    assert Pow2(4) == 16;
    ShlAdds(1, 4, 4);
    assert Pow2(8) == 256;
    ShlAdds(1, 8, 8);
    ShlAdds(256, 4, 4);
    assert Pow2(16) == 65536;
    ShlAdds(1, 16, 16);
    ShlAdds(65536, 8, 8);
    ShlAdds(65536, 4, 4);
    ShlAdds(0x100_0000, 4, 4);
  }

  /** Position of the highest set bit of `x`. */
  function Fls(x: nat): nat
    requires x > 0
  {
    if x == 1 then 0 else 1 + Fls(x / 2)
  }

  lemma {:induction false} FlsRange(x: nat)
    requires x > 0
    ensures Pow2(Fls(x)) <= x < Pow2(Fls(x) + 1)
  {
    if x != 1 {
      FlsRange(x / 2);
    }
  }

  lemma {:induction false} FlsUnique(x: nat, k: nat)
    requires Pow2(k) <= x < Pow2(k + 1)
    ensures Fls(x) == k
  {
    FlsRange(x);
    if Fls(x) < k {
      Pow2Grows(Fls(x), k);
    } else if Fls(x) > k {
      Pow2Grows(k, Fls(x));
    }
  }

  // ----- request adjustment -----

  /** `s & ~(a - 1)` for a power of two `a`: the largest multiple of `a` up to `s`. */
  function RoundDown(s: nat, a: nat): nat
    requires a > 0
  {
    if s < a then 0 else a + RoundDown(s - a, a)
  }

  lemma {:induction false} RoundDownBounds(s: nat, a: nat)
    requires a > 0
    ensures RoundDown(s, a) <= s < RoundDown(s, a) + a
    decreases s
  {
    if s >= a {
      RoundDownBounds(s - a, a);
    }
  }

  lemma {:induction false} Product(k: int, a: nat)
    ensures k >= 1 ==> k * a >= a
    ensures k <= -1 ==> k * a <= -(a as int)
  {
  }

  lemma {:induction false} ModUnique(s: nat, a: nat, q: nat, r: nat)
    requires a > 0 && s == q * a + r && r < a
    ensures s % a == r
  {
    var d, e := s / a, s % a;
    assert (d - q) * a == r - e;
    Product(d - q, a);
  }

  lemma {:induction false} RoundDownMod(s: nat, a: nat)
    requires a > 0
    ensures RoundDown(s, a) == s - s % a
    decreases s
  {
    if s >= a {
      RoundDownMod(s - a, a);
      ModUnique(s, a, (s - a) / a + 1, (s - a) % a);
    } else {
      ModUnique(s, a, 0, s);
    }
  }

  /** Reduction modulo 2^64 of a sum or difference of two 64-bit words. */
  function Wrap(x: int): (r: nat)
    requires -WORD_LIMIT <= x < 2 * WORD_LIMIT
    ensures r < WORD_LIMIT
  {
    if x < 0 then x + WORD_LIMIT else if x < WORD_LIMIT then x else x - WORD_LIMIT
  }

  /** Rounding up to a power of two in 64-bit arithmetic: the sum wraps. */
  function AlignUp(x: nat, align: nat): nat
    requires x < WORD_LIMIT && 0 < align < WORD_LIMIT
  {
    RoundDown(Wrap(x + (align - 1)), align)
  }

  function Max(a: nat, b: nat): nat { if a > b then a else b }

  function AdjustRequestSize(size: nat, align: nat): (adjust: nat)
    requires size < WORD_LIMIT && 0 < align < WORD_LIMIT
    ensures adjust == 0 || BLOCK_SIZE_MIN <= adjust < BLOCK_SIZE_MAX
  {
    if size == 0 then 0
    else
      var aligned := AlignUp(size, align);
      if aligned < BLOCK_SIZE_MAX then Max(aligned, BLOCK_SIZE_MIN) else 0
  }

  /** A word-aligned adjustment covers the request exactly when the rounding does
      not wrap: the seven largest sizes are adjusted to 24 bytes. */
  lemma {:induction false} AdjustCovers(size: nat)
    requires size < WORD_LIMIT
    ensures var adjust := AdjustRequestSize(size, ALIGN_SIZE);
            && adjust % 8 == 0
            && (adjust == 0 <==> size == 0 || BLOCK_SIZE_MAX - 8 < size <= WORD_LIMIT - 8)
            && (adjust != 0 ==> (size <= adjust <==> size <= BLOCK_SIZE_MAX - 8))
            && (adjust != 0 ==> adjust == BLOCK_SIZE_MIN || adjust < size + 8)
            && (WORD_LIMIT - 8 < size ==> adjust == BLOCK_SIZE_MIN)
  {
    RoundDownMod(Wrap(size + 7), 8);
  }

  function Min(a: nat, b: nat): nat { if a < b then a else b }

  /** When `realloc` has to move, the copy is the whole old block, in whole words. */
  lemma {:induction false} CopyIsWholeBlock(current: nat, size: nat)
    requires size < WORD_LIMIT && current % 8 == 0 && BLOCK_SIZE_MIN <= current < AdjustRequestSize(size, ALIGN_SIZE)
    ensures Min(current, size) == current
  {
    RoundDownMod(Wrap(size + 7), 8);
  }

  // ----- the two mappings -----

  /** `n ^ 32` for six-bit values. */
  function FlipBit5(n: nat): nat
    requires n < 64
  {
    if n < 32 then n + 32 else n - 32
  }

  datatype Class = Class(fl: nat, sl: nat)

  /** What the mappings rely on: sizes of 256 or more have their top bit at 8 or above. */
  lemma {:induction false} FlsBig(size: nat)
    requires size >= SMALL_BLOCK_SIZE
    ensures var k := Fls(size);
            k >= 8 && Pow2(k) == Shl(32, k - 5) && Pow2(k + 1) == Shl(64, k - 5)
  {
    SmallPowers();
    FlsRange(size);
    var k := Fls(size);
    if k < 8 {
      if k + 1 < 8 { Pow2Grows(k + 1, 8); }
    }
    ShlAdds(1, 5, k - 5);
    ShlAdds(1, 6, k - 5);
  }

  lemma {:induction false} ShlReflects(a: nat, b: nat, k: nat)
    requires Shl(a, k) < Shl(b, k)
    ensures a < b
  {
    if b < a {
      ShlMonotone(b, a, k);
    }
  }

  /** The second-level shift of a large size lies in [32, 64). */
  lemma {:induction false} ShiftRange(size: nat)
    requires size >= SMALL_BLOCK_SIZE
    ensures Fls(size) >= 8 && 32 <= Shr(size, Fls(size) - 5) < 64
  {
    FlsBig(size);
    FlsRange(size);
    var k := Fls(size);
    var q := Shr(size, k - 5);
    ShrBounds(size, k - 5);
    ShlReflects(32, q + 1, k - 5);
    ShlReflects(q, 64, k - 5);
  }

  function MappingInsert(size: nat): (c: Class)
  {
    if size < SMALL_BLOCK_SIZE then
      Class(0, size / (SMALL_BLOCK_SIZE / SL_INDEX_COUNT))
    else
      var fl := Fls(size);
      ShiftRange(size);
      Class(fl - (FL_INDEX_SHIFT - 1), FlipBit5(Shr(size, fl - SL_INDEX_COUNT_LOG2)))
  }

  /** The size `mapping_search` looks up. */
  function RoundUp(size: nat): (r: nat)
    ensures size <= r
  {
    if size < SMALL_BLOCK_SIZE then size
    else
      FlsBig(size);
      size + Pow2(Fls(size) - SL_INDEX_COUNT_LOG2) - 1
  }

  function MappingSearch(size: nat): Class {
    MappingInsert(RoundUp(size))
  }

  /** Classes in list order. */
  predicate Below(a: Class, b: Class) {
    a.fl < b.fl || (a.fl == b.fl && a.sl < b.sl)
  }

  /** The smallest size of a class: row `fl` splits [2^(fl+7), 2^(fl+8)) in 32. */
  function Floor(c: Class): nat {
    if c.fl == 0 then 8 * c.sl else Shl(32 + c.sl, c.fl + 2)
  }

  /** The first size past a class. */
  function Ceiling(c: Class): nat {
    if c.fl == 0 then 8 * c.sl + 8 else Shl(33 + c.sl, c.fl + 2)
  }

  /** So flipping bit 5 subtracts 32. */
  lemma {:induction false} FlipSubtracts(size: nat)
    requires size >= SMALL_BLOCK_SIZE
    requires Fls(size) >= 8 && 32 <= Shr(size, Fls(size) - 5) < 64
    ensures MappingInsert(size) == Class(Fls(size) - 7, Shr(size, Fls(size) - 5) - 32)
  {
  }

  lemma {:induction false} LargeFloor(size: nat, k: nat, q: nat)
    requires k >= 8 && q >= 32 && Shl(q, k - 5) <= size < Shl(q + 1, k - 5)
    ensures Floor(Class(k - 7, q - 32)) <= size < Ceiling(Class(k - 7, q - 32))
  {
  }

  lemma {:induction false} LargeRange(size: nat)
    requires size >= SMALL_BLOCK_SIZE
    requires Fls(size) >= 8 && 32 <= Shr(size, Fls(size) - 5) < 64
    ensures var c := MappingInsert(size);
            c.sl < SL_INDEX_COUNT && Floor(c) <= size < Ceiling(c)
  {
    FlipSubtracts(size);
    ShrBounds(size, Fls(size) - 5);
    LargeFloor(size, Fls(size), Shr(size, Fls(size) - 5));
  }

  /** The mapping puts every size in the class whose half-open range holds it. */
  lemma {:induction false} MappingInsertRange(size: nat)
    ensures var c := MappingInsert(size);
            c.sl < SL_INDEX_COUNT && Floor(c) <= size < Ceiling(c)
  {
    if size >= SMALL_BLOCK_SIZE {
      ShiftRange(size);
      LargeRange(size);
    }
  }

  lemma {:induction false} RowEnd(a: Class)
    requires a.sl < SL_INDEX_COUNT
    ensures Ceiling(a) <= Pow2(a.fl + 8)
  {
    SmallPowers();
    if a.fl != 0 {
      ShlAdds(1, 6, a.fl + 2);
      if 33 + a.sl < 64 { ShlMonotone(33 + a.sl, 64, a.fl + 2); }
    }
  }

  lemma {:induction false} RowStart(b: Class)
    requires b.fl != 0
    ensures Pow2(b.fl + 7) <= Floor(b)
  {
    ShlAdds(1, 5, b.fl + 2);
    if b.sl != 0 { ShlMonotone(32, 32 + b.sl, b.fl + 2); }
  }

  /** The end of a class is at most the floor of any later one. */
  lemma {:induction false} FloorOrdered(a: Class, b: Class)
    requires a.sl < SL_INDEX_COUNT && Below(a, b)
    ensures Ceiling(a) <= Floor(b)
  {
    if a.fl == b.fl {
      if a.fl != 0 && 33 + a.sl < 32 + b.sl {
        ShlMonotone(33 + a.sl, 32 + b.sl, a.fl + 2);
      }
    } else {
      RowEnd(a);
      RowStart(b);
      if a.fl + 8 < b.fl + 7 {
        Pow2Grows(a.fl + 8, b.fl + 7);
      }
    }
  }

  /** Exactness: a size maps to a class iff it lies in that class's range. */
  lemma {:induction false} MappingInsertExact(size: nat, c: Class)
    requires c.sl < SL_INDEX_COUNT
    ensures MappingInsert(size) == c <==> Floor(c) <= size < Ceiling(c)
  {
    MappingInsertRange(size);
    var d := MappingInsert(size);
    if Below(d, c) {
      FloorOrdered(d, c);
    } else if Below(c, d) {
      FloorOrdered(c, d);
    }
  }

  lemma {:induction false} MappingRow(size: nat)
    requires SMALL_BLOCK_SIZE <= size
    ensures Fls(size) >= 8 && MappingInsert(size).fl == Fls(size) - 7
  {
    FlsBig(size);
  }

  lemma {:induction false} RoundedFls(size: nat, k: nat, r: nat)
    requires SMALL_BLOCK_SIZE <= size && k == Fls(size) && k >= 8 && r == size + Pow2(k - 5) - 1
    ensures r < Pow2(k + 1) ==> Fls(r) == k
    ensures r >= Pow2(k + 1) ==> Fls(r) == k + 1
  {
    FlsRange(size);
    Pow2Grows(k - 5, k);
    if r < Pow2(k + 1) {
      FlsUnique(r, k);
    } else {
      FlsUnique(r, k + 1);
    }
  }

  lemma {:induction false} RoundedFloor(size: nat, k: nat, r: nat, c: Class)
    requires 8 <= k && size < Pow2(k + 1) && r == size + Pow2(k - 5) - 1 && 0 < r < Ceiling(c)
    requires r < Pow2(k + 1) ==> c.fl == k - 7
    requires r >= Pow2(k + 1) ==> c.fl == k - 6
    ensures size <= Floor(c)
  {
    if r < Pow2(k + 1) {
      ShlNext(32 + c.sl, k - 5);
    } else {
      RowStart(c);
    }
  }

  lemma {:induction false} RoundedFloorOf(size: nat, k: nat, r: nat, c: Class)
    requires SMALL_BLOCK_SIZE <= size && k == Fls(size) && k >= 8 && r == size + Pow2(k - 5) - 1
    requires r < Ceiling(c) && c.fl == Fls(r) - 7
    ensures size <= Floor(c)
  {
    FlsRange(size);
    RoundedFls(size, k, r);
    RoundedFloor(size, k, r, c);
  }

  lemma {:induction false} SearchFloorSmall(size: nat)
    requires size < SMALL_BLOCK_SIZE && size % 8 == 0
    ensures Floor(MappingInsert(size)) == size
  {
  }

  lemma {:induction false} SearchFloorLarge(size: nat, r: nat, c: Class)
    requires size >= SMALL_BLOCK_SIZE && r == RoundUp(size) && r < Ceiling(c) && c.fl == Fls(r) - 7
    ensures size <= Floor(c)
  {
    FlsBig(size);
    RoundedFloorOf(size, Fls(size), r, c);
  }

  /** The class found by rounding up starts no lower than the request. */
  lemma {:induction false} SearchFloor(size: nat, r: nat, c: Class)
    requires size % 8 == 0 && r == RoundUp(size) && c == MappingInsert(r)
    ensures size <= Floor(c) <= r
  {
    MappingInsertRange(r);
    if size < SMALL_BLOCK_SIZE {
      SearchFloorSmall(size);
    } else {
      MappingRow(r);
      SearchFloorLarge(size, r, c);
    }
  }

  /** Rows are as wide as their exponent says. */
  lemma {:induction false} ClassWidth(d: Class)
    requires d.sl < SL_INDEX_COUNT
    ensures Floor(d) < Ceiling(d) && (d.fl != 0 ==> Ceiling(d) == Floor(d) + Pow2(d.fl + 2))
    ensures d.fl != 0 ==> 32 * Pow2(d.fl + 2) <= Floor(d)
  {
    if d.fl != 0 {
      ShlNext(32 + d.sl, d.fl + 2);
      ShlAdds(1, 5, d.fl + 2);
      ThirtyTwo(d.fl + 2);
      if d.sl != 0 { ShlMonotone(32, 32 + d.sl, d.fl + 2); }
    }
  }

  lemma {:induction false} ThirtyTwo(k: nat)
    ensures Shl(32, k) == 32 * Pow2(k)
  {
    if k > 0 { ThirtyTwo(k - 1); }
  }

  /** A class that starts at or above a large request ends past the size looked up. */
  lemma {:induction false} PastLookup(request: nat, d: Class)
    requires request >= SMALL_BLOCK_SIZE && d.sl < SL_INDEX_COUNT && request <= Floor(d)
    ensures RoundUp(request) < Ceiling(d)
  {
    FlsBig(request);
    FlsRange(request);
    RowEnd(d);
    ClassWidth(d);
    RowAbove(Fls(request), d.fl, Floor(d));
    StepAbove(Fls(request) - 5, d.fl + 2);
  }

  lemma {:induction false} RowAbove(k: nat, fl: nat, floor: nat)
    requires Pow2(k) <= floor < Pow2(fl + 8)
    ensures k <= fl + 7
  {
    if fl + 8 < k { Pow2Grows(fl + 8, k); }
  }

  lemma {:induction false} StepAbove(j: nat, k: nat)
    requires j <= k
    ensures Pow2(j) <= Pow2(k)
  {
    if j < k { Pow2Grows(j, k); }
  }

  /** The search class is the lowest one all of whose blocks hold the request. */
  lemma {:induction false} SearchExact(request: nat, d: Class)
    requires request % 8 == 0 && d.sl < SL_INDEX_COUNT
    ensures Below(d, MappingSearch(request)) <==> Floor(d) < request
  {
    var r, c := RoundUp(request), MappingSearch(request);
    SearchFloor(request, r, c);
    MappingInsertRange(r);
    if Below(d, c) {
      LowerClass(request, d, c, r);
    } else if Below(c, d) {
      ClassWidth(c);
      FloorOrdered(c, d);
    }
  }

  lemma {:induction false} LowerClass(request: nat, d: Class, c: Class, r: nat)
    requires request % 8 == 0 && d.sl < SL_INDEX_COUNT && r == RoundUp(request) && c == MappingInsert(r)
    requires Below(d, c) && Floor(c) <= r
    ensures Floor(d) < request
  {
    FloorOrdered(d, c);
    ClassWidth(d);
    if request < SMALL_BLOCK_SIZE {
      SearchFloorSmall(request);
    } else if request <= Floor(d) {
      PastLookup(request, d);
    }
  }

  /** A block of a class that may be too small for the request is less than a 32nd
      larger than it. */
  lemma {:induction false} CloseFit(request: nat, block: nat)
    requires request % 8 == 0 && block % 8 == 0 && Floor(MappingInsert(block)) < request
    ensures 32 * block < 33 * request
  {
    MappingInsertRange(block);
    ClassWidth(MappingInsert(block));
  }

  /** Good fit. A block whose class is not below the search class holds the
      request; a block whose class is below it is smaller than the rounded-up
      request. The search class separates the two exactly at its floor. */
  lemma {:induction false} GoodFit(request: nat, block: nat)
    requires request % 8 == 0
    ensures !Below(MappingInsert(block), MappingSearch(request)) ==> request <= block
    ensures Below(MappingInsert(block), MappingSearch(request)) <==> block < Floor(MappingSearch(request))
    ensures Below(MappingInsert(block), MappingSearch(request)) ==> block < RoundUp(request)
  {
    SearchFloor(request, RoundUp(request), MappingSearch(request));
    MappingInsertRange(block);
    MappingInsertRange(RoundUp(request));
    var c, d := MappingInsert(block), MappingSearch(request);
    if Below(c, d) {
      FloorOrdered(c, d);
    } else if Below(d, c) {
      FloorOrdered(d, c);
    }
  }

  lemma {:induction false} FlsBounded(size: nat, t: nat)
    requires 0 < size <= Pow2(t)
    ensures Fls(size) <= t && (Fls(size) == t <==> size == Pow2(t))
  {
    FlsRange(size);
    if Fls(size) > t {
      Pow2Grows(t, Fls(size));
    } else if Fls(size) + 1 < t {
      Pow2Grows(Fls(size) + 1, t);
    }
  }

  /** Every class a block can have is inside the 25 x 32 table, except that the
      pool check also admits the one size 2^32, whose row is past the end. */
  lemma {:induction false} ClassInTable(size: nat)
    requires size <= BLOCK_SIZE_MAX
    ensures MappingInsert(size).sl < SL_INDEX_COUNT
    ensures MappingInsert(size).fl < FL_INDEX_COUNT <==> size != BLOCK_SIZE_MAX
    ensures size == BLOCK_SIZE_MAX ==> MappingInsert(size).fl == FL_INDEX_COUNT
  {
    MappingInsertRange(size);
    if size >= SMALL_BLOCK_SIZE {
      SmallPowers();
      FlsBounded(size, 32);
      MappingRow(size);
    }
  }
}

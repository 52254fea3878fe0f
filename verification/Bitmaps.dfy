/** The two bitmap levels over the free-list table. A 32-bit word is the sequence
    of its bits, bit 0 first. */
module Bitmaps {
  import opened SizeClasses
  import opened FreeLists

  type Word32 = w: seq<bool> | |w| == 32 witness seq(32, _ => false)

  const ZERO: Word32 := seq(32, _ => false)

  predicate NonZero(w: Word32) {
    exists i :: 0 <= i < 32 && w[i]
  }

  /** `w & (~0U << k)`. */
  function MaskFrom(w: Word32, k: nat): (r: Word32)
    ensures forall i :: 0 <= i < 32 ==> (r[i] <==> k <= i && w[i])
  {
    seq(32, i requires 0 <= i < 32 => k <= i && w[i])
  }

  /** Position of the lowest set bit at or above `i`. */
  function FfsFrom(w: Word32, i: nat): (k: nat)
    requires i <= 32 && exists j :: i <= j < 32 && w[j]
    ensures i <= k < 32 && w[k] && forall j :: i <= j < k ==> !w[j]
    decreases 32 - i
  {
    if w[i] then i else FfsFrom(w, i + 1)
  }

  function Ffs(w: Word32): (k: nat)
    requires NonZero(w)
    ensures k < 32 && w[k] && forall j :: 0 <= j < k ==> !w[j]
  {
    FfsFrom(w, 0)
  }

  /** Each second-level bit says whether its list is non-empty, each first-level
      bit whether its row of second-level bits is. */
  ghost predicate BitmapsOk(fl: Word32, sl: seq<Word32>, heads: seq<seq<int>>) {
    && Table(heads) && |sl| == FL_INDEX_COUNT
    && (forall c :: InTable(c) ==> (sl[c.fl][c.sl] <==> Head(heads, c) != NULL_BLOCK))
    && (forall f :: 0 <= f < FL_INDEX_COUNT ==> (fl[f] <==> NonZero(sl[f])))
    && (forall f :: FL_INDEX_COUNT <= f < 32 ==> !fl[f])
  }

  lemma {:induction false} SetBits(fl: Word32, sl: seq<Word32>, heads: seq<seq<int>>, c: Class, b: int)
    requires BitmapsOk(fl, sl, heads) && InTable(c) && b != NULL_BLOCK
    ensures BitmapsOk(fl[c.fl := true], sl[c.fl := sl[c.fl][c.sl := true]], SetHead(heads, c, b))
  {
    var sl' := sl[c.fl := sl[c.fl][c.sl := true]];
    assert sl'[c.fl][c.sl];
  }

  lemma {:induction false} ClearBits(fl: Word32, sl: seq<Word32>, heads: seq<seq<int>>, c: Class, row: Word32)
    requires BitmapsOk(fl, sl, heads) && InTable(c) && row == sl[c.fl][c.sl := false]
    ensures BitmapsOk(if NonZero(row) then fl else fl[c.fl := false], sl[c.fl := row], SetHead(heads, c, NULL_BLOCK))
  {
  }

  lemma {:induction false} KeepBits(fl: Word32, sl: seq<Word32>, heads: seq<seq<int>>, c: Class, b: int)
    requires BitmapsOk(fl, sl, heads) && InTable(c) && b != NULL_BLOCK && Head(heads, c) != NULL_BLOCK
    ensures BitmapsOk(fl, sl, SetHead(heads, c, b))
  {
  }

  // ----- searching the bitmaps -----

  /** `d` is the first class at or above `c` whose list is not empty. */
  ghost predicate FirstFrom(heads: seq<seq<int>>, c: Class, d: Class)
    requires Table(heads)
  {
    && InTable(d) && !Below(d, c) && Head(heads, d) != NULL_BLOCK
    && forall e :: InTable(e) && !Below(e, c) && Below(e, d) ==> Head(heads, e) == NULL_BLOCK
  }

  lemma {:induction false} NoneFrom(fl: Word32, sl: seq<Word32>, heads: seq<seq<int>>, c: Class)
    requires BitmapsOk(fl, sl, heads) && InTable(c)
    requires !NonZero(MaskFrom(sl[c.fl], c.sl)) && !NonZero(MaskFrom(fl, c.fl + 1))
    ensures forall e :: InTable(e) && !Below(e, c) ==> Head(heads, e) == NULL_BLOCK
  {
    forall e | InTable(e) && !Below(e, c)
      ensures Head(heads, e) == NULL_BLOCK
    {
      RowEmpty(fl, sl, c, e);
    }
  }

  /** A set bit past `c` shows in one of the two masks. */
  lemma {:induction false} RowEmpty(fl: Word32, sl: seq<Word32>, c: Class, e: Class)
    requires |sl| == FL_INDEX_COUNT && InTable(c) && InTable(e) && !Below(e, c)
    requires forall f :: 0 <= f < FL_INDEX_COUNT ==> (fl[f] <==> NonZero(sl[f]))
    ensures sl[e.fl][e.sl] ==> MaskFrom(sl[c.fl], c.sl)[e.sl] || MaskFrom(fl, c.fl + 1)[e.fl]
    ensures sl[e.fl][e.sl] && e.fl == c.fl ==> MaskFrom(sl[c.fl], c.sl)[e.sl]
    ensures sl[e.fl][e.sl] && e.fl != c.fl ==> MaskFrom(fl, c.fl + 1)[e.fl]
  {
  }

  lemma {:induction false} FirstInRow(fl: Word32, sl: seq<Word32>, heads: seq<seq<int>>, c: Class)
    requires BitmapsOk(fl, sl, heads) && InTable(c) && NonZero(MaskFrom(sl[c.fl], c.sl))
    ensures FirstFrom(heads, c, Class(c.fl, Ffs(MaskFrom(sl[c.fl], c.sl))))
  {
    var d := Class(c.fl, Ffs(MaskFrom(sl[c.fl], c.sl)));
    forall e | InTable(e) && !Below(e, c) && Below(e, d)
      ensures Head(heads, e) == NULL_BLOCK
    {
      RowEmpty(fl, sl, c, e);
    }
  }

  lemma {:induction false} FirstInLaterRow(fl: Word32, sl: seq<Word32>, heads: seq<seq<int>>, c: Class, f: nat)
    requires BitmapsOk(fl, sl, heads) && InTable(c) && !NonZero(MaskFrom(sl[c.fl], c.sl))
    requires NonZero(MaskFrom(fl, c.fl + 1)) && f == Ffs(MaskFrom(fl, c.fl + 1))
    ensures f < FL_INDEX_COUNT && NonZero(sl[f]) && FirstFrom(heads, c, Class(f, Ffs(sl[f])))
  {
    assert fl[f];
    var d := Class(f, Ffs(sl[f]));
    forall e | InTable(e) && !Below(e, c) && Below(e, d)
      ensures Head(heads, e) == NULL_BLOCK
    {
      RowEmpty(fl, sl, c, e);
    }
  }

  /** The freshly constructed control structure: all lists empty, all bits clear. */
  lemma {:induction false} EmptyTable(m: seq<int>, heads: seq<seq<int>>, sl: seq<Word32>)
    requires Table(heads) && |sl| == FL_INDEX_COUNT
    requires forall c :: InTable(c) ==> Head(heads, c) == NULL_BLOCK
    requires forall f :: 0 <= f < FL_INDEX_COUNT ==> sl[f] == ZERO
    ensures Linked(m, map[], heads) && BitmapsOk(ZERO, sl, heads)
  {
    forall c | InTable(c)
      ensures HeadOk(m, map[], heads, c)
    {
    }
  }
}

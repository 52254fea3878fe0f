/** What the graphic rendition codes mean: they choose an ink and a paper, and reverse
    video only shows them the other way round. */
module Rendering {
  import opened Pixels

  type Word32 = x: int | 0 <= x < 0x1_0000_0000

  /** No colour chosen. */
  const NO_COLOUR := -1

  /** Eight colours and their bright forms, the other 240 of the 256-colour table, and
      the defaults; a transparent background is the plain default. */
  datatype Palette = Palette(ansi: seq<int>, bright: seq<int>, others: seq<int>, fg: int, fgBright: int, bgBright: int)

  predicate PaletteOk(p: Palette) { |p.ansi| == |p.bright| == 8 && |p.others| == 240 }

  /** How characters are rendered: the part of the state that is saved and restored. */
  datatype Pen = Pen(bold: bool, bgBold: bool, reverse: bool, charset: nat, primary: int, bg: int)

  predicate ColourOk(k: int) { k == NO_COLOUR || 0 <= k < 8 }

  predicate PenOk(p: Pen) { p.charset <= 1 && ColourOk(p.primary) && ColourOk(p.bg) }

  const PLAIN_PEN := Pen(false, false, false, 0, NO_COLOUR, NO_COLOUR)

  datatype Look = Look(ink: int, paper: int)

  /** The two colours in effect, by what they are for. */
  function LookOf(p: Pen, fg: int, bg: int): Look { if p.reverse then Look(bg, fg) else Look(fg, bg) }

  function Colour(pal: Palette, k: int, bright: bool): int
    requires PaletteOk(pal)
  {
    if 0 <= k < 8 then if bright then pal.bright[k] else pal.ansi[k] else 0
  }

  /** The default for the front or the back of a character. */
  function DefaultColour(pal: Palette, front: bool, bright: bool): int {
    if front then if bright then pal.fgBright else pal.fg else if bright then pal.bgBright else TRANSPARENT
  }

  function Chosen(pal: Palette, k: int, front: bool, bright: bool): int
    requires PaletteOk(pal)
  {
    if k == NO_COLOUR then DefaultColour(pal, front, bright) else Colour(pal, k, bright)
  }

  datatype Rendition = Rendition(pen: Pen, look: Look)

  /** A code other than an extended colour. */
  function PlainCode(pal: Palette, r: Rendition, v: nat): Rendition
    requires PaletteOk(pal)
  {
    var p, l := r.pen, r.look;
    if v == 0 then Rendition(PLAIN_PEN.(charset := p.charset), Look(pal.fg, TRANSPARENT))
    else if v == 1 then Rendition(p.(bold := true), l.(ink := Chosen(pal, p.primary, !p.reverse, true)))
    else if v == 22 then Rendition(p.(bold := false), l.(ink := Chosen(pal, p.primary, !p.reverse, false)))
    else if v == 5 then Rendition(p.(bgBold := true), l.(paper := Chosen(pal, p.bg, p.reverse, true)))
    else if v == 25 then Rendition(p.(bgBold := false), l.(paper := Chosen(pal, p.bg, p.reverse, false)))
    else if v == 7 then Rendition(p.(reverse := true), l)
    else if v == 27 then Rendition(p.(reverse := false), l)
    else ColourCode(pal, r, v)
  }

  function ColourCode(pal: Palette, r: Rendition, v: nat): Rendition
    requires PaletteOk(pal)
  {
    var p, l := r.pen, r.look;
    if 30 <= v <= 37 then Rendition(p.(primary := v - 30), l.(ink := Colour(pal, v - 30, p.bold)))
    else if 90 <= v <= 97 then Rendition(p.(primary := v - 90), l.(ink := Colour(pal, v - 90, true)))
    else if v == 39 then Rendition(p.(primary := NO_COLOUR), l.(ink := DefaultColour(pal, true, p.bold)))
    else if 40 <= v <= 47 then Rendition(p.(bg := v - 40), l.(paper := Colour(pal, v - 40, p.bgBold)))
    else if 100 <= v <= 107 then Rendition(p.(bg := v - 100), l.(paper := Colour(pal, v - 100, true)))
    else if v == 49 then Rendition(p.(bg := NO_COLOUR), l.(paper := DefaultColour(pal, false, p.bgBold)))
    else r
  }

  predicate Extended(v: nat) { v == 38 || v == 48 }

  /** An extended colour goes to the foreground or background as displayed, whatever
      reverse video says. */
  function Display(r: Rendition, front: bool, colour: int): Rendition {
    r.(look := if front != r.pen.reverse then r.look.(ink := colour) else r.look.(paper := colour))
  }

  /** Bitwise or. */
  function BitOr(x: nat, y: nat): nat {
    if x == 0 && y == 0 then 0 else BitOr(x / 2, y / 2) * 2 + if x % 2 == 1 || y % 2 == 1 then 1 else 0
  }

  /** Three components or-ed into one word; larger ones spill over. */
  function Rgb(r: Word32, g: Word32, b: Word32): int {
    BitOr(BitOr(r * 0x1_0000 % 0x1_0000_0000, g * 0x100 % 0x1_0000_0000), b)
  }

  lemma {:induction false} OrNothing(x: nat)
    ensures BitOr(x, 0) == x
  {
    if x > 0 { OrNothing(x / 2); }
  }

  lemma {:induction false} OrHalves(x: nat, y: nat)
    ensures BitOr(x, y) == BitOr(x / 2, y / 2) * 2 + if x % 2 == 1 || y % 2 == 1 then 1 else 0
  {
    if x == 0 && y == 0 { OrNothing(0); }
  }

  function TwoTo(k: nat): (r: nat)
    ensures r > 0
  {
    if k == 0 then 1 else 2 * TwoTo(k - 1)
  }

  /** What lies below the last `k` bits is added. */
  lemma {:induction false} OrIsSum(x: nat, y: nat, k: nat)
    requires y < TwoTo(k)
    ensures x * TwoTo(k) >= 0 && BitOr(x * TwoTo(k), y) == x * TwoTo(k) + y
    decreases k
  {
    if k == 0 {
      OrNothing(x);
    } else {
      Doubled(x, TwoTo(k - 1));
      OrHalves(x * TwoTo(k), y);
      OrIsSum(x, y / 2, k - 1);
    }
  }

  lemma {:induction false} Doubled(x: nat, t: nat)
    ensures x * (2 * t) == 2 * (x * t) >= 0 && x * (2 * t) / 2 == x * t && x * (2 * t) % 2 == 0
  {
  }

  lemma {:induction false} Powers()
    ensures TwoTo(8) == 256 && TwoTo(16) == 65536
  {
    assert TwoTo(4) == 16;
    assert TwoTo(8) == 256;
    assert TwoTo(12) == 4096;
  }

  lemma {:induction false} OrBytes(r: nat, g: nat, b: nat)
    requires g < 256 && b < 256
    ensures BitOr(r * 65536, g * 256) == r * 65536 + g * 256 && BitOr((r * 256 + g) * 256, b) == (r * 256 + g) * 256 + b
  {
    Powers();
    OrIsSum(r, g * 256, 16);
    OrIsSum(r * 256 + g, b, 8);
  }

  /** Components below 256 make a colour of three bytes, red first. */
  lemma {:induction false} RgbBytes(r: Word32, g: Word32, b: Word32)
    requires r < 256 && g < 256 && b < 256
    ensures Rgb(r, g, b) == r * 65536 + g * 256 + b
  {
    NoSpill(r, g);
    var x, y := r * 0x1_0000 % 0x1_0000_0000, g * 0x100 % 0x1_0000_0000;
    OrBytes(r, g, b);
    assert BitOr(x, y) == (r * 256 + g) * 256;
  }

  lemma {:induction false} NoSpill(r: nat, g: nat)
    requires r < 256 && g < 256
    ensures r * 0x1_0000 % 0x1_0000_0000 == r * 65536 && g * 0x100 % 0x1_0000_0000 == g * 256
  {
  }

  // ----- several codes -----

  /** How many parameters an extended colour takes at `i`, or none if they run out. */
  function ExtendedLength(vals: seq<Word32>, i: nat): nat
    requires i < |vals|
  {
    if i + 1 >= |vals| then 0
    else if vals[i + 1] == 2 then if i + 4 >= |vals| then 0 else 5
    else if vals[i + 1] == 5 then if i + 2 >= |vals| then 0 else 3
    else 2
  }

  function ExtendedCode(pal: Palette, convert: int -> int, r: Rendition, vals: seq<Word32>, i: nat): Rendition
    requires PaletteOk(pal) && i < |vals| && ExtendedLength(vals, i) > 0
  {
    var front := vals[i] == 38;
    if vals[i + 1] == 2 then Display(r, front, convert(Rgb(vals[i + 2], vals[i + 3], vals[i + 4])))
    else if vals[i + 1] == 5 then
      var k := vals[i + 2];
      if k < 8 then Display(r, front, Colour(pal, k, false))
      else if k < 16 then Display(r, front, Colour(pal, k - 8, true))
      else if k < 256 then Display(r, front, convert(pal.others[k - 16]))
      else r
    else r
  }

  /** The codes from `i` on. */
  function Codes(pal: Palette, convert: int -> int, r: Rendition, vals: seq<Word32>, i: nat): Rendition
    requires PaletteOk(pal)
    decreases |vals| - i
  {
    if i >= |vals| then r
    else if !Extended(vals[i]) then Codes(pal, convert, PlainCode(pal, r, vals[i]), vals, i + 1)
    else if ExtendedLength(vals, i) == 0 then r
    else Codes(pal, convert, ExtendedCode(pal, convert, r, vals, i), vals, i + ExtendedLength(vals, i))
  }

  /** One step of the codes: where it leads, or that the parameters have run out. */
  ghost predicate CodeStep(pal: Palette, convert: int -> int, r: Rendition, r': Rendition, vals: seq<Word32>, i: nat,
                           next: nat, stop: bool)
    requires PaletteOk(pal) && i < |vals|
  {
    if !Extended(vals[i]) then !stop && next == i && r' == PlainCode(pal, r, vals[i])
    else if ExtendedLength(vals, i) == 0 then stop && r' == r
    else !stop && next + 1 == i + ExtendedLength(vals, i) && r' == ExtendedCode(pal, convert, r, vals, i)
  }

  lemma {:induction false} CodesMore(pal: Palette, convert: int -> int, r: Rendition, r': Rendition, vals: seq<Word32>,
                                     i: nat, next: nat, stop: bool)
    requires PaletteOk(pal) && i < |vals| && CodeStep(pal, convert, r, r', vals, i, next, stop)
    ensures Codes(pal, convert, r, vals, i) == if stop then r' else Codes(pal, convert, r', vals, next + 1)
  {
  }

  /** A single step that uses up the codes. */
  lemma {:induction false} CodesLast(pal: Palette, convert: int -> int, r: Rendition, r': Rendition, vals: seq<Word32>,
                                     next: nat, stop: bool)
    requires PaletteOk(pal) && 0 < |vals| <= next + 1 && CodeStep(pal, convert, r, r', vals, 0, next, stop)
    ensures Codes(pal, convert, r, vals, 0) == r'
  {
    CodesMore(pal, convert, r, r', vals, 0, next, stop);
  }

  /** Codes act one after the other. */
  lemma {:induction false} CodesInOrder(pal: Palette, convert: int -> int, r: Rendition, ps: seq<Word32>,
                                        qs: seq<Word32>, i: nat)
    requires PaletteOk(pal) && i <= |ps| && forall k :: 0 <= k < |ps| ==> !Extended(ps[k])
    ensures Codes(pal, convert, r, ps + qs, i) == Codes(pal, convert, Codes(pal, convert, r, ps, i), qs, 0)
    decreases |ps| - i
  {
    if i < |ps| {
      CodesInOrder(pal, convert, PlainCode(pal, r, ps[i]), ps, qs, i + 1);
    } else {
      CodesFrom(pal, convert, r, ps, qs, 0);
    }
  }

  lemma {:induction false} CodesFrom(pal: Palette, convert: int -> int, r: Rendition, ps: seq<Word32>,
                                     qs: seq<Word32>, i: nat)
    requires PaletteOk(pal)
    ensures Codes(pal, convert, r, ps + qs, |ps| + i) == Codes(pal, convert, r, qs, i)
    decreases |qs| - i
  {
    if i < |qs| {
      var n := |ps| + i;
      assert (ps + qs)[n] == qs[i];
      if !Extended(qs[i]) {
        CodesFrom(pal, convert, PlainCode(pal, r, qs[i]), ps, qs, i + 1);
      } else if ExtendedLength(qs, i) > 0 {
        assert ExtendedLength(ps + qs, n) == ExtendedLength(qs, i);
        assert ExtendedCode(pal, convert, r, ps + qs, n) == ExtendedCode(pal, convert, r, qs, i);
        CodesFrom(pal, convert, ExtendedCode(pal, convert, r, qs, i), ps, qs, i + ExtendedLength(qs, i));
      }
    }
  }

  function Backwards(r: Rendition): Rendition { r.(pen := r.pen.(reverse := !r.pen.reverse)) }

  /** Ink and paper come out the same in reverse video, unless the code makes a default
      colour bold or plain: then the defaults of the other side are used. */
  lemma {:induction false} ReverseIndependent(pal: Palette, r: Rendition, v: nat)
    requires PaletteOk(pal) && PenOk(r.pen)
    ensures PlainCode(pal, Backwards(r), v).look == PlainCode(pal, r, v).look <==>
            !((v == 1 && r.pen.primary == NO_COLOUR && pal.fgBright != pal.bgBright)
              || (v == 5 && r.pen.bg == NO_COLOUR && pal.fgBright != pal.bgBright)
              || (v == 22 && r.pen.primary == NO_COLOUR && pal.fg != TRANSPARENT)
              || (v == 25 && r.pen.bg == NO_COLOUR && pal.fg != TRANSPARENT))
  {
  }

  /** What precedes a reset is forgotten. */
  lemma {:induction false} ResetForgets(pal: Palette, convert: int -> int, r: Rendition, r': Rendition,
                                        vals: seq<Word32>, i: nat)
    requires PaletteOk(pal) && i < |vals| && vals[i] == 0 && r.pen.charset == r'.pen.charset
    ensures Codes(pal, convert, r, vals, i) == Codes(pal, convert, r', vals, i)
  {
    assert PlainCode(pal, r, vals[i]) == PlainCode(pal, r', vals[i]);
  }

  /** Turning reverse video on and off again leaves everything as it was before, if it
      was off. */
  lemma {:induction false} ReverseOnOff(pal: Palette, r: Rendition)
    requires PaletteOk(pal)
    ensures PlainCode(pal, PlainCode(pal, r, 7), 27) == r <==> !r.pen.reverse
  {
  }
}

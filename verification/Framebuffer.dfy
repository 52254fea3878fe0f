/** Plotting: the picture on the screen is what the cells shown in it say. */
module Framebuffers {
  import opened Rows
  import opened Pixels

  function Get(p: seq<int>, i: int): int { if 0 <= i < |p| then p[i] else 0 }

  function Bit(font: seq<bool>, i: int): bool { 0 <= i < |font| && font[i] }

  /** What lies behind the text at a screen position. */
  function Paper(s: Surface, x: int, y: int): int {
    if s.hasCanvas then Get(s.canvas, Times(y, s.width) + x) else s.defaultBg
  }

  function Solid(colour: int, paper: int): int { if colour == TRANSPARENT then paper else colour }

  /** Where the font keeps dot (fx, fy) of a character. */
  function DotIndex(s: Surface, c: Cell, fx: int, fy: int): int {
    Times(c.c, Times(s.fontHeight, s.fontWidth)) + Times(fy, s.fontWidth) + fx
  }

  /** The font's dot for a position inside a glyph. */
  function Dot(s: Surface, c: Cell, gx: int, gy: int): bool
    requires s.scaleX > 0 && s.scaleY > 0
  {
    Bit(s.font, DotIndex(s, c, Quot(gx, s.scaleX), Quot(gy, s.scaleY)))
  }

  function Ink(s: Surface, c: Cell, gx: int, gy: int, paper: int): int
    requires s.scaleX > 0 && s.scaleY > 0
  {
    Solid(if Dot(s, c, gx, gy) then c.fg else c.bg, paper)
  }

  /** The colour of a text position whose cell shows `c`. */
  function InkAt(s: Surface, c: Cell, x: int, y: int): int
    requires Fits(s)
  {
    Ink(s, c, Rem(x - s.offsetX, s.glyphWidth), Rem(y - s.offsetY, s.glyphHeight), Paper(s, x, y))
  }

  function PixelOf(s: Surface, p: seq<int>, x: int, y: int): int { Get(p, PixelAt(s, x, y)) }

  /** Outside rectangle `r` nothing changed, and inside it `c` is drawn. */
  ghost predicate Drawn(s: Surface, c: Cell, r: Rect, before: seq<int>, after: seq<int>)
    requires Fits(s)
  {
    && |after| == |before|
    && (forall x, y {:trigger PixelOf(s, after, x, y)} :: OnScreen(s, x, y) ==>
          PixelOf(s, after, x, y) == if In(r, x, y) then InkAt(s, c, x, y) else PixelOf(s, before, x, y))
    && (forall p :: 0 <= p < |after| && !Visible(s, p) ==> after[p] == before[p])
  }

  lemma {:induction false} DrawnNothing(s: Surface, c: Cell, r: Rect, p: seq<int>)
    requires Fits(s) && (r.w == 0 || r.h == 0)
    ensures Drawn(s, c, r, p, p)
  {
  }

  lemma {:induction false} SetPixel(s: Surface, p: seq<int>, x: int, y: int, v: int)
    requires Fits(s) && OnScreen(s, x, y) && |p| >= Times(Lines(s), s.stride)
    ensures 0 <= PixelAt(s, x, y) < |p| && Visible(s, PixelAt(s, x, y))
    ensures forall x', y' {:trigger PixelOf(s, p[PixelAt(s, x, y) := v], x', y')} :: OnScreen(s, x', y') ==>
              PixelOf(s, p[PixelAt(s, x, y) := v], x', y') == if x' == x && y' == y then v else PixelOf(s, p, x', y')
  {
    PixelInRange(s, x, y);
    forall x', y' | OnScreen(s, x', y')
      ensures PixelOf(s, p[PixelAt(s, x, y) := v], x', y') == if x' == x && y' == y then v else PixelOf(s, p, x', y')
    {
      PixelInjective(s, x, y, x', y');
    }
  }

  /** One more pixel of a line. */
  lemma {:induction false} DrawnRight(s: Surface, c: Cell, r: Rect, before: seq<int>, p: seq<int>)
    requires Fits(s) && r.h == 1 && OnScreen(s, r.x + r.w, r.y) && |p| >= Times(Lines(s), s.stride)
    requires Drawn(s, c, r, before, p)
    ensures var x, y := r.x + r.w, r.y;
            0 <= PixelAt(s, x, y) < |p|
            && Drawn(s, c, Rect(r.x, r.y, r.w + 1, 1), before, p[PixelAt(s, x, y) := InkAt(s, c, x, y)])
  {
    SetPixel(s, p, r.x + r.w, r.y, InkAt(s, c, r.x + r.w, r.y));
  }

  /** One more line of a glyph. */
  lemma {:induction false} DrawnDown(s: Surface, c: Cell, r: Rect, before: seq<int>, p: seq<int>, after: seq<int>)
    requires Fits(s) && Drawn(s, c, r, before, p) && Drawn(s, c, Rect(r.x, r.y + r.h, r.w, 1), p, after)
    ensures Drawn(s, c, Rect(r.x, r.y, r.w, r.h + 1), before, after)
  {
    forall x, y | OnScreen(s, x, y)
      ensures PixelOf(s, after, x, y) == if In(Rect(r.x, r.y, r.w, r.h + 1), x, y) then InkAt(s, c, x, y)
              else PixelOf(s, before, x, y)
    {
      assert PixelOf(s, p, x, y) == if In(r, x, y) then InkAt(s, c, x, y) else PixelOf(s, before, x, y);
    }
  }

  // ----- the whole picture -----

  datatype Shown = Nothing | Text(cell: Cell)

  function CellIndex(s: Surface, x: int, y: int): int
    requires Fits(s)
  {
    Times(RowOf(s, y), s.cols) + ColOf(s, x)
  }

  function Colour(s: Surface, shown: seq<Shown>, x: int, y: int): int
    requires Fits(s)
  {
    if !InText(s, x, y) then Paper(s, x, y)
    else
      var i := CellIndex(s, x, y);
      if 0 <= i < |shown| && shown[i].Text? then InkAt(s, shown[i].cell, x, y) else Paper(s, x, y)
  }

  /** Every screen position has the colour its cell calls for. */
  ghost predicate Painted(s: Surface, shown: seq<Shown>, p: seq<int>)
    requires Fits(s)
  {
    forall x, y {:trigger PixelOf(s, p, x, y)} :: OnScreen(s, x, y) ==> PixelOf(s, p, x, y) == Colour(s, shown, x, y)
  }

  /** Drawing a cell's rectangle changes what that cell shows and nothing else. */
  lemma {:induction false} PlotPaints(s: Surface, shown: seq<Shown>, c: Cell, cx: nat, cy: nat, i: nat,
                                      before: seq<int>, after: seq<int>)
    requires Fits(s) && cx < s.cols && cy < s.rows && i == Times(cy, s.cols) + cx < |shown|
    requires Painted(s, shown, before) && Drawn(s, c, CellRect(s, cx, cy), before, after)
    ensures Painted(s, shown[i := Text(c)], after)
  {
    forall x, y | OnScreen(s, x, y)
      ensures PixelOf(s, after, x, y) == Colour(s, shown[i := Text(c)], x, y)
    {
      PlotPaintsAt(s, shown, c, cx, cy, i, before, after, x, y);
    }
  }

  lemma {:induction false} PlotPaintsAt(s: Surface, shown: seq<Shown>, c: Cell, cx: nat, cy: nat, i: nat,
                                        before: seq<int>, after: seq<int>, x: int, y: int)
    requires Fits(s) && cx < s.cols && cy < s.rows && i == Times(cy, s.cols) + cx < |shown| && OnScreen(s, x, y)
    requires PixelOf(s, before, x, y) == Colour(s, shown, x, y)
    requires PixelOf(s, after, x, y) == if In(CellRect(s, cx, cy), x, y) then InkAt(s, c, x, y)
             else PixelOf(s, before, x, y)
    ensures PixelOf(s, after, x, y) == Colour(s, shown[i := Text(c)], x, y)
  {
    if InText(s, x, y) {
      CellOfRect(s, cx, cy, x, y);
      IndexUnique(s.cols, ColOf(s, x), RowOf(s, y), cx, cy);
    } else if In(CellRect(s, cx, cy), x, y) {
      RectOnScreen(s, cx, cy, x, y);
      assert false;
    }
  }

  // ----- where the loops stand -----

  lemma {:induction false} DotInFont(s: Surface, c: Cell, fx: nat, fy: nat)
    requires Fits(s) && fx < s.fontWidth && fy < s.fontHeight
    ensures 0 <= DotIndex(s, c, fx, fy) < |s.font|
  {
    Ordered(fy, s.fontHeight, s.fontWidth);
    Ordered(c.c, 256, Times(s.fontHeight, s.fontWidth));
  }

  lemma {:induction false} GlyphColumn(s: Surface, fx: nat, i: nat)
    requires Fits(s) && fx < s.fontWidth && i < s.scaleX
    ensures 0 <= Times(fx, s.scaleX) + i < s.glyphWidth && Quot(Times(fx, s.scaleX) + i, s.scaleX) == fx
  {
    Unique(fx, s.scaleX, i);
    Ordered(fx, s.fontWidth, s.scaleX);
  }

  /** Position (gx, gy) inside a glyph, seen from the screen. */
  lemma {:induction false} GlyphPosition(s: Surface, cx: nat, cy: nat, gx: nat, gy: nat)
    requires Fits(s) && cx < s.cols && cy < s.rows && gx < s.glyphWidth && gy < s.glyphHeight
    ensures OnScreen(s, CellX(s, cx) + gx, CellY(s, cy) + gy)
    ensures Rem(CellX(s, cx) + gx - s.offsetX, s.glyphWidth) == gx
    ensures Rem(CellY(s, cy) + gy - s.offsetY, s.glyphHeight) == gy
  {
    RectOnScreen(s, cx, cy, CellX(s, cx) + gx, CellY(s, cy) + gy);
    Unique(cx, s.glyphWidth, gx);
    Unique(cy, s.glyphHeight, gy);
  }

  /** The colour the loops compute is the one the picture calls for. */
  lemma {:induction false} InkHere(s: Surface, c: Cell, cx: nat, cy: nat, fx: nat, i: nat, gx: nat, gy: nat, k: int)
    requires Fits(s) && cx < s.cols && cy < s.rows && fx < s.fontWidth && i < s.scaleX && gy < s.glyphHeight
    requires gx == Times(fx, s.scaleX) + i && k == DotIndex(s, c, fx, Quot(gy, s.scaleY))
    ensures gx < s.glyphWidth && Quot(gy, s.scaleY) < s.fontHeight && 0 <= k < |s.font|
    ensures var x, y := CellX(s, cx) + gx, CellY(s, cy) + gy;
            OnScreen(s, x, y) && InkAt(s, c, x, y) == Solid(if s.font[k] then c.fg else c.bg, Paper(s, x, y))
  {
    GlyphColumn(s, fx, i);
    Divided(gy, s.scaleY, s.fontHeight);
    DotInFont(s, c, fx, Quot(gy, s.scaleY));
    GlyphPosition(s, cx, cy, gx, gy);
  }

  lemma {:induction false} CanvasRange(s: Surface, x: int, y: int)
    requires OnScreen(s, x, y) && |s.canvas| == Times(s.height, s.width)
    ensures 0 <= Times(y, s.width) + x < |s.canvas|
  {
    Ordered(y, s.height, s.width);
  }

  /** The lines above `y`, and of line `y` what is left of `x`, show the background. */
  ghost predicate Filled(s: Surface, p: seq<int>, x: int, y: int) {
    forall x', y' {:trigger PixelOf(s, p, x', y')} :: OnScreen(s, x', y') && (y' < y || (y' == y && x' < x)) ==>
      PixelOf(s, p, x', y') == Paper(s, x', y')
  }

  lemma {:induction false} FillMore(s: Surface, p: seq<int>, x: int, y: int)
    requires Fits(s) && OnScreen(s, x, y) && |p| >= Times(Lines(s), s.stride) && Filled(s, p, x, y)
    ensures 0 <= PixelAt(s, x, y) < |p| && Filled(s, p[PixelAt(s, x, y) := Paper(s, x, y)], x + 1, y)
  {
    SetPixel(s, p, x, y, Paper(s, x, y));
  }

  class Framebuffer {
    const s: Surface
    const pixels: array<int>
    /** What each text cell was last plotted with. */
    ghost var shown: seq<Shown>

    ghost predicate Ready() {
      Fits(s) && pixels.Length == Times(Lines(s), s.stride)
    }

    ghost predicate Valid()
      reads this, pixels
    {
      Ready() && |shown| == Times(s.rows, s.cols) && Painted(s, shown, pixels[..])
    }

    constructor (surface: Surface, memory: array<int>)
      requires Fits(surface) && memory.Length == Times(Lines(surface), surface.stride)
      ensures s == surface && pixels == memory && Ready()
    {
      s, pixels, shown := surface, memory, [];
    }

    /** One pixel: a transparent colour shows the canvas, or the default background. */
    method PutDot(c: Cell, dot: bool, x: int, y: int, dest: int)
      requires Ready() && OnScreen(s, x, y) && dest == PixelAt(s, x, y) && 0 <= dest < pixels.Length
      modifies pixels
      ensures pixels[..] == old(pixels[..])[dest := Solid(if dot then c.fg else c.bg, Paper(s, x, y))]
    {
      var behind := s.defaultBg;
      if s.hasCanvas {
        CanvasRange(s, x, y);
        behind := s.canvas[Times(y, s.width) + x];
      }
      var bg := if c.bg == TRANSPARENT then behind else c.bg;
      var fg := if c.fg == TRANSPARENT then behind else c.fg;
      pixels[dest] := if dot then fg else bg;
    }

    /** The next pixel of a line. */
    method DrawDot(c: Cell, cx: nat, cy: nat, fx: nat, i: nat, gx: nat, gy: nat, dest: int, k: int,
                   ghost before: seq<int>)
      requires Ready() && cx < s.cols && cy < s.rows && fx < s.fontWidth && i < s.scaleX && gy < s.glyphHeight
      requires gx == Times(fx, s.scaleX) + i && k == DotIndex(s, c, fx, Quot(gy, s.scaleY))
      requires dest == PixelAt(s, CellX(s, cx) + gx, CellY(s, cy) + gy)
      requires Drawn(s, c, Rect(CellX(s, cx), CellY(s, cy) + gy, gx, 1), before, pixels[..])
      modifies pixels
      ensures Drawn(s, c, Rect(CellX(s, cx), CellY(s, cy) + gy, gx + 1, 1), before, pixels[..])
    {
      var x, y := CellX(s, cx), CellY(s, cy) + gy;
      InkHere(s, c, cx, cy, fx, i, gx, gy, k);
      ghost var p := pixels[..];
      DrawnRight(s, c, Rect(x, y, gx, 1), before, p);
      PutDot(c, s.font[k], x + gx, y, dest);
      assert pixels[..] == p[dest := InkAt(s, c, x + gx, y)];
    }

    /** One dot of the font, `scaleX` pixels wide. */
    method PlotRun(c: Cell, cx: nat, cy: nat, fx: nat, gy: nat, w: nat, dest: int, k: int,
                   ghost before: seq<int>) returns (next: int)
      requires Ready() && cx < s.cols && cy < s.rows && fx < s.fontWidth && gy < s.glyphHeight
               && w == Times(fx, s.scaleX)
      requires dest == PixelAt(s, CellX(s, cx) + w, CellY(s, cy) + gy) && k == DotIndex(s, c, fx, Quot(gy, s.scaleY))
      requires Drawn(s, c, Rect(CellX(s, cx), CellY(s, cy) + gy, w, 1), before, pixels[..])
      modifies pixels
      ensures next == PixelAt(s, CellX(s, cx) + (w + s.scaleX), CellY(s, cy) + gy)
      ensures Drawn(s, c, Rect(CellX(s, cx), CellY(s, cy) + gy, w + s.scaleX, 1), before, pixels[..])
    {
      next := dest;
      var x, y := CellX(s, cx), CellY(s, cy) + gy;
      for i := 0 to s.scaleX
        invariant next == PixelAt(s, x + (w + i), y)
        invariant Drawn(s, c, Rect(x, y, w + i, 1), before, pixels[..])
      {
        var gx := w + i;
        DrawDot(c, cx, cy, fx, i, gx, gy, next, k, before);
        Strides(s, x + gx, y);
        next := next + InnerStride(s);
      }
    }

    /** A line of a glyph in a scaled font. */
    method PlotLine(c: Cell, cx: nat, cy: nat, gy: nat, fy: nat, dest: int)
      requires Ready() && cx < s.cols && cy < s.rows && gy < s.glyphHeight && fy == Quot(gy, s.scaleY)
      requires dest == PixelAt(s, CellX(s, cx), CellY(s, cy) + gy)
      modifies pixels
      ensures Drawn(s, c, Rect(CellX(s, cx), CellY(s, cy) + gy, s.glyphWidth, 1), old(pixels[..]), pixels[..])
    {
      ghost var before := pixels[..];
      var x, y := CellX(s, cx), CellY(s, cy) + gy;
      var line, dot := dest, DotIndex(s, c, 0, fy);
      var w: nat := 0;
      DrawnNothing(s, c, Rect(x, y, 0, 1), before);
      for fx := 0 to s.fontWidth
        invariant w == Times(fx, s.scaleX) && line == PixelAt(s, x + w, y) && dot == DotIndex(s, c, 0, fy) + fx
        invariant Drawn(s, c, Rect(x, y, w, 1), before, pixels[..])
      {
        line := PlotRun(c, cx, cy, fx, gy, w, line, dot, before);
        TimesMore(fx, s.scaleX);
        w := w + s.scaleX;
        dot := dot + 1;
      }
    }

    /** A line of a glyph in an unscaled font. */
    method PlotLineUnscaled(c: Cell, cx: nat, cy: nat, gy: nat, dest: int)
      requires Ready() && cx < s.cols && cy < s.rows && gy < s.glyphHeight && s.scaleX == s.scaleY == 1
      requires dest == PixelAt(s, CellX(s, cx), CellY(s, cy) + gy)
      modifies pixels
      ensures Drawn(s, c, Rect(CellX(s, cx), CellY(s, cy) + gy, s.glyphWidth, 1), old(pixels[..]), pixels[..])
    {
      ghost var before := pixels[..];
      var x, y := CellX(s, cx), CellY(s, cy) + gy;
      TimesOne(gy);
      TimesOne(s.fontWidth);
      var line, dot := dest, DotIndex(s, c, 0, gy);
      DrawnNothing(s, c, Rect(x, y, 0, 1), before);
      for fx := 0 to s.fontWidth
        invariant line == PixelAt(s, x + fx, y) && dot == DotIndex(s, c, 0, gy) + fx
        invariant Drawn(s, c, Rect(x, y, fx, 1), before, pixels[..])
      {
        TimesOne(fx);
        DrawDot(c, cx, cy, fx, 0, fx, gy, line, dot, before);
        Strides(s, x + fx, y);
        line := line + InnerStride(s);
        dot := dot + 1;
      }
    }

    /** The font row is held in eight bits. */
    method PlotGlyphLine(c: Cell, cx: nat, cy: nat, gy: nat, dest: int)
      requires Ready() && cx < s.cols && cy < s.rows && gy < s.glyphHeight
      requires dest == PixelAt(s, CellX(s, cx), CellY(s, cy) + gy)
      modifies pixels
      ensures Drawn(s, c, Rect(CellX(s, cx), CellY(s, cy) + gy, s.glyphWidth, 1), old(pixels[..]), pixels[..])
    {
      if s.scaleX == 1 && s.scaleY == 1 {
        PlotLineUnscaled(c, cx, cy, gy, dest);
      } else {
        Divided(gy, s.scaleY, s.fontHeight);
        PlotLine(c, cx, cy, gy, Quot(gy, s.scaleY) % 256, dest);
      }
    }

    method PlotGlyph(c: Cell, cx: nat, cy: nat)
      requires Ready() && cx < s.cols && cy < s.rows
      modifies pixels
      ensures Drawn(s, c, CellRect(s, cx, cy), old(pixels[..]), pixels[..])
    {
      ghost var before := pixels[..];
      var x, y := CellX(s, cx), CellY(s, cy);
      var dest := PixelAt(s, x, y);
      DrawnNothing(s, c, Rect(x, y, s.glyphWidth, 0), before);
      for gy := 0 to s.glyphHeight
        invariant dest == PixelAt(s, x, y + gy)
        invariant Drawn(s, c, Rect(x, y, s.glyphWidth, gy), before, pixels[..])
      {
        ghost var p := pixels[..];
        PlotGlyphLine(c, cx, cy, gy, dest);
        DrawnDown(s, c, Rect(x, y, s.glyphWidth, gy), before, p, pixels[..]);
        Strides(s, x, y + gy);
        dest := dest + OuterStride(s);
      }
    }

    /** `plot_char`: the cell's rectangle shows `c`, every other pixel is as it was;
        positions off the screen are ignored. */
    method PlotChar(c: Cell, cx: nat, cy: nat)
      requires Valid()
      modifies this, pixels
      ensures Valid()
      ensures shown == if cx < s.cols && cy < s.rows then ShowAt(old(shown), Times(cy, s.cols) + cx, c) else old(shown)
    {
      if cx >= s.cols || cy >= s.rows {
        return;
      }
      ghost var before := pixels[..];
      PlotGlyph(c, cx, cy);
      IndexInside(s.cols, s.rows, cx, cy);
      PlotPaints(s, shown, c, cx, cy, Times(cy, s.cols) + cx, before, pixels[..]);
      shown := ShowAt(shown, Times(cy, s.cols) + cx, c);
    }

    /** The first loop of `full_refresh`: nothing but the background. */
    method PaintBackground()
      requires Ready()
      modifies this, pixels
      ensures Valid() && shown == seq(Times(s.rows, s.cols), i => Nothing)
    {
      for y := 0 to s.height
        invariant Filled(s, pixels[..], 0, y)
      {
        for x := 0 to s.width
          invariant Filled(s, pixels[..], x, y)
        {
          FillMore(s, pixels[..], x, y);
          if s.hasCanvas {
            CanvasRange(s, x, y);
          }
          ghost var p := pixels[..];
          pixels[PixelAt(s, x, y)] := if s.hasCanvas then s.canvas[Times(y, s.width) + x] else s.defaultBg;
          assert pixels[..] == p[PixelAt(s, x, y) := Paper(s, x, y)];
        }
      }
      TimesNat(s.rows, s.cols);
      shown := seq(Times(s.rows, s.cols), i => Nothing);
    }
  }

  ghost function ShowAt(shown: seq<Shown>, i: int, c: Cell): seq<Shown> {
    if 0 <= i < |shown| then shown[i := Text(c)] else shown
  }

  // ----- the picture in plain numbers -----

  /** Where the font keeps a dot: characters one after the other, each line by line. */
  lemma {:induction false} DotPlace(s: Surface, c: Cell, fx: int, fy: int)
    ensures DotIndex(s, c, fx, fy) == (c.c * s.fontHeight + fy) * s.fontWidth + fx
  {
    TimesIs(s.fontHeight, s.fontWidth);
    TimesIs(c.c, s.fontHeight * s.fontWidth);
    TimesIs(fy, s.fontWidth);
    DotProduct(c.c, s.fontHeight, s.fontWidth, fy);
  }

  lemma {:induction false} DotProduct(c: int, h: int, w: int, fy: int)
    ensures c * (h * w) + fy * w == (c * h + fy) * w
  {
  }

  /** Different dots of different characters are in different places, in the order of the
      font: by character, then by line, then by column. */
  lemma {:induction false} DotsInOrder(s: Surface, c: Cell, fx: nat, fy: nat, d: Cell, gx: nat, gy: nat)
    requires Fits(s) && fx < s.fontWidth && fy < s.fontHeight && gx < s.fontWidth && gy < s.fontHeight
    ensures 0 <= DotIndex(s, c, fx, fy) < |s.font|
    ensures DotIndex(s, c, fx, fy) < DotIndex(s, d, gx, gy) <==>
            c.c < d.c || (c.c == d.c && (fy < gy || (fy == gy && fx < gx)))
  {
    DotInFont(s, c, fx, fy);
    var size := Times(s.fontHeight, s.fontWidth);
    IndexInside(s.fontWidth, s.fontHeight, fx, fy);
    IndexInside(s.fontWidth, s.fontHeight, gx, gy);
    if c.c < d.c { Ordered(c.c, d.c, size); }
    if d.c < c.c { Ordered(d.c, c.c, size); }
    if fy < gy { Ordered(fy, gy, s.fontWidth); }
    if gy < fy { Ordered(gy, fy, s.fontWidth); }
  }

  /** The colour behind the text: the canvas, line by line, or the default background. */
  lemma {:induction false} PaperPlace(s: Surface, x: int, y: int)
    requires Fits(s) && OnScreen(s, x, y)
    ensures s.hasCanvas ==> 0 <= y * s.width + x < |s.canvas|
    ensures Paper(s, x, y) == if s.hasCanvas then s.canvas[y * s.width + x] else s.defaultBg
  {
    TimesIs(y, s.width);
    if s.hasCanvas {
      CanvasRange(s, x, y);
    }
  }

  /** The colour of a dot: the character's foreground where the font has one, its
      background elsewhere, and what lies behind where that colour is transparent. */
  function DotColour(s: Surface, c: Cell, fx: nat, fy: nat, behind: int): int {
    var k := (c.c * s.fontHeight + fy) * s.fontWidth + fx;
    var colour := if 0 <= k < |s.font| && s.font[k] then c.fg else c.bg;
    if colour == 0xffff_ffff then behind else colour
  }

  lemma {:induction false} CellPlace(s: Surface, cx: nat, cy: nat, fx: nat, fy: nat, i: nat, j: nat)
    requires Fits(s) && cx < s.cols && cy < s.rows && fx < s.fontWidth && fy < s.fontHeight && i < s.scaleX
             && j < s.scaleY
    ensures var x, y := s.offsetX + cx * s.glyphWidth + fx * s.scaleX + i,
            s.offsetY + cy * s.glyphHeight + fy * s.scaleY + j;
            && OnScreen(s, x, y) && InText(s, x, y) && ColOf(s, x) == cx && RowOf(s, y) == cy
            && Quot(Rem(x - s.offsetX, s.glyphWidth), s.scaleX) == fx
            && Quot(Rem(y - s.offsetY, s.glyphHeight), s.scaleY) == fy
  {
    TimesIs(cx, s.glyphWidth);
    TimesIs(cy, s.glyphHeight);
    TimesIs(fx, s.scaleX);
    TimesIs(fy, s.scaleY);
    CellPosition(s, cx, cy, fx, fy, i, j, Times(fx, s.scaleX) + i, Times(fy, s.scaleY) + j);
  }

  lemma {:induction false} CellPosition(s: Surface, cx: nat, cy: nat, fx: nat, fy: nat, i: nat, j: nat, gx: int,
                                        gy: int)
    requires Fits(s) && cx < s.cols && cy < s.rows && fx < s.fontWidth && fy < s.fontHeight && i < s.scaleX
             && j < s.scaleY
    requires gx == Times(fx, s.scaleX) + i && gy == Times(fy, s.scaleY) + j
    ensures var x, y := CellX(s, cx) + gx, CellY(s, cy) + gy;
            && OnScreen(s, x, y) && InText(s, x, y) && ColOf(s, x) == cx && RowOf(s, y) == cy
            && Quot(Rem(x - s.offsetX, s.glyphWidth), s.scaleX) == fx
            && Quot(Rem(y - s.offsetY, s.glyphHeight), s.scaleY) == fy
  {
    GlyphColumn(s, fx, i);
    Unique(fy, s.scaleY, j);
    Ordered(fy, s.fontHeight, s.scaleY);
    GlyphPosition(s, cx, cy, gx, gy);
    RectOnScreen(s, cx, cy, CellX(s, cx) + gx, CellY(s, cy) + gy);
    CellOfRect(s, cx, cy, CellX(s, cx) + gx, CellY(s, cy) + gy);
  }

  /** Pixel by pixel, a cell that shows `c`. */
  lemma {:induction false} CellPixels(s: Surface, shown: seq<Shown>, p: seq<int>, c: Cell, cx: nat, cy: nat,
                                      fx: nat, fy: nat, i: nat, j: nat)
    requires Fits(s) && Painted(s, shown, p) && cx < s.cols && cy < s.rows
    requires 0 <= Times(cy, s.cols) + cx < |shown| && shown[Times(cy, s.cols) + cx] == Text(c)
    requires fx < s.fontWidth && fy < s.fontHeight && i < s.scaleX && j < s.scaleY
    ensures var x, y := s.offsetX + cx * s.glyphWidth + fx * s.scaleX + i,
            s.offsetY + cy * s.glyphHeight + fy * s.scaleY + j;
            OnScreen(s, x, y) && PixelOf(s, p, x, y) == DotColour(s, c, fx, fy, Paper(s, x, y))
  {
    CellPlace(s, cx, cy, fx, fy, i, j);
    DotPlace(s, c, fx, fy);
  }
}

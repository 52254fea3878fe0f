/** Where text cells land in the frame buffer, under every rotation, and what plotting
    a character does to the pixels. */
module Pixels {
  import opened Rows

  type Glyph = x: int | 0 <= x < 256

  datatype Cell = Cell(c: Glyph, fg: int, bg: int)

  datatype Rotation = Rotate0 | Rotate90 | Rotate180 | Rotate270

  /** The colour that stands for whatever lies behind the text. */
  const TRANSPARENT := 0xffff_ffff

  /** `width` and `height` are those of the rotated screen; `stride` is the pitch in
      pixels; an empty canvas means there is none. */
  datatype Surface = Surface(
    width: nat, height: nat, stride: nat, rotation: Rotation,
    fontWidth: nat, fontHeight: nat, scaleX: nat, scaleY: nat,
    glyphWidth: nat, glyphHeight: nat,
    cols: nat, rows: nat, offsetX: nat, offsetY: nat,
    font: seq<bool>, hasCanvas: bool, canvas: seq<int>, defaultBg: int)

  predicate Turned(r: Rotation) { r.Rotate90? || r.Rotate270? }

  function LineWidth(s: Surface): nat { if Turned(s.rotation) then s.height else s.width }

  function Lines(s: Surface): nat { if Turned(s.rotation) then s.width else s.height }

  ghost predicate Fits(s: Surface) {
    && s.fontWidth > 0 && 0 < s.fontHeight <= 256 && s.scaleX > 0 && s.scaleY > 0
    && s.glyphWidth == Times(s.fontWidth, s.scaleX) > 0 && s.glyphHeight == Times(s.fontHeight, s.scaleY) > 0
    && s.offsetX + Times(s.cols, s.glyphWidth) <= s.width && s.offsetY + Times(s.rows, s.glyphHeight) <= s.height
    && LineWidth(s) <= s.stride
    && |s.font| == Times(256, Times(s.fontHeight, s.fontWidth))
    && (s.hasCanvas ==> |s.canvas| == Times(s.height, s.width))
  }

  /** The geometry `flanterm_fb_init` computes. */
  function Geometry(width: nat, height: nat, stride: nat, rotation: Rotation, fontWidth: nat, fontHeight: nat,
                    scaleX: nat, scaleY: nat, margin: nat, font: seq<bool>, hasCanvas: bool, canvas: seq<int>,
                      defaultBg: int): Surface
    requires fontWidth > 0 && fontHeight > 0 && scaleX > 0 && scaleY > 0
    requires margin * 2 <= width && margin * 2 <= height
  {
    TimesPositive(fontWidth, scaleX);
    TimesPositive(fontHeight, scaleY);
    var gw, gh := Times(fontWidth, scaleX), Times(fontHeight, scaleY);
    var w, h := width - margin * 2, height - margin * 2;
    Rebuilt(w, gw);
    Rebuilt(h, gh);
    Surface(width, height, stride, rotation, fontWidth, fontHeight, scaleX, scaleY, gw, gh,
      Quot(w, gw), Quot(h, gh), margin + Rem(w, gw) / 2, margin + Rem(h, gh) / 2, font, hasCanvas, canvas, defaultBg)
  }

  lemma {:induction false} TimesPositive(a: nat, b: nat)
    requires a > 0 && b > 0
    ensures Times(a, b) > 0
  {
    TimesNat(a - 1, b);
  }

  /** Every text cell lies inside the screen, with the margin on all sides; there are as
      many as fit, in the middle. */
  lemma {:induction false} GeometryFits(width: nat, height: nat, stride: nat, rotation: Rotation, fontWidth: nat,
                                        fontHeight: nat, scaleX: nat, scaleY: nat, margin: nat, font: seq<bool>,
                                          hasCanvas: bool, canvas: seq<int>, defaultBg: int)
    requires fontWidth > 0 && 0 < fontHeight <= 256 && scaleX > 0 && scaleY > 0
    requires margin * 2 <= width && margin * 2 <= height
    requires (if Turned(rotation) then height else width) <= stride
    requires |font| == Times(256, Times(fontHeight, fontWidth)) && (hasCanvas ==> |canvas| == Times(height, width))
    ensures var s := Geometry(width, height, stride, rotation, fontWidth, fontHeight, scaleX, scaleY, margin, font,
            hasCanvas, canvas, defaultBg);
            Fits(s) && margin <= s.offsetX && margin <= s.offsetY
            && s.offsetX + Times(s.cols, s.glyphWidth) <= width - margin
            && s.offsetY + Times(s.rows, s.glyphHeight) <= height - margin
            && width - margin * 2 < Times(s.cols + 1, s.glyphWidth)
            && height - margin * 2 < Times(s.rows + 1, s.glyphHeight)
            && 0 <= (width - s.offsetX - Times(s.cols, s.glyphWidth)) - s.offsetX <= 1
            && 0 <= (height - s.offsetY - Times(s.rows, s.glyphHeight)) - s.offsetY <= 1
  {
    TimesPositive(fontWidth, scaleX);
    TimesPositive(fontHeight, scaleY);
    Rebuilt(width - margin * 2, Times(fontWidth, scaleX));
    Rebuilt(height - margin * 2, Times(fontHeight, scaleY));
    TimesMore(Quot(width - margin * 2, Times(fontWidth, scaleX)), Times(fontWidth, scaleX));
    TimesMore(Quot(height - margin * 2, Times(fontHeight, scaleY)), Times(fontHeight, scaleY));
  }

  // ----- pixels -----

  predicate OnScreen(s: Surface, x: int, y: int) { 0 <= x < s.width && 0 <= y < s.height }

  function Line(s: Surface, x: int, y: int): int {
    match s.rotation
    case Rotate0 => y
    case Rotate90 => x
    case Rotate180 => s.height - 1 - y
    case Rotate270 => s.width - 1 - x
  }

  function Column(s: Surface, x: int, y: int): int {
    match s.rotation
    case Rotate0 => x
    case Rotate90 => s.height - 1 - y
    case Rotate180 => s.width - 1 - x
    case Rotate270 => y
  }

  /** The coordinate map of `full_refresh`. */
  function PixelAt(s: Surface, x: int, y: int): int { Times(Line(s, x, y), s.stride) + Column(s, x, y) }

  function OuterStride(s: Surface): int {
    match s.rotation
    case Rotate0 => s.stride
    case Rotate90 => -1
    case Rotate180 => -(s.stride as int)
    case Rotate270 => 1
  }

  function InnerStride(s: Surface): int {
    match s.rotation
    case Rotate0 => 1
    case Rotate90 => s.stride
    case Rotate180 => -1
    case Rotate270 => -(s.stride as int)
  }

  /** A pixel of the screen, as opposed to the padding at the end of a line. */
  predicate Visible(s: Surface, p: int) {
    s.stride > 0 && 0 <= p && Rem(p, s.stride) < LineWidth(s) && Quot(p, s.stride) < Lines(s)
  }

  lemma {:induction false} PixelInRange(s: Surface, x: int, y: int)
    requires Fits(s) && OnScreen(s, x, y)
    ensures 0 <= PixelAt(s, x, y) < Times(Lines(s), s.stride) && Visible(s, PixelAt(s, x, y))
  {
    var l, c := Line(s, x, y), Column(s, x, y);
    assert 0 <= l < Lines(s) && 0 <= c < LineWidth(s);
    Unique(l, s.stride, c);
    Ordered(l, Lines(s), s.stride);
  }

  /** No two screen positions share a pixel. */
  lemma {:induction false} PixelInjective(s: Surface, x: int, y: int, x': int, y': int)
    requires Fits(s) && OnScreen(s, x, y) && OnScreen(s, x', y')
    ensures PixelAt(s, x, y) == PixelAt(s, x', y') <==> x == x' && y == y'
  {
    Unique(Line(s, x, y), s.stride, Column(s, x, y));
    Unique(Line(s, x', y'), s.stride, Column(s, x', y'));
  }

  /** Every visible pixel is some screen position's. */
  lemma {:induction false} PixelSurjective(s: Surface, p: int) returns (x: int, y: int)
    requires Fits(s) && Visible(s, p)
    ensures OnScreen(s, x, y) && PixelAt(s, x, y) == p
  {
    Rebuilt(p, s.stride);
    x, y := Position(s, Quot(p, s.stride), Rem(p, s.stride));
  }

  lemma {:induction false} Position(s: Surface, l: int, c: int) returns (x: int, y: int)
    requires 0 <= l < Lines(s) && 0 <= c < LineWidth(s)
    ensures OnScreen(s, x, y) && Line(s, x, y) == l && Column(s, x, y) == c
  {
    match s.rotation {
      case Rotate0 => x, y := c, l;
      case Rotate90 => x, y := l, s.height - 1 - c;
      case Rotate180 => x, y := s.width - 1 - c, s.height - 1 - l;
      case Rotate270 => x, y := s.width - 1 - l, c;
    }
  }

  // ----- which way up -----

  function NextTurn(r: Rotation): Rotation {
    match r
    case Rotate0 => Rotate90
    case Rotate90 => Rotate180
    case Rotate180 => Rotate270
    case Rotate270 => Rotate0
  }

  /** Unrotated, the screen is the frame buffer, line by line from the top and column by
      column from the left. */
  lemma {:induction false} Upright(s: Surface, x: int, y: int)
    requires s.rotation == Rotate0
    ensures PixelAt(s, x, y) == y * s.stride + x
  {
    TimesIs(y, s.stride);
  }

  /** Each rotation is the one before it, turned by a quarter clockwise: the lines of a
      picture become its columns, the first line the last column. */
  lemma {:induction false} QuarterTurn(s: Surface, x: int, y: int)
    ensures var t := s.(rotation := NextTurn(s.rotation));
            && Line(t, x, y) == Column(s, x, y) && Column(t, x, y) == Lines(s) - 1 - Line(s, x, y)
            && Lines(t) == LineWidth(s) && LineWidth(t) == Lines(s)
  {
  }

  /** The first position is in the corner the rotation has brought it to. */
  lemma {:induction false} FirstCorner(s: Surface)
    ensures s.rotation == Rotate0 ==> Line(s, 0, 0) == 0 && Column(s, 0, 0) == 0
    ensures s.rotation == Rotate90 ==> Line(s, 0, 0) == 0 && Column(s, 0, 0) == LineWidth(s) - 1
    ensures s.rotation == Rotate180 ==> Line(s, 0, 0) == Lines(s) - 1 && Column(s, 0, 0) == LineWidth(s) - 1
    ensures s.rotation == Rotate270 ==> Line(s, 0, 0) == Lines(s) - 1 && Column(s, 0, 0) == 0
  {
  }

  /** Down is always to the right of right: no rotation shows a mirror image. */
  lemma {:induction false} NeverMirrored(s: Surface, x: int, y: int)
    ensures var right, down := (Column(s, x + 1, y) - Column(s, x, y), Line(s, x + 1, y) - Line(s, x, y)),
                               (Column(s, x, y + 1) - Column(s, x, y), Line(s, x, y + 1) - Line(s, x, y));
            right.0 * down.1 - right.1 * down.0 == 1
  {
  }

  /** The moving pointers of `plot_char` follow the coordinate map. */
  lemma {:induction false} Strides(s: Surface, x: int, y: int)
    ensures PixelAt(s, x + 1, y) == PixelAt(s, x, y) + InnerStride(s)
    ensures PixelAt(s, x, y + 1) == PixelAt(s, x, y) + OuterStride(s)
  {
    TimesMore(Line(s, x, y), s.stride);
    TimesMore(Line(s, x, y) - 1, s.stride);
  }

  // ----- cells -----

  function CellX(s: Surface, x: int): int { s.offsetX + Times(x, s.glyphWidth) }

  function CellY(s: Surface, y: int): int { s.offsetY + Times(y, s.glyphHeight) }

  datatype Rect = Rect(x: int, y: int, w: nat, h: nat)

  predicate In(r: Rect, x: int, y: int) { r.x <= x < r.x + r.w && r.y <= y < r.y + r.h }

  function CellRect(s: Surface, cx: nat, cy: nat): Rect {
    Rect(CellX(s, cx), CellY(s, cy), s.glyphWidth, s.glyphHeight)
  }

  /** Whether a screen position belongs to a text cell at all. */
  predicate InText(s: Surface, x: int, y: int) {
    && s.offsetX <= x < s.offsetX + Times(s.cols, s.glyphWidth)
    && s.offsetY <= y < s.offsetY + Times(s.rows, s.glyphHeight)
  }

  /** Rectangles lie on the screen. */
  lemma {:induction false} RectOnScreen(s: Surface, cx: nat, cy: nat, x: int, y: int)
    requires Fits(s) && cx < s.cols && cy < s.rows && In(CellRect(s, cx, cy), x, y)
    ensures OnScreen(s, x, y) && InText(s, x, y)
  {
    Ordered(cx, s.cols, s.glyphWidth);
    Ordered(cy, s.rows, s.glyphHeight);
  }

  /** The cell a text position belongs to. */
  function ColOf(s: Surface, x: int): int
    requires s.glyphWidth > 0
  {
    Quot(x - s.offsetX, s.glyphWidth)
  }

  function RowOf(s: Surface, y: int): int
    requires s.glyphHeight > 0
  {
    Quot(y - s.offsetY, s.glyphHeight)
  }

  lemma {:induction false} CellOfRect(s: Surface, cx: nat, cy: nat, x: int, y: int)
    requires Fits(s) && cx < s.cols && cy < s.rows && InText(s, x, y)
    ensures In(CellRect(s, cx, cy), x, y) <==> ColOf(s, x) == cx && RowOf(s, y) == cy
    ensures 0 <= ColOf(s, x) < s.cols && 0 <= RowOf(s, y) < s.rows
  {
    Slot(x - s.offsetX, s.glyphWidth, s.cols, cx);
    Slot(y - s.offsetY, s.glyphHeight, s.rows, cy);
  }

  /** Rectangles of different cells share no pixel of the frame buffer. */
  lemma {:induction false} RectsDisjoint(s: Surface, cx: nat, cy: nat, dx: nat, dy: nat, x: int, y: int, x': int,
                                         y': int)
    requires Fits(s) && cx < s.cols && cy < s.rows && dx < s.cols && dy < s.rows && (cx, cy) != (dx, dy)
    requires In(CellRect(s, cx, cy), x, y) && In(CellRect(s, dx, dy), x', y')
    ensures PixelAt(s, x, y) != PixelAt(s, x', y')
  {
    RectOnScreen(s, cx, cy, x, y);
    RectOnScreen(s, dx, dy, x', y');
    CellOfRect(s, cx, cy, x, y);
    CellOfRect(s, dx, dy, x', y');
    PixelInjective(s, x, y, x', y');
  }
}

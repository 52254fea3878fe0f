/** What a writer sees: control characters, colours, modes, character sets, saved states
    and longer characters, by their bytes and in the terms of the screen. */
module Effects {
  import opened Rows
  import opened Pixels
  import opened TextView
  import opened RowEdits
  import opened Rendering
  import opened Commands
  import opened Parsing
  import opened Sequences

  /** The cursor is on the screen. */
  predicate CursorOn(v: View) { v.x < v.cols && v.y < v.rows }

  // ----- single bytes -----

  /** A printable byte appears as it is. */
  lemma {:induction false} PrintedByte(cfg: Config, ch: Byte, a: State, b: State)
    requires Took(cfg, [ch], a, b) && Ground(a.p) && PlainNow(a) && 0x20 <= ch <= 0x7e
    ensures StateOk(cfg, a) && b == a.(v := PutChar(a.v, ch))
  {
    TookOne(cfg, ch, a, b);
    PutGround(cfg, ch, a, b);
  }

  /** Carriage return, backspace, the two shifts, and the bytes that do nothing. */
  lemma {:induction false} ControlBytes(cfg: Config, c: Byte, a: State, b: State)
    requires Took(cfg, [c], a, b) && Ground(a.p) && CursorOn(a.v)
    ensures c == 0x0d ==> b == a.(v := a.v.(x := 0))
    ensures c == 0x08 ==> b == a.(v := a.v.(x := if a.v.x == 0 then 0 else a.v.x - 1))
    ensures c == 0x0e ==> b == a.(pen := a.pen.(charset := 1))
    ensures c == 0x0f ==> b == a.(pen := a.pen.(charset := 0))
    ensures c == 0x00 || c == 0x07 || c == 0x7f ==> b == a
  {
    TookOne(cfg, c, a, b);
    if c in {0x0d, 0x08, 0x0e, 0x0f, 0x00, 0x07, 0x7f} {
      PutGround(cfg, c, a, b);
    }
  }

  lemma {:induction false} TabStop(v: View, t: nat)
    requires t > 0 && CursorOn(v) && v.cols + t <= 0x8000_0000
    ensures var stop := (v.x / t + 1) * t;
            Tabbed(v, t) == v.(x := if stop < v.cols then stop else v.cols - 1)
  {
    QuotIs(v.x, t);
    Rebuilt(v.x, t);
    var stop := Quot(v.x, t) + 1;
    TimesIs(stop, t);
    TimesMore(Quot(v.x, t), t);
    AtLeast(stop, t);
  }

  /** A tab moves to the next multiple of the tab size, or to the last column. */
  lemma {:induction false} TabByte(cfg: Config, a: State, b: State)
    requires Took(cfg, [0x09], a, b) && Ground(a.p) && CursorOn(a.v) && a.v.cols + cfg.tabSize <= 0x8000_0000
    ensures cfg.tabSize > 0
    ensures var stop := (a.v.x / cfg.tabSize + 1) * cfg.tabSize;
            b == a.(v := a.v.(x := if stop < a.v.cols then stop else a.v.cols - 1))
  {
    TookOne(cfg, 0x09, a, b);
    PutGround(cfg, 0x09, a, b);
    TabStop(a.v, cfg.tabSize);
  }

  /** A line feed that returns the carriage, cell by cell. */
  lemma {:induction false} LineFeedByte(cfg: Config, c: Byte, a: State, b: State, cx: nat, cy: nat)
    requires Took(cfg, [c], a, b) && Ground(a.p) && 0x0a <= c <= 0x0c && Shaped(a.v) && CursorOn(a.v)
    requires a.v.rows < 0x8000_0000 && cx < a.v.cols && cy < a.v.rows
    ensures b == a.(v := b.v)
    ensures b.v == a.v.(text := b.v.text, x := if a.modes.onlcr then 0 else a.v.x,
                        y := if a.v.y + 1 == a.v.bottom || a.v.y + 1 == a.v.rows then a.v.y else a.v.y + 1)
    ensures At(b.v, cx, cy) == if a.v.y + 1 == a.v.bottom then RowUp(a.v, 1, cx, cy) else At(a.v, cx, cy)
  {
    TookOne(cfg, c, a, b);
    PutGround(cfg, c, a, b);
    FedLineMeans(a.v, if a.modes.onlcr then 0 else a.v.x, a.v.y, cx, cy);
  }

  /** Two bytes, the first an escape character. */
  lemma {:induction false} TookEscape(cfg: Config, c: Byte, a: State, b: State)
    requires Took(cfg, [0x1b, c], a, b) && Ground(a.p) && c != 0x18 && c != 0x1a && !(0xc0 <= c <= 0xf7)
    ensures var n := a.(p := a.p.(escape := true, escapeOffset := 1));
            StateOk(cfg, a) && StartStep(cfg, c, n, b)
  {
    var m := TookFirst(cfg, [0x1b, c], a, b);
    assert [0x1b, c][1..] == [c];
    TookOne(cfg, c, m, b);
    PutGround(cfg, 0x1b, a, m);
    PutEscaped(cfg, c, m, b);
  }

  /** ESC c: a blank screen with the cursor at its start, the whole screen as scroll
      region, and every mode as it was in the beginning. The colours stay. */
  lemma {:induction false} ResetEscape(cfg: Config, a: State, b: State, cx: nat, cy: nat)
    requires Took(cfg, [0x1b, 0x63], a, b) && Ground(a.p) && Shaped(a.v) && cx < a.v.cols && cy < a.v.rows
    ensures At(b.v, cx, cy) == Cell(0x20, a.v.fg, a.v.bg)
    ensures b.v == a.v.(text := b.v.text, x := 0, y := 0, top := 0, bottom := a.v.rows, scrolling := true)
    ensures b.modes == Modes(Default, DecSpecial, false, true, true, true) && b.saved == a.saved
    ensures b.pen == Pen(false, false, false, 0, -1, -1) && Ready(b)
  {
    TookEscape(cfg, 0x63, a, b);
    ClearBlanks(a.v, true, cx, cy);
  }

  /** ESC D, ESC E and ESC M: index, next line and reverse index. */
  lemma {:induction false} LineEscapes(cfg: Config, c: Byte, a: State, b: State, cx: nat, cy: nat)
    requires Took(cfg, [0x1b, c], a, b) && Ground(a.p) && c in {0x44, 0x45, 0x4d}
    requires Shaped(a.v) && CursorOn(a.v) && a.v.rows < 0x8000_0000 && cx < a.v.cols && cy < a.v.rows
    ensures b.modes == a.modes && b.pen == a.pen && Ground(b.p)
            && b.v == a.v.(text := b.v.text, x := b.v.x, y := b.v.y)
    ensures b.v.x == if c == 0x44 then a.v.x else 0
    ensures c != 0x4d ==>
              && b.v.y == (if a.v.y + 1 == a.v.bottom || a.v.y + 1 == a.v.rows then a.v.y else a.v.y + 1)
              && At(b.v, cx, cy) == if a.v.y + 1 == a.v.bottom then RowUp(a.v, 1, cx, cy) else At(a.v, cx, cy)
    ensures c == 0x4d ==>
              && b.v.y == (if a.v.y == a.v.top || a.v.y == 0 then a.v.y else a.v.y - 1)
              && At(b.v, cx, cy) == if a.v.y == a.v.top then RowDown(a.v, 1, cx, cy) else At(a.v, cx, cy)
  {
    TookEscape(cfg, c, a, b);
    if c == 0x4d {
      FedBackMeans(a.v, a.v.y, cx, cy);
    } else {
      FedLineMeans(a.v, if c == 0x44 then a.v.x else 0, a.v.y, cx, cy);
    }
  }

  // ----- character sets -----

  /** ESC ( or ) and a letter: '0' designates line drawing, 'B' the usual characters. */
  lemma {:induction false} Designation(cfg: Config, g: Byte, c: Byte, a: State, b: State)
    requires Took(cfg, [0x1b, g, c], a, b) && Ground(a.p) && g in {0x28, 0x29} && c in {0x30, 0x42}
    ensures var chosen := if c == 0x30 then DecSpecial else Default;
            && b == a.(p := b.p, modes := if g == 0x28 then a.modes.(g0 := chosen) else a.modes.(g1 := chosen))
            && Ground(b.p)
  {
    assert [0x1b, g, c] == [0x1b, g] + [c];
    var m := TookSplit(cfg, [0x1b, g], [c], a, b);
    TookEscape(cfg, g, a, m);
    TookOne(cfg, c, m, b);
  }

  /** After ESC ( 0 a character in the line drawing table is drawn from it, and after
      ESC ( B it is printed as it is. */
  lemma {:induction false} LineDrawing(cfg: Config, c: Byte, ch: Byte, a: State, b: State)
    requires Took(cfg, [0x1b, 0x28, c, ch], a, b) && Ground(a.p) && c in {0x30, 0x42}
    requires a.pen.charset == 0 && !a.modes.insert && 0x20 <= ch <= 0x7e && ch in cfg.special
    ensures StateOk(cfg, a) && b.v == PutChar(a.v, if c == 0x30 then cfg.special[ch] else ch)
  {
    assert [0x1b, 0x28, c, ch] == [0x1b, 0x28, c] + [ch];
    TookOk(cfg, [0x1b, 0x28, c, ch], a, b);
    var m := TookSplit(cfg, [0x1b, 0x28, c], [ch], a, b);
    Designation(cfg, 0x28, c, a, m);
    TookOne(cfg, ch, m, b);
    PutGround(cfg, ch, m, b);
  }

  // ----- modes -----

  /** ESC [ 4 h and ESC [ 4 l: insert mode on and off, and nothing else. */
  lemma {:induction false} InsertMode(cfg: Config, c: Byte, a: State, b: State)
    requires Took(cfg, [0x1b, 0x5b, 0x34, c], a, b) && Ready(a) && c in {0x68, 0x6c}
    ensures b == a.(p := b.p, values := b.values, modes := a.modes.(insert := c == 0x68)) && Ready(b)
  {
    assert Decimal(4) == [0x34];
    assert Parameters([4]) == [0x34];
    assert [0x1b, 0x5b, 0x34, c] == ControlSequence([4], c);
    SequenceRuns(cfg, [4], c, a, b);
  }

  /** The opening of a private sequence. */
  lemma {:induction false} OpenedPrivate(cfg: Config, a: State, b: State)
    requires Took(cfg, CSI + [0x3f], a, b) && Ready(a)
    ensures Within(b.p) && Holding(b.values, [])
    ensures b == a.(p := a.p.(escape := true, controlSequence := true, escapeOffset := 2, escValuesI := 0, rrr := false,
                              csiUnhandled := false, decPrivate := true), values := b.values)
  {
    var o := TookSplit(cfg, CSI, [0x3f], a, b);
    Opened(cfg, a, o);
    Questioned(cfg, o, b);
  }

  lemma {:induction false} Questioned(cfg: Config, a: State, b: State)
    requires Took(cfg, [0x3f], a, b) && Within(a.p) && a.p.escapeOffset == 1
    ensures b == a.(p := a.p.(escapeOffset := 2, decPrivate := true))
  {
    TookOne(cfg, 0x3f, a, b);
    PutWithin(cfg, 0x3f, a, b);
  }

  lemma {:induction false} PrivateEnd(cfg: Config, c: Byte, n: Word32, a: State, b: State)
    requires Took(cfg, [c], a, b) && Within(a.p) && a.p.decPrivate && c in {0x68, 0x6c}
    requires a.p.rrr && a.p.escValuesI == 0 && |a.values| > 0 && a.values[0] == n
    ensures b == a.(p := b.p, values := b.values,
                    modes := if n == 25 then a.modes.(cursorOn := c == 0x68) else a.modes)
    ensures b.p == a.p.(escValuesI := 1, rrr := false, decPrivate := false, controlSequence := false, escape := false,
                        escapeOffset := b.p.escapeOffset)
  {
    TookOne(cfg, c, a, b);
    PutWithin(cfg, c, a, b);
    var f := WithDefaults(Completed(Counted(a)), c);
    assert f.values[..1] == [n];
  }

  /** ESC [ ? 2 5 h and ESC [ ? 2 5 l: the cursor is shown and hidden, and nothing else. */
  lemma {:induction false} CursorMode(cfg: Config, c: Byte, a: State, b: State)
    requires Took(cfg, [0x1b, 0x5b, 0x3f, 0x32, 0x35, c], a, b) && Ready(a) && c in {0x68, 0x6c}
    ensures b == a.(p := b.p, values := b.values, modes := a.modes.(cursorOn := c == 0x68)) && Ready(b)
  {
    assert [0x1b, 0x5b, 0x3f, 0x32, 0x35, c] == CSI + [0x3f] + [0x32, 0x35] + [c];
    var m := TookSplit(cfg, CSI + [0x3f] + [0x32, 0x35], [c], a, b);
    var n := TookSplit(cfg, CSI + [0x3f], [0x32, 0x35], a, m);
    OpenedPrivate(cfg, a, n);
    Twentyfive();
    NumberRead(cfg, 25, n, m);
    PrivateEnd(cfg, c, 25, m, b);
  }

  lemma {:induction false} Twentyfive()
    ensures Decimal(25) == [0x32, 0x35]
  {
    assert Decimal(2) == [0x32];
  }

  // ----- unknown sequences -----

  /** A byte that should be a command and is none. */
  predicate Unknown(c: Byte) { 0x40 <= c <= 0x7e && c != 0x5b && !IsCommand(c as char) }

  lemma {:induction false} UnknownTaken(cfg: Config, c: Byte, a: State, b: State)
    requires Took(cfg, [c], a, b) && Within(a.p) && !a.p.decPrivate && !a.p.csiUnhandled && Unknown(c)
    ensures b == a.(p := b.p, values := b.values, v := a.v.(scrolling := false))
    ensures Within(b.p) && b.p.csiUnhandled && !b.p.decPrivate && b.p.gSelect == a.p.gSelect
  {
    TookOne(cfg, c, a, b);
    PutWithin(cfg, c, a, b);
  }

  lemma {:induction false} UnknownEnded(cfg: Config, c: Byte, a: State, b: State)
    requires Took(cfg, [c], a, b) && Within(a.p) && !a.p.decPrivate && a.p.csiUnhandled
    requires 0x40 <= c <= 0x7e && c != 0x5b && a.p.gSelect == 0
    ensures b == a.(p := b.p, values := b.values, v := a.v.(scrolling := false)) && Ready(b)
  {
    TookOne(cfg, c, a, b);
    PutWithin(cfg, c, a, b);
  }

  /** A control sequence with an unknown command goes on to the next byte that could be
      one, and leaves scrolling off. */
  lemma {:induction false} UnknownCommand(cfg: Config, c: Byte, d: Byte, a: State, b: State)
    requires Took(cfg, CSI + [c] + [d], a, b) && Ready(a) && Unknown(c) && 0x40 <= d <= 0x7e && d != 0x5b
    ensures b == a.(p := b.p, values := b.values, v := a.v.(scrolling := false)) && Ready(b)
  {
    var m := TookSplit(cfg, CSI + [c], [d], a, b);
    var o := TookSplit(cfg, CSI, [c], a, m);
    Opened(cfg, a, o);
    UnknownTaken(cfg, c, o, m);
    UnknownEnded(cfg, d, m, b);
  }

  // ----- colours -----

  /** A rendition sequence changes the pen and the two colours, and nothing else. */
  lemma {:induction false} RenditionRuns(cfg: Config, ps: seq<Word32>, a: State, b: State)
    requires Took(cfg, ControlSequence(ps, 0x6d), a, b) && Ready(a)
    ensures StateOk(cfg, a) && RenditionOf(b) == Rendered(cfg, RenditionOf(a), Kept(ps)) && Ready(b)
    ensures b == a.(p := b.p, values := b.values, pen := b.pen, v := a.v.(fg := b.v.fg, bg := b.v.bg))
  {
    SequenceRuns(cfg, ps, 0x6d, a, b);
  }

  /** The state after a sequence that leads to given colours. */
  ghost predicate Coloured(a: State, b: State, fg: int, bg: int) {
    b == a.(p := b.p, values := b.values, pen := b.pen, v := a.v.(fg := fg, bg := bg)) && Ready(b)
  }

  /** One code for the ink of characters, which reverse video shows behind them: the eight
      colours, bright if bold, their bright forms, the default, and bold on and off. */
  lemma {:induction false} InkCodes(cfg: Config, n: Word32, ink: int, a: State, b: State)
    requires Took(cfg, ControlSequence([n], 0x6d), a, b) && Ready(a) && PaletteOk(cfg.palette) && PenOk(a.pen)
    requires || (30 <= n <= 37 && ink == if a.pen.bold then cfg.palette.bright[n - 30] else cfg.palette.ansi[n - 30])
             || (90 <= n <= 97 && ink == cfg.palette.bright[n - 90])
             || (n == 39 && ink == if a.pen.bold then cfg.palette.fgBright else cfg.palette.fg)
             || (n == 1 && a.pen.primary >= 0 && ink == cfg.palette.bright[a.pen.primary])
             || (n == 22 && a.pen.primary >= 0 && ink == cfg.palette.ansi[a.pen.primary])
             || (n == 1 && a.pen.primary < 0 && ink == if a.pen.reverse then cfg.palette.bgBright
                                                        else cfg.palette.fgBright)
             || (n == 22 && a.pen.primary < 0 && ink == if a.pen.reverse then 0xffff_ffff else cfg.palette.fg)
    ensures if a.pen.reverse then Coloured(a, b, a.v.fg, ink) else Coloured(a, b, ink, a.v.bg)
    ensures b.pen == if n == 1 || n == 22 then a.pen.(bold := n == 1)
                     else a.pen.(primary := if n == 39 then -1 else n % 10)
  {
    RenditionRuns(cfg, [n], a, b);
    OneCode(cfg, RenditionOf(a), n);
  }

  /** One code for the paper. */
  lemma {:induction false} PaperCodes(cfg: Config, n: Word32, paper: int, a: State, b: State)
    requires Took(cfg, ControlSequence([n], 0x6d), a, b) && Ready(a) && PaletteOk(cfg.palette) && PenOk(a.pen)
    requires || (40 <= n <= 47 && paper == if a.pen.bgBold then cfg.palette.bright[n - 40]
             else cfg.palette.ansi[n - 40])
             || (100 <= n <= 107 && paper == cfg.palette.bright[n - 100])
             || (n == 49 && paper == if a.pen.bgBold then cfg.palette.bgBright else 0xffff_ffff)
             || (n == 5 && a.pen.bg >= 0 && paper == cfg.palette.bright[a.pen.bg])
             || (n == 25 && a.pen.bg >= 0 && paper == cfg.palette.ansi[a.pen.bg])
             || (n == 5 && a.pen.bg < 0 && paper == if a.pen.reverse then cfg.palette.fgBright
                                                    else cfg.palette.bgBright)
             || (n == 25 && a.pen.bg < 0 && paper == if a.pen.reverse then cfg.palette.fg else 0xffff_ffff)
    ensures if a.pen.reverse then Coloured(a, b, paper, a.v.bg) else Coloured(a, b, a.v.fg, paper)
    ensures b.pen == if n == 5 || n == 25 then a.pen.(bgBold := n == 5)
                     else a.pen.(bg := if n == 49 then -1 else n % 10)
  {
    RenditionRuns(cfg, [n], a, b);
    OneCode(cfg, RenditionOf(a), n);
  }

  lemma {:induction false} OneCode(cfg: Config, r: Rendition, n: Word32)
    requires PaletteOk(cfg.palette)
    ensures Rendered(cfg, r, Kept([n])) == if Extended(n) then r else PlainCode(cfg.palette, r, n)
  {
    if !Extended(n) {
      CodesLast(cfg.palette, cfg.convert, r, PlainCode(cfg.palette, r, n), [n], 0, false);
    } else {
      CodesLast(cfg.palette, cfg.convert, r, r, [n], 0, true);
    }
  }

  /** Reverse video exchanges the two colours when it changes. */
  lemma {:induction false} ReverseCodes(cfg: Config, n: Word32, a: State, b: State)
    requires Took(cfg, ControlSequence([n], 0x6d), a, b) && Ready(a) && (n == 7 || n == 27)
    ensures if a.pen.reverse == (n == 7) then Coloured(a, b, a.v.fg, a.v.bg) else Coloured(a, b, a.v.bg, a.v.fg)
    ensures b.pen == a.pen.(reverse := n == 7)
  {
    RenditionRuns(cfg, [n], a, b);
    OneCode(cfg, RenditionOf(a), n);
  }

  /** A reset, with its code or without any: the default colours, whatever the pen was. */
  lemma {:induction false} ResetCodes(cfg: Config, ps: seq<Word32>, a: State, b: State)
    requires Took(cfg, ControlSequence(ps, 0x6d), a, b) && Ready(a) && (ps == [] || ps == [0])
    ensures Coloured(a, b, cfg.palette.fg, 0xffff_ffff)
    ensures b.pen == Pen(false, false, false, a.pen.charset, -1, -1)
  {
    RenditionRuns(cfg, ps, a, b);
    if ps == [0] { OneCode(cfg, RenditionOf(a), 0); }
  }

  /** Every other code alone does nothing. */
  lemma {:induction false} OtherCodes(cfg: Config, n: Word32, a: State, b: State)
    requires Took(cfg, ControlSequence([n], 0x6d), a, b) && Ready(a)
    requires n !in {0, 1, 5, 7, 22, 25, 27, 39, 49}
             && !(30 <= n <= 37 || 40 <= n <= 47 || 90 <= n <= 97 || 100 <= n <= 107)
    ensures Coloured(a, b, a.v.fg, a.v.bg) && b.pen == a.pen
  {
    RenditionRuns(cfg, [n], a, b);
    OneCode(cfg, RenditionOf(a), n);
  }

  /** Several codes in one sequence are the same as the sequences of their parts. */
  lemma {:induction false} CodesApart(cfg: Config, ps: seq<Word32>, qs: seq<Word32>, a: State, b: State, m: State,
                                      c: State)
    requires Took(cfg, ControlSequence(ps + qs, 0x6d), a, b) && Ready(a) && ps != [] && qs != []
    requires Took(cfg, ControlSequence(ps, 0x6d), a, m) && Took(cfg, ControlSequence(qs, 0x6d), m, c)
    requires |ps + qs| <= MAX_ESC_VALUES && forall k :: 0 <= k < |ps| ==> ps[k] != 38 && ps[k] != 48
    ensures c.v == b.v && c.pen == b.pen && c.modes == b.modes
  {
    RenditionRuns(cfg, ps + qs, a, b);
    RenditionRuns(cfg, ps, a, m);
    RenditionRuns(cfg, qs, m, c);
    CodesInOrder(cfg.palette, cfg.convert, RenditionOf(a), ps, qs, 0);
  }

  /** A colour of three components goes to the front (38) or the back (48) of characters
      as displayed, also in reverse video. */
  lemma {:induction false} TrueColour(cfg: Config, n: Word32, red: Word32, green: Word32, blue: Word32, a: State,
                                      b: State)
    requires Took(cfg, ControlSequence([n, 2, red, green, blue], 0x6d), a, b) && Ready(a) && (n == 38 || n == 48)
    requires red < 256 && green < 256 && blue < 256
    ensures var colour := cfg.convert(red * 65536 + green * 256 + blue);
            Coloured(a, b, if n == 38 then colour else a.v.fg, if n == 48 then colour else a.v.bg) && b.pen == a.pen
  {
    var ps := [n, 2, red, green, blue];
    RenditionRuns(cfg, ps, a, b);
    RgbBytes(red, green, blue);
    var r := RenditionOf(a);
    CodesLast(cfg.palette, cfg.convert, r, ExtendedCode(cfg.palette, cfg.convert, r, ps, 0), ps, 4, false);
  }

  /** A colour of the table of 256: the eight colours, their bright forms and 240 others. */
  lemma {:induction false} IndexedColour(cfg: Config, n: Word32, k: Word32, a: State, b: State)
    requires Took(cfg, ControlSequence([n, 5, k], 0x6d), a, b) && Ready(a) && (n == 38 || n == 48) && k < 256
    ensures PaletteOk(cfg.palette)
    ensures var colour := if k < 8 then cfg.palette.ansi[k] else if k < 16 then cfg.palette.bright[k - 8]
                          else cfg.convert(cfg.palette.others[k - 16]);
            Coloured(a, b, if n == 38 then colour else a.v.fg, if n == 48 then colour else a.v.bg) && b.pen == a.pen
  {
    var ps := [n, 5, k];
    RenditionRuns(cfg, ps, a, b);
    var r := RenditionOf(a);
    CodesLast(cfg.palette, cfg.convert, r, ExtendedCode(cfg.palette, cfg.convert, r, ps, 0), ps, 2, false);
  }

  // ----- coloured text, byte for byte -----

  lemma {:induction false} TwoDigits(d: nat, k: nat)
    requires 1 <= d < 10 && k < 10
    ensures Decimal(10 * d + k) == [0x30 + d, 0x30 + k]
  {
    assert Decimal(d) == [0x30 + d];
  }

  /** ESC [ 3 k m and a character: it has colour `k` and the old background. With 4 for
      the 3 it keeps its foreground and has colour `k` behind it. */
  lemma {:induction false} ColouredText(cfg: Config, d: Byte, k: nat, ch: Byte, a: State, b: State)
    requires k < 8 && 0x20 <= ch <= 0x7e && (d == 0x33 || d == 0x34)
    requires Took(cfg, [0x1b, 0x5b, d, 0x30 + k, 0x6d, ch], a, b) && Ready(a) && PlainNow(a) && PenOk(a.pen)
    requires !a.pen.bold && !a.pen.bgBold && !a.pen.reverse
    ensures StateOk(cfg, a)
    ensures b.v == PutChar(if d == 0x33 then a.v.(fg := cfg.palette.ansi[k]) else a.v.(bg := cfg.palette.ansi[k]), ch)
  {
    var bytes: seq<Byte> := [0x1b, 0x5b, d, 0x30 + k, 0x6d, ch];
    TookOk(cfg, bytes, a, b);
    var n: Word32 := 10 * (d - 0x30) + k;
    TwoDigits(d - 0x30, k);
    assert Parameters([n]) == [d, 0x30 + k];
    assert bytes == ControlSequence([n], 0x6d) + [ch];
    var m := TookSplit(cfg, ControlSequence([n], 0x6d), [ch], a, b);
    if d == 0x33 {
      InkCodes(cfg, n, cfg.palette.ansi[k], a, m);
    } else {
      PaperCodes(cfg, n, cfg.palette.ansi[k], a, m);
    }
    PrintedByte(cfg, ch, m, b);
  }

  /** ESC [ 1 ; 3 k m and a character: it has the bright colour `k`. */
  lemma {:induction false} BrightText(cfg: Config, k: nat, ch: Byte, a: State, b: State)
    requires k < 8 && 0x20 <= ch <= 0x7e && !a.pen.reverse
    requires Took(cfg, [0x1b, 0x5b, 0x31, 0x3b, 0x33, 0x30 + k, 0x6d, ch], a, b) && Ready(a) && PlainNow(a)
    ensures StateOk(cfg, a) && b.v == PutChar(a.v.(fg := cfg.palette.bright[k]), ch)
  {
    var bytes: seq<Byte> := [0x1b, 0x5b, 0x31, 0x3b, 0x33, 0x30 + k, 0x6d, ch];
    TookOk(cfg, bytes, a, b);
    var n: Word32 := 30 + k;
    TwoDigits(3, k);
    BrightBytes(n, k);
    assert bytes == ControlSequence([1, n], 0x6d) + [ch];
    var m := TookSplit(cfg, ControlSequence([1, n], 0x6d), [ch], a, b);
    BoldInk(cfg, k, a, m);
    PrintedByte(cfg, ch, m, b);
  }

  lemma {:induction false} BoldInk(cfg: Config, k: nat, a: State, b: State)
    requires k < 8 && Took(cfg, ControlSequence([1, 30 + k], 0x6d), a, b) && Ready(a) && !a.pen.reverse
    ensures PaletteOk(cfg.palette) && Coloured(a, b, cfg.palette.bright[k], a.v.bg) && b.pen.charset == a.pen.charset
  {
    var n: Word32 := 30 + k;
    RenditionRuns(cfg, [1, n], a, b);
    var r, pal := RenditionOf(a), cfg.palette;
    CodesInOrder(pal, cfg.convert, r, [1], [n], 0);
    assert [1] + [n] == [1, n];
    OneCode(cfg, r, 1);
    OneCode(cfg, PlainCode(pal, r, 1), n);
  }

  lemma {:induction false} BrightBytes(n: Word32, k: nat)
    requires n == 30 + k && k < 8 && Decimal(n) == [0x33, 0x30 + k]
    ensures Parameters([1, n]) == [0x31, 0x3b, 0x33, 0x30 + k]
  {
    assert [1, n][..1] == [1];
    assert Parameters([1]) == Decimal(1) == [0x31];
  }

  /** ESC [ 0 m, or ESC [ m, and a character: it has the default colours. */
  lemma {:induction false} DefaultText(cfg: Config, ch: Byte, a: State, b: State)
    requires Took(cfg, [0x1b, 0x5b, 0x30, 0x6d, ch], a, b) || Took(cfg, [0x1b, 0x5b, 0x6d, ch], a, b)
    requires Ready(a) && PlainNow(a) && 0x20 <= ch <= 0x7e
    ensures StateOk(cfg, a) && b.v == PutChar(a.v.(fg := cfg.palette.fg, bg := 0xffff_ffff), ch)
  {
    assert Decimal(0) == [0x30];
    assert Parameters([0]) == [0x30];
    var ps: seq<Word32> := if Took(cfg, [0x1b, 0x5b, 0x6d, ch], a, b) then [] else [0];
    assert Took(cfg, ControlSequence(ps, 0x6d) + [ch], a, b) by {
      assert [0x1b, 0x5b, 0x30, 0x6d, ch] == ControlSequence([0], 0x6d) + [ch];
      assert [0x1b, 0x5b, 0x6d, ch] == ControlSequence([], 0x6d) + [ch];
    }
    TookOk(cfg, ControlSequence(ps, 0x6d) + [ch], a, b);
    var m := TookSplit(cfg, ControlSequence(ps, 0x6d), [ch], a, b);
    ResetCodes(cfg, ps, a, m);
    PrintedByte(cfg, ch, m, b);
  }

  // ----- text -----

  lemma {:induction false} TextSoFar(cfg: Config, bytes: seq<Byte>, trace: seq<State>, n: nat)
    requires IsFeed(cfg, bytes, trace) && n <= |bytes|
    ensures TextStep(cfg, trace[0], trace[n], bytes, n)
    decreases n
  {
    if n > 0 {
      TextSoFar(cfg, bytes, trace, n - 1);
      assert Fed(cfg, bytes, trace, n - 1);
      TextMore(cfg, trace[0], trace[n - 1], trace[n], bytes, n - 1);
    } else {
      assert bytes[..0] == [];
    }
  }

  /** Printable bytes appear in order. */
  lemma {:induction false} PrintedText(cfg: Config, bytes: seq<Byte>, a: State, b: State)
    requires Took(cfg, bytes, a, b) && Ground(a.p) && PlainNow(a) && Printable(bytes) && StateOk(cfg, a)
    ensures b == a.(v := PutAll(a.v, bytes))
  {
    var trace :| IsFeed(cfg, bytes, trace) && trace[0] == a && trace[|bytes|] == b;
    TextSoFar(cfg, bytes, trace, |bytes|);
    assert bytes[..|bytes|] == bytes;
  }

  /** In insert mode the rest of the line moves right by one and its last character is
      lost. */
  lemma {:induction false} InsertedByte(cfg: Config, ch: Byte, a: State, b: State, cx: nat, cy: nat)
    requires Took(cfg, [ch], a, b) && Ground(a.p) && a.modes.insert && 0x20 <= ch <= 0x7e
    requires (if a.pen.charset == 0 then a.modes.g0 else a.modes.g1) == Default
    requires Shaped(a.v) && CursorOn(a.v) && cx < a.v.cols && cy < a.v.rows
    ensures b.v.x == a.v.x + 1 && b.v.y == a.v.y
    ensures At(b.v, cx, cy) == if cy != a.v.y || cx < a.v.x then At(a.v, cx, cy)
                               else if cx == a.v.x then Cell(ch, a.v.fg, a.v.bg) else At(a.v, cx - 1, cy)
  {
    TookOne(cfg, ch, a, b);
    PutGround(cfg, ch, a, b);
    var u :| MovedRight(a.v, u, CursorY(a.v), CursorX(a.v)) && u == a.v.(text := u.text) && b.v == PutChar(u, ch);
    InsertedAt(a.v, u, ch, cx, cy);
  }

  lemma {:induction false} InsertedAt(v: View, u: View, ch: Glyph, cx: nat, cy: nat)
    requires Shaped(v) && CursorOn(v) && cx < v.cols && cy < v.rows && MovedRight(v, u, v.y, v.x)
    requires u == v.(text := u.text)
    ensures PutChar(u, ch).x == v.x + 1 && PutChar(u, ch).y == v.y
    ensures At(PutChar(u, ch), cx, cy) == if cy != v.y || cx < v.x then At(v, cx, cy)
                                          else if cx == v.x then Cell(ch, v.fg, v.bg) else At(v, cx - 1, cy)
  {
    PrintsHere(u, ch, cx, cy);
    assert At(u, cx, cy) == RightCell(v, v.y, v.x, cx, cy);
  }

  // ----- inserting and deleting -----

  /** Inserting and then deleting `n` characters, byte for byte: everything is restored
      but the last `n` cells of the line, which are blank. */
  lemma {:induction false} InsertDelete(cfg: Config, n: Word32, a: State, b: State)
    requires Took(cfg, ControlSequence([n], 0x40) + ControlSequence([n], 0x50), a, b) && Ready(a) && Shaped(a.v)
    requires 1 <= n <= a.v.cols - CursorX(a.v)
    ensures Restored(a.v, b.v, n)
  {
    var m := TookSplit(cfg, ControlSequence([n], 0x40), ControlSequence([n], 0x50), a, b);
    SequenceRuns(cfg, [n], 0x40, a, m);
    SequenceRuns(cfg, [n], 0x50, m, b);
    InsertDeleteRestores(Quiet(a.v), Quiet(m.v), Quiet(b.v), n);
    RestoredAside(a.v, b.v, n);
  }

  // ----- saving and restoring -----

  lemma {:induction false} NeverSaved(cfg: Config, bytes: seq<Byte>, trace: seq<State>, n: nat)
    requires IsFeed(cfg, bytes, trace) && n <= |bytes|
    ensures Unsaved(bytes, n, trace[0].p, trace[0].saved, trace[n].p, trace[n].saved)
    decreases n
  {
    if n > 0 {
      NeverSaved(cfg, bytes, trace, n - 1);
      assert Fed(cfg, bytes, trace, n - 1);
      var m := trace[n - 1];
      PutKeepsSaved(cfg, bytes[n - 1], m, trace[n]);
      UnsavedMore(bytes, n - 1, trace[0].p, trace[0].saved, m.p, m.saved, trace[n].p, trace[n].saved);
    }
  }

  /** ESC 7 saves, and what follows keeps it. */
  lemma {:induction false} Saves(cfg: Config, a: State, b: State)
    requires Took(cfg, [0x1b, 0x37], a, b) && Ground(a.p)
    ensures b.saved == NowOf(a) && !Awaits(b.p)
  {
    TookEscape(cfg, 0x37, a, b);
  }

  /** CAN and ESC 8 restore, in any state. */
  lemma {:induction false} Restores(cfg: Config, a: State, b: State)
    requires Took(cfg, [0x18] + [0x1b, 0x38], a, b)
    ensures NowOf(b) == a.saved
  {
    var m := TookSplit(cfg, [0x18], [0x1b, 0x38], a, b);
    TookOne(cfg, 0x18, a, m);
    TookEscape(cfg, 0x38, m, b);
  }

  /** Save, any bytes, cancel, restore: unless one of the bytes saves again, the pen, the
      colours and the cursor are those of the save. */
  lemma {:induction false} SaveRestore(cfg: Config, bytes: seq<Byte>, trace: seq<State>, a: State, b: State)
    requires IsFeed(cfg, bytes, trace) && Took(cfg, [0x1b, 0x37], a, trace[0]) && Ground(a.p)
    requires Took(cfg, [0x18] + [0x1b, 0x38], trace[|bytes|], b) && (NeverSaves(bytes) || NoneSaved(bytes, trace))
    ensures b.pen == a.pen && b.v.fg == a.v.fg && b.v.bg == a.v.bg && b.v.x == a.v.x && b.v.y == a.v.y
  {
    Saves(cfg, a, trace[0]);
    if NeverSaves(bytes) {
      NeverSaved(cfg, bytes, trace, |bytes|);
    } else {
      SavedThroughout(cfg, bytes, trace, |bytes|);
    }
    Restores(cfg, trace[|bytes|], b);
  }

  /** ESC [ s remembers the cursor, and ESC [ u returns to it. */
  lemma {:induction false} RememberedCursor(cfg: Config, a: State, m: State, n: State, b: State)
    requires Took(cfg, [0x1b, 0x5b, 0x73], a, m) && Ready(a) && CursorOn(a.v)
    requires Took(cfg, [0x1b, 0x5b, 0x75], n, b) && Ready(n) && n.sx == m.sx && n.sy == m.sy
    requires n.v.rows == a.v.rows && n.v.cols == a.v.cols
    ensures m.v == a.v && b.v == n.v.(x := a.v.x, y := a.v.y)
  {
    assert [0x1b, 0x5b, 0x73] == ControlSequence([], 0x73) && [0x1b, 0x5b, 0x75] == ControlSequence([], 0x75);
    SequenceRuns(cfg, [], 0x73, a, m);
    SequenceRuns(cfg, [], 0x75, n, b);
  }

  // ----- strings that are not shown -----

  /** Bytes that neither end a string nor cancel it. */
  predicate Inert(bytes: seq<Byte>) {
    forall i :: 0 <= i < |bytes| ==> bytes[i] < 0x80 && bytes[i] !in {0x07, 0x18, 0x1a, 0x1b}
  }

  predicate InString(p: Progress) {
    !p.discardNext && p.unicodeRemaining == 0 && p.escape && p.osc && !p.oscEscape && p.gSelect == 0
  }

  lemma {:induction false} StringSilent(cfg: Config, bytes: seq<Byte>, a: State, b: State)
    requires Took(cfg, bytes, a, b) && InString(a.p) && Inert(bytes)
    ensures Further(a, b)
    decreases |bytes|
  {
    if bytes == [] {
      TookNone(cfg, a, b);
    } else {
      var m := TookFirst(cfg, bytes, a, b);
      StringSilent(cfg, bytes[1..], m, b);
    }
  }

  /** An operating system command, ended by BEL, changes nothing. */
  lemma {:induction false} StringIgnored(cfg: Config, bytes: seq<Byte>, a: State, b: State)
    requires Took(cfg, [0x1b, 0x5d] + bytes + [0x07], a, b) && Ground(a.p) && !a.p.controlSequence && Inert(bytes)
    ensures b == a.(p := b.p) && Ground(b.p)
  {
    var m := TookSplit(cfg, [0x1b, 0x5d] + bytes, [0x07], a, b);
    var n := TookSplit(cfg, [0x1b, 0x5d], bytes, a, m);
    TookEscape(cfg, 0x5d, a, n);
    StringSilent(cfg, bytes, n, m);
    TookOne(cfg, 0x07, m, b);
  }

  // ----- off the screen -----

  lemma {:induction false} OneTooMany(v: View, bytes: seq<Byte>)
    requires Shaped(v) && v.x == 0 && v.y == v.rows - 1 && v.bottom < v.rows < v.cols && v.scrolling
             && |bytes| == v.cols + 1
    ensures PutAll(v, bytes).y == v.rows
  {
    TextOnLine(v, bytes[..v.cols]);
  }

  /** A scroll region of the first two rows, and the cursor on the last row. */
  lemma {:induction false} ToLastRow(cfg: Config, a: State, b: State)
    requires 3 <= a.v.rows < WORD && Shaped(a.v) && Ready(a)
    requires Took(cfg, ControlSequence([1, 2], 0x72) + ControlSequence([a.v.rows, 1], 0x48), a, b)
    ensures b.v == a.v.(top := 0, bottom := 2, x := 0, y := a.v.rows - 1)
    ensures Ready(b) && b.modes == a.modes && b.pen == a.pen
  {
    var rows: Word32 := a.v.rows;
    var m := TookSplit(cfg, ControlSequence([1, 2], 0x72), ControlSequence([rows, 1], 0x48), a, b);
    SequenceRuns(cfg, [1, 2], 0x72, a, m);
    SequenceRuns(cfg, [rows, 1], 0x48, m, b);
  }

  /** How the cursor leaves a wide screen: a scroll region of its first two rows, the
      cursor on the last row, and a line of text and one character more. */
  lemma {:induction false} OffScreen(cfg: Config, bytes: seq<Byte>, a: State, b: State)
    requires 3 <= a.v.rows < a.v.cols < WORD && Shaped(a.v) && a.v.scrolling && Ready(a) && PlainNow(a)
    requires |bytes| == a.v.cols + 1 && Printable(bytes)
    requires Took(cfg, (ControlSequence([1, 2], 0x72) + ControlSequence([a.v.rows, 1], 0x48)) + bytes, a, b)
    ensures b.v.y == a.v.rows == b.v.rows
  {
    var m := TookSplit(cfg, ControlSequence([1, 2], 0x72) + ControlSequence([a.v.rows, 1], 0x48), bytes, a, b);
    ToLastRow(cfg, a, m);
    TookOk(cfg, bytes, m, b);
    PrintedText(cfg, bytes, m, b);
    OneTooMany(m.v, bytes);
  }

  // ----- longer characters -----

  /** A character in UTF-8, of two to four bytes. */
  function Utf8(cp: nat): seq<Byte>
    requires 0x80 <= cp < 0x20_0000
  {
    if cp < 0x800 then [0xc0 + cp / 64, 0x80 + cp % 64]
    else if cp < 0x1_0000 then [0xe0 + cp / 4096, 0x80 + cp / 64 % 64, 0x80 + cp % 64]
    else [0xf0 + cp / 262144, 0x80 + cp / 4096 % 64, 0x80 + cp / 64 % 64, 0x80 + cp % 64]
  }

  /** The state after the character `cp`. */
  ghost predicate Runed(cfg: Config, cp: nat, a: State, b: State)
    requires a.v.bottom > 0 && a.v.cols > 0
  {
    && b == a.(p := a.p.(unicodeRemaining := 0, codePoint := cp),
               v := PutRune(a.v, cfg.glyphOf(cp), cfg.widthOf(cp)))
  }

  lemma {:induction false} OneMore(cfg: Config, cp: nat, a: State, b: State)
    requires Took(cfg, [0x80 + cp % 64], a, b) && Pending(a.p, 1, cp / 64 * 64)
    ensures StateOk(cfg, a) && Runed(cfg, cp, a, b)
  {
    TookOne(cfg, 0x80 + cp % 64, a, b);
  }

  lemma {:induction false} TwoMore(cfg: Config, cp: nat, a: State, b: State)
    requires Took(cfg, [0x80 + cp / 64 % 64, 0x80 + cp % 64], a, b) && Pending(a.p, 2, cp / 4096 * 4096)
    ensures StateOk(cfg, a) && Runed(cfg, cp, a, b)
  {
    var bytes: seq<Byte> := [0x80 + cp / 64 % 64, 0x80 + cp % 64];
    var m := TookFirst(cfg, bytes, a, b);
    assert bytes[1..] == [0x80 + cp % 64];
    Slots(cp);
    OneMore(cfg, cp, m, b);
  }

  lemma {:induction false} ThreeMore(cfg: Config, cp: nat, a: State, b: State)
    requires Took(cfg, [0x80 + cp / 4096 % 64, 0x80 + cp / 64 % 64, 0x80 + cp % 64], a, b)
    requires Pending(a.p, 3, cp / 262144 * 262144)
    ensures StateOk(cfg, a) && Runed(cfg, cp, a, b)
  {
    var bytes: seq<Byte> := [0x80 + cp / 4096 % 64, 0x80 + cp / 64 % 64, 0x80 + cp % 64];
    var m := TookFirst(cfg, bytes, a, b);
    assert bytes[1..] == [0x80 + cp / 64 % 64, 0x80 + cp % 64];
    Slots(cp);
    TwoMore(cfg, cp, m, b);
  }

  lemma {:induction false} Heads(cp: nat)
    requires 0x80 <= cp < 0x20_0000
    ensures var c := Utf8(cp)[0];
            && 0xc0 <= c <= 0xf7 && RuneTail(c) == |Utf8(cp)| - 1
            && RuneHead(c) == if cp < 0x800 then cp / 64 * 64 else if cp < 0x1_0000 then cp / 4096 * 4096
                              else cp / 262144 * 262144
  {
  }

  lemma {:induction false} RuneStarted(cfg: Config, c: Byte, a: State, b: State)
    requires PutStep(cfg, c, a, b) && Ground(a.p) && 0xc0 <= c <= 0xf7
    ensures StateOk(cfg, a) && b == a.(p := b.p) && Pending(b.p, RuneTail(c), RuneHead(c))
    ensures b.p == a.p.(unicodeRemaining := RuneTail(c), codePoint := RuneHead(c))
  {
  }

  /** Every character of two to four bytes is decoded to its code point and printed. */
  lemma {:induction false} RuneRead(cfg: Config, cp: nat, a: State, b: State)
    requires 0x80 <= cp < 0x20_0000 && Took(cfg, Utf8(cp), a, b) && Ground(a.p)
    ensures StateOk(cfg, a) && Runed(cfg, cp, a, b)
  {
    var bytes := Utf8(cp);
    var m := TookFirst(cfg, bytes, a, b);
    Heads(cp);
    RuneStarted(cfg, bytes[0], a, m);
    RuneRest(cfg, cp, m, b);
  }

  /** The character is shown by its glyph, or by a replacement mark and spaces up to its
      width if there is none. */
  lemma {:induction false} RuneShown(cfg: Config, cp: nat, a: State, b: State)
    requires 0x80 <= cp < 0x20_0000 && Took(cfg, Utf8(cp), a, b) && Ground(a.p)
    ensures StateOk(cfg, a)
    ensures 0 <= cfg.glyphOf(cp) < 256 ==> b.v == PutChar(a.v, cfg.glyphOf(cp))
    ensures cfg.glyphOf(cp) == -1 && cfg.widthOf(cp) > 0 ==>
              b.v == PutAll(a.v, [0xfe] + seq(cfg.widthOf(cp) - 1, i => 0x20))
  {
    RuneRead(cfg, cp, a, b);
    if cfg.glyphOf(cp) == -1 && cfg.widthOf(cp) > 0 {
      Replacement(a.v, cfg.widthOf(cp));
    }
  }

  lemma {:induction false} Replacement(v: View, width: nat)
    requires v.bottom > 0 && v.cols > 0 && width > 0
    ensures PutReplacement(v, width) == PutAll(v, [0xfe] + seq(width - 1, i => 0x20))
    decreases width
  {
    var all: seq<Byte> := [0xfe] + seq(width - 1, i => 0x20);
    if width > 1 {
      var front: seq<Byte> := [0xfe] + seq(width - 2, i => 0x20);
      assert all[..|all| - 1] == front;
      Replacement(v, width - 1);
    } else {
      assert all[..0] == [];
      assert PutAll(v, all[..0]) == v;
    }
  }

  lemma {:induction false} RuneRest(cfg: Config, cp: nat, m: State, b: State)
    requires 0x80 <= cp < 0x20_0000 && Took(cfg, Utf8(cp)[1..], m, b)
    requires Pending(m.p, |Utf8(cp)| - 1, if cp < 0x800 then cp / 64 * 64 else if cp < 0x1_0000 then cp / 4096 * 4096
                                          else cp / 262144 * 262144)
    ensures StateOk(cfg, m) && Runed(cfg, cp, m, b)
  {
    var rest := Utf8(cp)[1..];
    if cp < 0x800 {
      assert rest == [0x80 + cp % 64];
      OneMore(cfg, cp, m, b);
    } else if cp < 0x1_0000 {
      assert rest == [0x80 + cp / 64 % 64, 0x80 + cp % 64];
      TwoMore(cfg, cp, m, b);
    } else {
      assert rest == [0x80 + cp / 4096 % 64, 0x80 + cp / 64 % 64, 0x80 + cp % 64];
      ThreeMore(cfg, cp, m, b);
    }
  }
}

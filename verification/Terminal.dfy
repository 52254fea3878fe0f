/** The escape-sequence state machine that drives the screen, byte by byte. */
module Terminals {
  import opened Rows
  import opened Pixels
  import opened TextView
  import opened RowEdits
  import opened Erasing
  import opened Screens
  import opened ScreenEdits
  import opened Rendering
  import opened Commands
  import opened Parsing

  lemma {:induction false} RanEdit(cfg: Config, c: char, a: State, b: State)
    requires StateOk(cfg, a) && EditByte(c) && EditDone(c, a.v, b.v, a.values[0]) && b == a.(v := b.v)
    ensures IsCommand(c) && Executed(cfg, c, a, b)
  {
  }

  lemma {:induction false} RanCursor(cfg: Config, c: char, a: State, b: State)
    requires StateOk(cfg, a) && CursorByte(c) && b == a.(v := b.v)
    requires b.v == CursorMoved(c, a.v, Args(a.values[0], a.values[1], a.p.escValuesI, a.sx, a.sy))
    ensures IsCommand(c) && Executed(cfg, c, a, b)
  {
  }

  lemma {:induction false} RanOther(cfg: Config, c: char, a: State, b: State)
    requires StateOk(cfg, a) && OtherByte(c)
    requires OtherDone(c, a.v, b.v, Args(a.values[0], a.values[1], a.p.escValuesI, a.sx, a.sy))
    requires b == a.(v := b.v, pen := b.pen,
                     modes := a.modes.(insert := InsertAfter(c, a.modes.insert, a.values[..a.p.escValuesI])),
                     sx := if c == 's' then CursorX(a.v) else a.sx, sy := if c == 's' then CursorY(a.v) else a.sy)
    requires if c == 'm' then RenditionOf(b) == Rendered(cfg, RenditionOf(a), a.values[..a.p.escValuesI])
             else b.pen == a.pen
    ensures IsCommand(c) && Executed(cfg, c, a, b)
  {
  }

  class Terminal {
    const screen: Screen
    const palette: Palette
    /** Colour conversion and the character tables. */
    const convert: int -> int
    const glyphOf: int -> int
    const widthOf: int -> nat
    const decSpecial: map<Byte, Glyph>
    const tabSize: nat
    const escValues: array<Word32>
    var progress: Progress
    var pen: Pen
    var saved: Saved
    var charset0: Charset
    var charset1: Charset
    var autoflush: bool
    var insertMode: bool
    var onlcr: bool
    var savedCursorX: nat
    var savedCursorY: nat

    ghost predicate Parser()
      reads this
    {
      && escValues.Length == MAX_ESC_VALUES && tabSize > 0 && PaletteOk(palette)
      && ProgressOk(progress) && PenOk(pen) && PenOk(saved.pen)
    }

    ghost predicate Valid()
      reads this, screen, screen.grid, screen.queue, screen.slots, screen.frame, screen.frame.pixels
    {
      Parser() && screen.Valid()
    }

    constructor (s: Screen, colours: Palette, rgb: int -> int, glyphs: int -> int, widths: int -> nat,
      special: map<Byte, Glyph>)
      requires s.Valid() && PaletteOk(colours)
      ensures Valid() && progress == AT_REST && screen == s && palette == colours && fresh(escValues)
    {
      screen, palette, convert, glyphOf, widthOf, decSpecial, tabSize := s, colours, rgb, glyphs, widths, special, 8;
      escValues := new Word32[MAX_ESC_VALUES](i => 0);
      progress, pen, saved := AT_REST, PLAIN_PEN, Saved(Pen(false, false, false, 0, 0, 0), 0, 0, 0, 0);
      charset0, charset1, autoflush, insertMode, onlcr := Default, DecSpecial, true, false, true;
      savedCursorX, savedCursorY := 0, 0;
    }

    ghost function Cfg(): Config {
      Config(palette, convert, glyphOf, widthOf, decSpecial, tabSize)
    }

    // ----- colours -----

    ghost function Shown(): Rendition
      reads this, screen
    {
      Rendition(pen, LookOf(pen, screen.textFg, screen.textBg))
    }

    method PaintColour(front: bool, colour: int)
      requires Parser()
      modifies screen`textFg, screen`textBg
      ensures Parser() && Shown() == Display(old(Shown()), front, colour)
    {
      if front {
        screen.textFg := colour;
      } else {
        screen.textBg := colour;
      }
    }

    method Paint(front: bool, k: int, bright: bool)
      requires Parser() && 0 <= k < 8
      modifies screen`textFg, screen`textBg
      ensures Parser() && Shown() == Display(old(Shown()), front, Colour(palette, k, bright))
    {
      PaintColour(front, if bright then palette.bright[k] else palette.ansi[k]);
    }

    method PaintDefault(front: bool, bright: bool)
      requires Parser()
      modifies screen`textFg, screen`textBg
      ensures Parser() && Shown() == Display(old(Shown()), front, DefaultColour(palette, front, bright))
    {
      if front {
        PaintColour(true, if bright then palette.fgBright else palette.fg);
      } else {
        PaintColour(false, if bright then palette.bgBright else TRANSPARENT);
      }
    }

    method PaintOrDefault(front: bool, k: int, bright: bool)
      requires Parser() && ColourOk(k)
      modifies screen`textFg, screen`textBg
      ensures Parser() && Shown() == Display(old(Shown()), front, Chosen(palette, k, front, bright))
    {
      if k != NO_COLOUR {
        Paint(front, k, bright);
      } else {
        PaintDefault(front, bright);
      }
    }

    method SwapPalette()
      requires Parser()
      modifies screen`textFg, screen`textBg
      ensures Parser() && screen.textFg == old(screen.textBg) && screen.textBg == old(screen.textFg)
    {
      screen.textFg, screen.textBg := screen.textBg, screen.textFg;
    }

    method ResetPen()
      requires Parser()
      modifies this`pen, screen`textFg, screen`textBg
      ensures Parser() && Shown() == PlainCode(palette, old(Shown()), 0)
    {
      if pen.reverse {
        SwapPalette();
      }
      pen := PLAIN_PEN.(charset := pen.charset);
      PaintDefault(false, false);
      PaintDefault(true, false);
    }

    /** A default colour set on the unswapped palette. */
    method PaintDefaultUnswapped(front: bool, bright: bool)
      requires Parser()
      modifies screen`textFg, screen`textBg
      ensures Parser() && Shown() == Display(old(Shown()), front != pen.reverse, DefaultColour(palette, front, bright))
    {
      if pen.reverse {
        SwapPalette();
      }
      if front {
        screen.textFg := if bright then palette.fgBright else palette.fg;
      } else {
        screen.textBg := if bright then palette.bgBright else TRANSPARENT;
      }
      if pen.reverse {
        SwapPalette();
      }
    }

    method SetPen(p: Pen)
      requires Parser() && PenOk(p)
      modifies this`pen
      ensures Parser() && pen == p
    {
      pen := p;
    }

    /** One parameter of a colour sequence other than an extended colour. */
    method SgrPlain(v: nat)
      requires Parser()
      modifies this`pen, screen`textFg, screen`textBg
      ensures Parser() && Shown() == PlainCode(palette, old(Shown()), v)
    {
      var front := !pen.reverse;
      if v == 0 {
        ResetPen();
      } else if v == 1 {
        SetPen(pen.(bold := true));
        PaintOrDefault(front, pen.primary, true);
      } else if v == 5 {
        SetPen(pen.(bgBold := true));
        PaintOrDefault(!front, pen.bg, true);
      } else if v == 22 {
        SetPen(pen.(bold := false));
        PaintOrDefault(front, pen.primary, false);
      } else if v == 25 {
        SetPen(pen.(bgBold := false));
        PaintOrDefault(!front, pen.bg, false);
      } else if v == 7 || v == 27 {
        SgrReverse(v == 7);
      } else {
        SgrColour(v);
      }
    }

    method SgrReverse(on: bool)
      requires Parser()
      modifies this`pen, screen`textFg, screen`textBg
      ensures Parser() && pen == old(pen).(reverse := on) && Shown().look == old(Shown()).look
    {
      if pen.reverse != on {
        SetPen(pen.(reverse := on));
        SwapPalette();
      }
    }

    method SgrColour(v: nat)
      requires Parser()
      modifies this`pen, screen`textFg, screen`textBg
      ensures Parser() && Shown() == ColourCode(palette, old(Shown()), v)
    {
      if 30 <= v <= 39 || 90 <= v <= 97 {
        SgrInk(v);
      } else {
        SgrPaper(v);
      }
    }

    method SgrInk(v: nat)
      requires 30 <= v <= 39 || 90 <= v <= 97
      requires Parser()
      modifies this`pen, screen`textFg, screen`textBg
      ensures Parser() && Shown() == ColourCode(palette, old(Shown()), v)
    {
      var front := !pen.reverse;
      if v <= 37 {
        SetPen(pen.(primary := v - 30));
        Paint(front, v - 30, pen.bold);
      } else if 90 <= v {
        SetPen(pen.(primary := v - 90));
        Paint(front, v - 90, true);
      } else if v == 39 {
        SetPen(pen.(primary := NO_COLOUR));
        PaintDefaultUnswapped(true, pen.bold);
      }
    }

    method SgrPaper(v: nat)
      requires !(30 <= v <= 39 || 90 <= v <= 97)
      requires Parser()
      modifies this`pen, screen`textFg, screen`textBg
      ensures Parser() && Shown() == ColourCode(palette, old(Shown()), v)
    {
      var back := pen.reverse;
      if 40 <= v <= 47 {
        SetPen(pen.(bg := v - 40));
        Paint(back, v - 40, pen.bgBold);
      } else if 100 <= v <= 107 {
        SetPen(pen.(bg := v - 100));
        Paint(back, v - 100, true);
      } else if v == 49 {
        SetPen(pen.(bg := NO_COLOUR));
        PaintDefaultUnswapped(false, pen.bgBold);
      }
    }

    /** An extended colour; `i` is the index of its kind. */
    method SgrExtended(front: bool, i: nat) returns (next: nat, stop: bool)
      requires Parser() && 0 < i < progress.escValuesI && front == (escValues[i - 1] == 38)
      modifies screen`textFg, screen`textBg
      ensures Parser()
      ensures var vals := escValues[..progress.escValuesI];
              stop == (ExtendedLength(vals, i - 1) == 0)
              && (stop ==> Shown() == old(Shown()))
              && (!stop ==> next + 1 == i - 1 + ExtendedLength(vals, i - 1) && next < progress.escValuesI
                            && Shown() == ExtendedCode(palette, convert, old(Shown()), vals, i - 1))
    {
      next, stop := i, false;
      if escValues[i] == 2 {
        if i + 3 >= progress.escValuesI {
          return i, true;
        }
        next := i + 3;
        PaintColour(front, convert(Rgb(escValues[i + 1], escValues[i + 2], escValues[i + 3])));
      } else if escValues[i] == 5 {
        if i + 1 >= progress.escValuesI {
          return i, true;
        }
        var k := escValues[i + 1];
        next := i + 1;
        if k < 8 {
          Paint(front, k, false);
        } else if k < 16 {
          Paint(front, k - 8, true);
        } else if k < 256 {
          PaintColour(front, convert(palette.others[k - 16]));
        }
      }
    }

    /** The parameter at `i`, and an extended colour's further ones. */
    method SgrStep(i: nat) returns (next: nat, stop: bool)
      requires Parser() && i < progress.escValuesI
      modifies this`pen, screen`textFg, screen`textBg
      ensures Parser() && (!stop ==> i <= next < progress.escValuesI)
      ensures CodeStep(palette, convert, old(Shown()), Shown(), escValues[..progress.escValuesI], i, next, stop)
    {
      if escValues[i] != 38 && escValues[i] != 48 {
        SgrPlain(escValues[i]);
        return i, false;
      }
      if i + 1 >= progress.escValuesI {
        return i + 1, true;
      }
      next, stop := SgrExtended(escValues[i] == 38, i + 1);
    }

    /** Select graphic rendition: ink and paper change as the codes say, one after the
        other, and nothing else does. */
    method Sgr()
      requires Parser()
      modifies this`pen, screen`textFg, screen`textBg
      ensures Parser()
      ensures Shown() == Rendered(Cfg(), old(Shown()), escValues[..progress.escValuesI])
    {
      if progress.escValuesI == 0 {
        ResetPen();
        return;
      }
      ghost var vals := escValues[..progress.escValuesI];
      ghost var goal := Codes(palette, convert, Shown(), vals, 0);
      var i := 0;
      while i < progress.escValuesI
        invariant Parser() && Codes(palette, convert, Shown(), vals, i) == goal
      {
        ghost var before := Shown();
        var next, stop := SgrStep(i);
        CodesMore(palette, convert, before, Shown(), vals, i, next, stop);
        if stop {
          return;
        }
        i := next + 1;
      }
    }

    // ----- state -----

    method ReinitParser()
      requires Parser()
      modifies this`progress, this`pen, this`charset0, this`charset1, this`autoflush, this`insertMode, this`onlcr
      modifies this`savedCursorX, this`savedCursorY
      ensures Parser() && progress == AT_REST.(codePoint := old(progress.codePoint)) && pen == PLAIN_PEN
      ensures charset0 == Default && charset1 == DecSpecial && autoflush && !insertMode && onlcr
      ensures savedCursorX == savedCursorY == 0
    {
      progress := AT_REST.(codePoint := progress.codePoint);
      pen, charset0, charset1 := PLAIN_PEN, Default, DecSpecial;
      autoflush, insertMode, onlcr, savedCursorX, savedCursorY := true, false, true, 0, 0;
    }

    method Reinit()
      requires Valid()
      modifies this`progress, this`pen, this`charset0, this`charset1, this`autoflush, this`insertMode, this`onlcr
      modifies this`savedCursorX, this`savedCursorY
      modifies screen`cursorEnabled, screen`scrollEnabled, screen`scrollTop, screen`scrollBottom
      ensures Valid()
      ensures S() == old(S()).(p := AT_REST.(codePoint := old(progress.codePoint)), pen := PLAIN_PEN,
                modes := START_MODES, sx := 0, sy := 0,
                v := old(screen.V()).(top := 0, bottom := screen.rows, scrolling := true))
    {
      ReinitParser();
      screen.cursorEnabled, screen.scrollEnabled := true, true;
      screen.SetMargins(0, screen.rows);
    }

    /** The pen, the colours and the cursor. */
    ghost function Now(): Saved
      reads this, screen
    {
      Saved(pen, screen.textFg, screen.textBg, screen.cursorX, screen.cursorY)
    }

    method SaveState()
      requires Valid()
      modifies this`saved
      ensures Valid() && saved == Now()
    {
      saved := Saved(pen, screen.textFg, screen.textBg, screen.cursorX, screen.cursorY);
    }

    method RestoreState()
      requires Valid()
      modifies this`pen, screen`textFg, screen`textBg, screen`cursorX, screen`cursorY
      ensures Valid() && Now() == saved
    {
      pen := saved.pen;
      screen.textFg, screen.textBg, screen.cursorX, screen.cursorY := saved.fg, saved.bg, saved.x, saved.y;
    }

    method ResetTerminal()
      requires Valid()
      modifies this`progress, this`pen, this`charset0, this`charset1, this`autoflush, this`insertMode, this`onlcr
      modifies this`savedCursorX, this`savedCursorY
      modifies screen`cursorEnabled, screen`scrollEnabled, screen`scrollTop, screen`scrollBottom
      modifies screen`queueI, screen`text, screen`cursorX, screen`cursorY, screen.queue, screen.slots
      ensures Valid() && S() == AfterReset(old(S()))
    {
      Reinit();
      screen.ClearScreen(true);
    }

    ghost function S(): State
      reads this, escValues, screen
    {
      State(progress, escValues[..], screen.V(), pen,
        Modes(charset0, charset1, insertMode, onlcr, autoflush, screen.cursorEnabled),
        saved, savedCursorX, savedCursorY)
    }

    method SetProgress(p: Progress)
      requires Valid() && ProgressOk(p)
      modifies this`progress
      ensures Valid() && S() == old(S()).(p := p)
    {
      progress := p;
    }

    /** A string ends at BEL or at ESC followed by a backslash; after ESC any other byte
        is not consumed, but starts another escape sequence. */
    method OscParse(c: Byte) returns (consumed: bool)
      requires Parser() && progress.osc
      modifies this`progress
      ensures Parser() && consumed == !(old(progress.oscEscape) && c != 0x5c)
      ensures progress == if old(progress.oscEscape) && c != 0x5c then old(progress).(osc := false, oscEscape := false)
                          else OscNext(old(progress), c)
    {
      if progress.oscEscape {
        progress := progress.(oscEscape := false, osc := false);
        if c == 0x5c {
          progress := progress.(escape := false);
          return true;
        }
        return false;
      }
      if c == 0x1b {
        progress := progress.(oscEscape := true);
      } else if c == 0x07 {
        progress := progress.(oscEscape := false, osc := false, escape := false);
      }
      return true;
    }

    method DecPrivateParse(c: char)
      requires Parser()
      modifies this`progress, screen`cursorEnabled
      ensures Parser() && progress == old(progress).(decPrivate := false)
      ensures screen.cursorEnabled == CursorAfter(c, old(screen.cursorEnabled), escValues[..progress.escValuesI])
    {
      progress := progress.(decPrivate := false);
      if progress.escValuesI == 0 || (c != 'h' && c != 'l') {
        return;
      }
      if escValues[0] == 25 {
        screen.cursorEnabled := c == 'h';
      }
    }

    method ModeToggle(c: char)
      requires Parser()
      modifies this`insertMode
      ensures Parser() && insertMode == InsertAfter(c, old(insertMode), escValues[..progress.escValuesI])
    {
      if progress.escValuesI > 0 && (c == 'h' || c == 'l') && escValues[0] == 4 {
        insertMode := c == 'h';
      }
    }

    // ----- control sequences -----

    /** Cursor movement. Up and down stop at a margin they would cross. */
    method MoveUp(x: nat, y: nat, n: nat)
      requires screen.Valid() && y < screen.rows
      modifies screen`cursorX, screen`cursorY
      ensures screen.Valid() && screen.V() == SetCursor(old(screen.V()), x, RowAbove(y, n, screen.scrollTop))
    {
      var top, bottom := screen.scrollTop, screen.scrollBottom;
      var dest := if n > y then 0 else y - n;
      var crosses := (top >= dest && top <= y) || (bottom >= dest && bottom <= y);
      if crosses && dest < top {
        dest := top;
      }
      screen.SetCursorPos(x, dest);
    }

    method MoveDown(x: nat, y: nat, n: nat)
      requires screen.Valid() && y < screen.rows
      modifies screen`cursorX, screen`cursorY
      ensures screen.Valid() && screen.V() == SetCursor(old(screen.V()), x,
              RowBelow(y, n, screen.scrollBottom, screen.rows))
    {
      var top, bottom := screen.scrollTop, screen.scrollBottom;
      var dest := if y + n > screen.rows - 1 then screen.rows - 1 else y + n;
      var crosses := (top >= y && top <= dest) || (bottom >= y && bottom <= dest);
      if crosses && dest >= bottom {
        dest := bottom - 1;
      }
      screen.SetCursorPos(x, dest);
    }

    /** The scroll region: adopted if it is at least two rows inside the screen. */
    method SetMargins(first: Word32, second: Word32)
      requires screen.Valid()
      modifies screen`scrollTop, screen`scrollBottom, screen`cursorX, screen`cursorY
      ensures screen.Valid()
      ensures OtherDone('r', old(screen.V()), screen.V(), Args(first, second, progress.escValuesI, savedCursorX,
              savedCursorY))
    {
      var top, bottom := 0, screen.rows;
      if progress.escValuesI > 0 {
        top := (if first == 0 then 1 else first) - 1;
      }
      if progress.escValuesI > 1 {
        bottom := if second == 0 then 1 else second;
      }
      if top >= screen.rows || bottom > screen.rows || top >= bottom - 1 {
        top, bottom := 0, screen.rows;
      }
      screen.SetMargins(top, bottom);
      screen.SetCursorPos(0, 0);
    }

    /** What a command has to go by. */
    ghost function Given2(): Args
      reads this, escValues
      requires Parser()
    {
      Args(escValues[0], escValues[1], progress.escValuesI, savedCursorX, savedCursorY)
    }

    method MoveCommand(c: char, x: nat, y: nat)
      requires Parser() && screen.Valid() && x == CursorX(screen.V()) && y == CursorY(screen.V())
      requires c in {'A', 'F', 'B', 'e', 'E', 'a', 'C', 'D'}
      modifies screen`cursorX, screen`cursorY
      ensures screen.Valid() && screen.V() == CursorMoved(c, old(screen.V()), Given2())
    {
      var n := escValues[0];
      var last := screen.cols - 1;
      match c {
        case 'F' => MoveUp(0, y, n);
        case 'A' => MoveUp(x, y, n);
        case 'E' => MoveDown(0, y, n);
        case 'a' => screen.SetCursorPos(if x + n > last then last else x + n, y);
        case 'C' => screen.SetCursorPos(if x + n > last then last else x + n, y);
        case 'D' => screen.SetCursorPos(if n > x then 0 else x - n, y);
        case _ => MoveDown(x, y, n);
      }
    }

    method PlaceCommand(c: char, x: nat, y: nat)
      requires Parser() && screen.Valid() && x == CursorX(screen.V()) && y == CursorY(screen.V())
      requires c in {'d', 'G', '`', 'H', 'f', 'u'}
      modifies screen`cursorX, screen`cursorY
      ensures screen.Valid() && screen.V() == CursorMoved(c, old(screen.V()), Given2())
    {
      var n, m := escValues[0], escValues[1];
      var rows, cols := screen.rows, screen.cols;
      match c {
        case 'd' => screen.SetCursorPos(x, AtMost(Less1(n), rows));
        case 'G' => screen.SetCursorPos(AtMost(Less1(n), cols), y);
        case '`' => screen.SetCursorPos(AtMost(Less1(n), cols), y);
        case 'u' => screen.SetCursorPos(savedCursorX, savedCursorY);
        case _ => screen.SetCursorPos(AtMost(Back1(m), cols), AtMost(Back1(n), rows));
      }
    }

    method CursorCommand(c: char, x: nat, y: nat)
      requires Parser() && screen.Valid() && x == CursorX(screen.V()) && y == CursorY(screen.V()) && CursorByte(c)
      modifies screen`cursorX, screen`cursorY
      ensures screen.Valid() && screen.V() == CursorMoved(c, old(screen.V()), Given2())
    {
      if c in {'A', 'F', 'B', 'e', 'E', 'a', 'C', 'D'} {
        MoveCommand(c, x, y);
      } else {
        PlaceCommand(c, x, y);
      }
    }

    /** Commands that change the text. */
    method EditCommand(c: char, x: nat, y: nat)
      requires Parser() && screen.Valid() && x == CursorX(screen.V()) && y == CursorY(screen.V()) && EditByte(c)
      modifies screen`queueI, screen`text, screen`cursorX, screen`cursorY, screen`scrollTop, screen.queue, screen.slots
      ensures screen.Valid() && EditDone(c, old(screen.V()), screen.V(), escValues[0])
    {
      var n := escValues[0];
      var count := if n > screen.rows then screen.rows else n;
      match c {
        case '@' => InsertBlanks(screen, x, y, n);
        case 'P' => DeleteChars(screen, x, y, n);
        case 'X' => EraseChars(screen, x, y, n);
        case 'M' => DeleteLines(screen, count);
        case 'L' => screen.InsertLines(y, count);
        case 'J' => EraseInDisplay(screen, x, y, n);
        case _ => EraseInLine(screen, x, y, n);
      }
    }

    /** The other commands. */
    method OtherCommand(c: char, x: nat, y: nat)
      requires Valid() && OtherByte(c)
      modifies this`pen, this`insertMode, this`savedCursorX, this`savedCursorY
      modifies screen`textFg, screen`textBg, screen`cursorX, screen`cursorY, screen`scrollTop, screen`scrollBottom
      ensures Valid() && OtherDone(c, old(screen.V()), screen.V(), old(Given2()))
      ensures savedCursorX == (if c == 's' then x else old(savedCursorX)) && savedCursorY == if c == 's' then y
              else old(savedCursorY)
      ensures if c == 'm' then Shown() == Rendered(Cfg(), old(Shown()), escValues[..progress.escValuesI])
              else pen == old(pen)
      ensures insertMode == InsertAfter(c, old(insertMode), escValues[..progress.escValuesI])
    {
      match c {
        case 'm' => Sgr();
        case 's' => savedCursorX, savedCursorY := x, y;
        case 'r' => SetMargins(escValues[0], escValues[1]);
        case 'l' => ModeToggle(c);
        case 'h' => ModeToggle(c);
        case _ =>
      }
    }

    /** A command, if the byte is one. */
    method Execute(c: char) returns (handled: bool)
      requires Valid()
      modifies this`pen, this`insertMode, this`savedCursorX, this`savedCursorY
      modifies screen`queueI, screen`text, screen`textFg, screen`textBg, screen`cursorX, screen`cursorY
      modifies screen`scrollTop, screen`scrollBottom, screen.queue, screen.slots
      ensures Valid() && handled == IsCommand(c)
      ensures if handled then Executed(Cfg(), c, old(S()), S()) else S() == old(S())
    {
      var x, y := screen.GetCursorPos();
      handled := true;
      if EditByte(c) {
        DoEdit(c, x, y);
      } else if CursorByte(c) {
        DoMove(c, x, y);
      } else if OtherByte(c) {
        DoOther(c, x, y);
      } else {
        handled := false;
      }
    }

    /** An editing command leaves parser, pen and modes alone. */
    method DoEdit(c: char, x: nat, y: nat)
      requires Valid() && x == CursorX(screen.V()) && y == CursorY(screen.V()) && EditByte(c)
      modifies screen`queueI, screen`text, screen`cursorX, screen`cursorY, screen`scrollTop, screen.queue, screen.slots
      ensures Valid() && Executed(Cfg(), c, old(S()), S())
    {
      ghost var a := S();
      EditCommand(c, x, y);
      RanEdit(Cfg(), c, a, S());
    }

    /** So does a cursor command. */
    method DoMove(c: char, x: nat, y: nat)
      requires Valid() && x == CursorX(screen.V()) && y == CursorY(screen.V()) && CursorByte(c)
      modifies screen`cursorX, screen`cursorY
      ensures Valid() && Executed(Cfg(), c, old(S()), S())
    {
      ghost var a := S();
      CursorCommand(c, x, y);
      RanCursor(Cfg(), c, a, S());
    }

    /** Another command in terms of the whole state. */
    method DoOther(c: char, x: nat, y: nat)
      requires Valid() && x == CursorX(screen.V()) && y == CursorY(screen.V()) && OtherByte(c)
      modifies this`pen, this`insertMode, this`savedCursorX, this`savedCursorY
      modifies screen`textFg, screen`textBg, screen`cursorX, screen`cursorY, screen`scrollTop, screen`scrollBottom
      ensures Valid() && Executed(Cfg(), c, old(S()), S())
    {
      ghost var a := S();
      OtherCommand(c, x, y);
      RanOther(Cfg(), c, a, S());
    }

    // ----- parsing -----

    /** One more digit of the current parameter, in 32 bits. */
    method Digit(c: Byte)
      requires Parser() && IsDigit(c)
      modifies this`progress, escValues
      ensures Parser()
      ensures S() == if old(progress.escValuesI) == MAX_ESC_VALUES then old(S())
                     else old(S()).(p := old(progress).(rrr := true),
                                    values := WithDigit(old(escValues[..]), old(progress.escValuesI), c))
    {
      var i := progress.escValuesI;
      if i == MAX_ESC_VALUES {
        return;
      }
      progress := progress.(rrr := true);
      var v: int := escValues[i];
      DigitMod(v * 10, c - 0x30);
      escValues[i] := v * 10 % WORD;
      escValues[i] := (escValues[i] + (c - 0x30)) % WORD;
    }

    /** The missing parameters. */
    method FillDefaults(d: Word32)
      requires Parser()
      modifies escValues
      ensures Parser()
      ensures S() == old(S()).(values := Filled(old(escValues[..]), progress.escValuesI, d))
    {
      for i := progress.escValuesI to MAX_ESC_VALUES
        invariant forall k :: 0 <= k < MAX_ESC_VALUES ==>
                    escValues[k] == if progress.escValuesI <= k < i then d else old(escValues[k])
      {
        escValues[i] := d;
      }
    }

    /** A byte that ends a parameter or the sequence. */
    method EndParameter(c: Byte) returns (separator: bool)
      requires Parser()
      modifies this`progress, escValues
      ensures Parser() && separator == (c == 0x3b)
      ensures S() == if separator then Separate(old(S()))
                     else Completed(old(S()))
    {
      separator := c == 0x3b;
      if progress.rrr {
        progress := progress.(escValuesI := progress.escValuesI + 1, rrr := false);
      } else if separator && progress.escValuesI < MAX_ESC_VALUES {
        escValues[progress.escValuesI] := 0;
        progress := progress.(escValuesI := progress.escValuesI + 1);
      }
    }

    /** Runs a command with scrolling off. An unknown one leaves it off. */
    method ExecuteQuietly(c: char) returns (handled: bool)
      requires Valid()
      modifies this`pen, this`insertMode, this`savedCursorX, this`savedCursorY
      modifies screen`queueI, screen`text, screen`textFg, screen`textBg, screen`cursorX, screen`cursorY
      modifies screen`scrollTop, screen`scrollBottom, screen`scrollEnabled, screen.queue, screen.slots
      ensures Valid() && handled == IsCommand(c)
      ensures if handled then CommandDone(Cfg(), c, old(S()), S()) else S() == Hushed(old(S()))
    {
      ghost var a := S();
      var r := screen.scrollEnabled;
      screen.scrollEnabled := false;
      assert S() == Hushed(a);
      handled := Execute(c);
      ghost var m := S();
      if handled {
        screen.scrollEnabled := r;
        assert Hushed(S()) == m;
      }
    }

    /** An escape character is ignored, with scrolling left off. */
    method RunCommand(c: Byte)
      requires Valid() && progress.controlSequence
      modifies this`progress, this`pen, this`insertMode, this`savedCursorX, this`savedCursorY
      modifies screen`queueI, screen`text, screen`textFg, screen`textBg, screen`cursorX, screen`cursorY
      modifies screen`scrollTop, screen`scrollBottom, screen`scrollEnabled, screen.queue, screen.slots
      ensures Valid() && RunStep(Cfg(), c, old(S()), S())
    {
      if c == 0x1b {
        screen.scrollEnabled := false;
        return;
      }
      var handled := ExecuteQuietly(c as char);
      if handled {
        SetProgress(progress.(controlSequence := false, escape := false));
      } else {
        SetProgress(progress.(csiUnhandled := true));
      }
    }

    method FinishPrivate(c: char)
      requires Valid() && !progress.osc
      modifies this`progress, screen`cursorEnabled
      ensures Valid()
      ensures S() == old(S()).(p := old(progress).(decPrivate := false, controlSequence := false, escape := false),
                modes := old(S()).modes.(cursorOn := CursorAfter(c, old(screen.cursorEnabled),
                  escValues[..progress.escValuesI])))
    {
      DecPrivateParse(c);
      SetProgress(progress.(controlSequence := false, escape := false));
    }

    /** The rest of an unknown sequence is skipped. */
    method SkipUnhandled(c: Byte)
      requires Valid() && progress.controlSequence
      modifies this`progress, screen`scrollEnabled
      ensures Valid()
      ensures S() == old(S()).(v := Quiet(old(screen.V())),
                p := if 0x40 <= c <= 0x7e then
                       old(progress).(csiUnhandled := false, controlSequence := false, escape := false)
                     else old(progress))
    {
      screen.scrollEnabled := false;
      if 0x40 <= c <= 0x7e {
        SetProgress(progress.(csiUnhandled := false, controlSequence := false, escape := false));
      }
    }

    /** The command at the end of a control sequence. */
    method Finish(c: Byte)
      requires Valid() && progress.controlSequence && !progress.rrr
      modifies this`progress, this`pen, this`insertMode, this`savedCursorX, this`savedCursorY, escValues
      modifies screen`queueI, screen`text, screen`textFg, screen`textBg, screen`cursorX, screen`cursorY
      modifies screen`cursorEnabled, screen`scrollTop, screen`scrollBottom, screen`scrollEnabled, screen.queue,
               screen.slots
      ensures Valid() && FinishStep(Cfg(), c, old(S()), S())
    {
      var ch := c as char;
      FillDefaults(if ch == 'J' || ch == 'K' || ch == 'q' then 0 else 1);
      FinishFilled(c);
    }

    /** The same, with its missing parameters filled in. */
    method FinishFilled(c: Byte)
      requires Valid() && progress.controlSequence && !progress.rrr
      modifies this`progress, this`pen, this`insertMode, this`savedCursorX, this`savedCursorY
      modifies screen`queueI, screen`text, screen`textFg, screen`textBg, screen`cursorX, screen`cursorY
      modifies screen`cursorEnabled, screen`scrollTop, screen`scrollBottom, screen`scrollEnabled, screen.queue,
               screen.slots
      ensures Valid() && FilledStep(Cfg(), c, old(S()), S())
    {
      if progress.decPrivate {
        FinishPrivate(c as char);
      } else if progress.csiUnhandled {
        SkipUnhandled(c);
      } else {
        RunCommand(c);
      }
    }

    method EndByte(c: Byte)
      requires Valid() && progress.controlSequence && !IsDigit(c)
      modifies this`progress, this`pen, this`insertMode, this`savedCursorX, this`savedCursorY, escValues
      modifies screen`queueI, screen`text, screen`textFg, screen`textBg, screen`cursorX, screen`cursorY
      modifies screen`cursorEnabled, screen`scrollTop, screen`scrollBottom, screen`scrollEnabled, screen.queue,
               screen.slots
      ensures Valid()
      ensures if c == 0x3b then S() == Separate(old(S()))
              else FinishStep(Cfg(), c, Completed(old(S())), S())
    {
      var separator := EndParameter(c);
      if !separator {
        Finish(c);
      }
    }

    method ControlSequenceParse(c: Byte)
      requires Valid() && progress.controlSequence
      modifies this`progress, this`pen, this`insertMode, this`savedCursorX, this`savedCursorY, escValues
      modifies screen`queueI, screen`text, screen`textFg, screen`textBg, screen`cursorX, screen`cursorY
      modifies screen`cursorEnabled, screen`scrollTop, screen`scrollBottom, screen`scrollEnabled, screen.queue,
               screen.slots
      ensures Valid() && SequenceStep(Cfg(), c, old(S()), S())
    {
      if progress.escapeOffset == 2 && c == 0x5b {
        SetProgress(progress.(discardNext := true, controlSequence := false, escape := false));
      } else if progress.escapeOffset == 2 && c == 0x3f {
        SetProgress(progress.(decPrivate := true));
      } else if 0x30 <= c <= 0x39 {
        Digit(c);
      } else {
        EndByte(c);
      }
    }

    method ClearValues()
      requires Valid()
      modifies escValues
      ensures Valid() && forall k :: 0 <= k < MAX_ESC_VALUES ==> escValues[k] == 0
    {
      for i := 0 to MAX_ESC_VALUES
        invariant forall k :: 0 <= k < i ==> escValues[k] == 0
      {
        escValues[i] := 0;
      }
    }

    method OpenSequence()
      requires Valid() && progress.escape && !progress.osc
      modifies this`progress, escValues
      ensures Valid() && progress == old(progress).(escValuesI := 0, rrr := false, csiUnhandled := false,
              controlSequence := true)
      ensures AllZero(escValues[..])
    {
      ClearValues();
      SetProgress(progress.(escValuesI := 0, rrr := false, csiUnhandled := false, controlSequence := true));
    }

    /** Moves to the next line, scrolling at the bottom margin. */
    method LineFeed(x: nat, y: nat)
      requires screen.Valid() && y < screen.rows
      modifies screen`queueI, screen`text, screen`cursorX, screen`cursorY, screen.queue, screen.slots
      ensures screen.Valid() && screen.V() == FedLine(old(screen.V()), x, y)
    {
      if y == screen.scrollBottom - 1 {
        screen.Scroll();
        screen.SetCursorPos(x, y);
      } else {
        screen.SetCursorPos(x, y + 1);
      }
    }

    method ReverseLineFeed(y: nat)
      requires screen.Valid() && y < screen.rows
      modifies screen`queueI, screen`text, screen`cursorX, screen`cursorY, screen.queue, screen.slots
      ensures screen.Valid() && screen.V() == FedBack(old(screen.V()), y)
    {
      if y == screen.scrollTop {
        screen.RevScroll();
        screen.SetCursorPos(0, y);
      } else {
        screen.SetCursorPos(0, WrapBelow(y as int - 1));
      }
    }

    method LineEscape(c: Byte)
      requires Valid() && LineByte(c)
      modifies screen`queueI, screen`text, screen`cursorX, screen`cursorY, screen.queue, screen.slots
      ensures Valid() && S() == old(S()).(v := LineMoved(old(screen.V()), c))
    {
      var x, y := screen.GetCursorPos();
      if c == 0x44 {
        LineFeed(x, y);
      } else if c == 0x45 {
        LineFeed(0, y);
      } else {
        ReverseLineFeed(y);
      }
    }

    /** Save, restore and reset. */
    method StateEscape(c: Byte)
      requires Valid() && !progress.osc && !progress.controlSequence
      modifies this`progress, this`pen, this`charset0, this`charset1, this`autoflush, this`insertMode, this`onlcr
      modifies this`savedCursorX, this`savedCursorY
      modifies this`saved, screen`cursorEnabled, screen`scrollEnabled, screen`scrollTop, screen`scrollBottom
      modifies screen`queueI, screen`text, screen`textFg, screen`textBg, screen`cursorX, screen`cursorY, screen.queue,
               screen.slots
      ensures Valid() && !progress.osc && !progress.controlSequence
      ensures S() == StateMoved(old(S()), c)
    {
      if c == 0x37 {
        SaveState();
      } else if c == 0x38 {
        RestoreState();
      } else if c == 0x63 {
        ResetTerminal();
      }
    }

    /** An escape sequence of one character. */
    method SimpleEscape(c: Byte)
      requires Valid() && progress.escape && !progress.osc && !progress.controlSequence
      modifies this`progress, this`pen, this`charset0, this`charset1, this`autoflush, this`insertMode, this`onlcr
      modifies this`savedCursorX, this`savedCursorY
      modifies this`saved, screen`cursorEnabled, screen`scrollEnabled, screen`scrollTop, screen`scrollBottom
      modifies screen`queueI, screen`text, screen`textFg, screen`textBg, screen`cursorX, screen`cursorY, screen.queue,
               screen.slots
      ensures Valid() && S() == Simple(old(S()), c)
    {
      if c == 0x44 || c == 0x45 || c == 0x4d {
        LineEscape(c);
      } else {
        StateEscape(c);
      }
      SetProgress(progress.(escape := false));
    }

    /** The byte after an escape character. */
    method StartEscape(c: Byte)
      requires Valid() && progress.escape && !progress.osc && !progress.controlSequence
      modifies this, escValues, screen`queueI, screen`text, screen`textFg, screen`textBg, screen`cursorX, screen`cursorY
      modifies screen`cursorEnabled, screen`scrollTop, screen`scrollBottom, screen`scrollEnabled, screen.queue,
               screen.slots
      ensures Valid() && StartStep(Cfg(), c, old(S()), S())
    {
      if c == 0x5d {
        SetProgress(progress.(oscEscape := false, osc := true));
      } else if c == 0x5b {
        OpenSequence();
      } else if c == 0x28 || c == 0x29 {
        SetProgress(progress.(gSelect := c - 0x27, escape := false));
      } else {
        SimpleEscape(c);
      }
    }

    method ContinueEscape(c: Byte)
      requires Valid() && progress.escape && !progress.osc
      modifies this, escValues, screen`queueI, screen`text, screen`textFg, screen`textBg, screen`cursorX, screen`cursorY
      modifies screen`cursorEnabled, screen`scrollTop, screen`scrollBottom, screen`scrollEnabled, screen.queue,
               screen.slots
      ensures Valid() && ContinueStep(Cfg(), c, old(S()), S())
    {
      if progress.controlSequence {
        ControlSequenceParse(c);
      } else {
        StartEscape(c);
      }
    }

    /** A byte of an operating system command. */
    method StringByte(c: Byte)
      requires Valid() && progress.osc
      modifies this, escValues, screen`queueI, screen`text, screen`textFg, screen`textBg, screen`cursorX, screen`cursorY
      modifies screen`cursorEnabled, screen`scrollTop, screen`scrollBottom, screen`scrollEnabled, screen.queue,
               screen.slots
      ensures Valid()
      ensures if old(progress.oscEscape) && c != 0x5c then
                ContinueStep(Cfg(), c, Unstrung(old(S())), S())
              else S() == old(S()).(p := OscNext(old(progress), c))
    {
      var consumed := OscParse(c);
      if !consumed {
        ContinueEscape(c);
      }
    }

    method EscapeParse(c: Byte)
      requires Valid() && progress.escape
      modifies this, escValues, screen`queueI, screen`text, screen`textFg, screen`textBg, screen`cursorX, screen`cursorY
      modifies screen`cursorEnabled, screen`scrollTop, screen`scrollBottom, screen`scrollEnabled, screen.queue,
               screen.slots
      ensures Valid() && EscapeStep(Cfg(), c, old(S()), S())
    {
      ghost var before := S();
      SetProgress(progress.(escapeOffset := (progress.escapeOffset + 1) % SIZE_LIMIT));
      assert S() == Counted(before);
      if progress.osc {
        StringByte(c);
      } else {
        ContinueEscape(c);
      }
    }

    // ----- characters -----

    /** The glyph for a byte in the selected character set. */
    function GlyphFor(c: Byte): (g: Glyph)
      reads this, escValues, screen
      ensures g == GlyphIn(Cfg(), pen, S().modes, c)
    {
      var charset := if pen.charset == 0 then charset0 else charset1;
      if charset == DecSpecial && c in decSpecial then decSpecial[c] else if 0x20 <= c <= 0x7e then c else 0xfe
    }

    /** Prints one character; in insert mode the rest of the line makes room for it. */
    method PrintByte(c: Byte)
      requires Valid()
      modifies screen`queueI, screen`text, screen`cursorX, screen`cursorY, screen.queue, screen.slots
      ensures Valid() && Printed(old(screen.V()), screen.V(), insertMode, GlyphFor(c))
    {
      if insertMode {
        var x, y := screen.GetCursorPos();
        MakeRoom(screen, x, y);
      }
      screen.RawPutchar(GlyphFor(c));
    }

    /** To the next multiple of the tab size, or the end of the line. */
    method Tab(x: nat, y: nat)
      requires Valid() && x < screen.cols && y < screen.rows
      modifies screen`cursorX, screen`cursorY
      ensures Valid() && screen.cursorY == y
      ensures x == CursorX(old(screen.V())) && y == CursorY(old(screen.V())) ==>
                screen.V() == Tabbed(old(screen.V()), tabSize)
      ensures var stop := Times(Quot(x, tabSize) + 1, tabSize);
              x < stop <= x + tabSize
              && (stop < screen.cols ==> screen.cursorX == stop)
              && (stop >= screen.cols && stop < 0x8000_0000 ==> screen.cursorX == screen.cols - 1)
    {
      var stop := Quot(x, tabSize) + 1;
      Rebuilt(x, tabSize);
      TimesMore(Quot(x, tabSize), tabSize);
      AtLeast(stop, tabSize);
      if stop >= screen.cols {
        screen.SetCursorPos(screen.cols - 1, y);
      } else {
        screen.SetCursorPos(Times(stop, tabSize), y);
      }
    }

    method LineFeedHere()
      requires Valid()
      modifies screen`queueI, screen`text, screen`cursorX, screen`cursorY, screen.queue, screen.slots
      ensures Valid()
      ensures screen.V() == FedLine(old(screen.V()), if onlcr then 0 else CursorX(old(screen.V())),
              CursorY(old(screen.V())))
    {
      var x, y := screen.GetCursorPos();
      LineFeed(if onlcr then 0 else x, y);
    }

    /** Control characters that move the cursor. */
    method ControlByte(c: Byte)
      requires Valid()
      modifies screen`queueI, screen`text, screen`cursorX, screen`cursorY, screen.queue, screen.slots
      ensures Valid()
      ensures var v := old(screen.V());
              && (0x0a <= c <= 0x0c ==> screen.V() == FedLine(v, if onlcr then 0 else CursorX(v), CursorY(v)))
              && (c == 0x08 ==> screen.V() == SetCursor(v, if CursorX(v) == 0 then 0 else CursorX(v) - 1, CursorY(v)))
              && (c == 0x09 ==> screen.V() == Tabbed(v, tabSize))
              && (c == 0x0d ==> screen.V() == SetCursor(v, 0, CursorY(v)))
    {
      if c == 0x0a || c == 0x0b || c == 0x0c {
        LineFeedHere();
        return;
      }
      var x, y := screen.GetCursorPos();
      if c == 0x09 {
        Tab(x, y);
      } else if c == 0x08 {
        Ordered(0, screen.rows, screen.cols);
        screen.SetCursorPos(WrapBelow(x as int - 1), y);
      } else if c == 0x0d {
        screen.SetCursorPos(0, y);
      }
    }

    method ShiftCharset(c: Byte)
      requires Valid()
      modifies this`pen
      ensures Valid() && pen == old(pen).(charset := if c == 14 then 1 else 0)
    {
      pen := pen.(charset := if c == 14 then 1 else 0);
    }

    /** A byte outside any sequence. */
    method GroundByte(c: Byte)
      requires Valid() && !progress.escape && !progress.osc && !progress.controlSequence
      modifies this`progress, this`pen, screen`queueI, screen`text, screen`cursorX, screen`cursorY, screen.queue,
               screen.slots
      ensures Valid() && GroundStep(Cfg(), c, old(S()), S())
    {
      if c == 0x00 || c == 0x7f || c == 0x07 {
        return;
      }
      if c == 0x1b {
        SetProgress(progress.(escapeOffset := 0, escape := true));
      } else if c == 14 || c == 15 {
        ShiftCharset(c);
      } else if 0x08 <= c <= 0x0d {
        ControlByte(c);
      } else {
        PrintByte(c);
      }
    }

    method SetCharset(g: nat, charset: Charset)
      requires Valid() && g <= 1
      modifies this`charset0, this`charset1
      ensures Valid() && charset0 == (if g == 0 then charset else old(charset0)) && charset1 == if g == 1 then charset
              else old(charset1)
    {
      if g == 0 {
        charset0 := charset;
      } else {
        charset1 := charset;
      }
    }

    method SelectCharset(c: Byte)
      requires Valid() && progress.gSelect > 0
      modifies this`progress, this`charset0, this`charset1
      ensures Valid() && S() == Designate(old(S()), c)
    {
      var g := progress.gSelect - 1;
      if c == 0x42 || c == 0x30 {
        SetCharset(g, if c == 0x42 then Default else DecSpecial);
      }
      SetProgress(progress.(gSelect := 0));
    }

    /** The first byte of a character of several bytes. */
    method StartRune(c: Byte)
      requires Valid() && 0xc0 <= c <= 0xf7 && progress.unicodeRemaining == 0
      modifies this`progress
      ensures Valid() && progress == old(progress).(unicodeRemaining := RuneTail(c), codePoint := RuneHead(c))
    {
      if c <= 0xdf {
        SetProgress(progress.(unicodeRemaining := 1, codePoint := c % 32 * 64));
      } else if c <= 0xef {
        SetProgress(progress.(unicodeRemaining := 2, codePoint := c % 16 * 4096));
      } else {
        SetProgress(progress.(unicodeRemaining := 3, codePoint := c % 8 * 262144));
      }
    }

    /** A continuation byte. The last one prints the character, or as many replacement
        cells as it would take. */
    method ContinueRune(c: Byte)
      requires Valid() && progress.unicodeRemaining > 0
      modifies this`progress, screen`queueI, screen`text, screen`cursorX, screen`cursorY, screen.queue, screen.slots
      ensures Valid()
      ensures var p := RuneStep(old(progress), c);
              S() == old(S()).(p := p, v := if p.unicodeRemaining > 0 then old(screen.V())
                                            else PutRune(old(screen.V()), glyphOf(p.codePoint), widthOf(p.codePoint)))
    {
      RuneStepOk(progress, c);
      SetProgress(RuneStep(progress, c));
      if progress.unicodeRemaining == 0 {
        PrintRune(glyphOf(progress.codePoint), widthOf(progress.codePoint));
      }
    }

    method PrintRune(glyph: int, width: nat)
      requires Valid()
      modifies screen`queueI, screen`text, screen`cursorX, screen`cursorY, screen.queue, screen.slots
      ensures Valid() && screen.V() == PutRune(old(screen.V()), glyph, width)
    {
      if glyph == -1 {
        PrintReplacement(width);
      } else {
        screen.RawPutchar(glyph % 256);
      }
    }

    method PrintReplacement(width: nat)
      requires Valid()
      modifies screen`queueI, screen`text, screen`cursorX, screen`cursorY, screen.queue, screen.slots
      ensures Valid() && screen.V() == PutReplacement(old(screen.V()), width)
    {
      if width == 0 {
        return;
      }
      ghost var v := screen.V();
      screen.RawPutchar(0xfe);
      for i := 1 to width
        invariant Valid() && screen.V() == PutReplacement(v, i)
      {
        screen.RawPutchar(SPACE);
      }
    }

    /** A byte that is not part of a longer character. */
    method WholeByte(c: Byte)
      requires Valid() && progress.unicodeRemaining == 0 && !(0xc0 <= c <= 0xf7)
      modifies this, escValues, screen`queueI, screen`text, screen`textFg, screen`textBg, screen`cursorX, screen`cursorY
      modifies screen`cursorEnabled, screen`scrollTop, screen`scrollBottom, screen`scrollEnabled, screen.queue,
               screen.slots
      ensures Valid() && FreshStep(Cfg(), c, old(S()), S())
    {
      if progress.escape {
        EscapeParse(c);
      } else if progress.gSelect > 0 {
        SelectCharset(c);
      } else {
        GroundByte(c);
      }
    }

    /** A byte with no character under way. */
    method FreshByte(c: Byte)
      requires Valid() && !progress.discardNext && progress.unicodeRemaining == 0
      modifies this, escValues, screen`queueI, screen`text, screen`textFg, screen`textBg, screen`cursorX, screen`cursorY
      modifies screen`cursorEnabled, screen`scrollTop, screen`scrollBottom, screen`scrollEnabled, screen.queue,
               screen.slots
      ensures Valid() && FreshStep(Cfg(), c, old(S()), S())
    {
      if 0xc0 <= c <= 0xf7 {
        StartRune(c);
      } else {
        WholeByte(c);
      }
    }

    /** A byte in the middle of a longer character, which may be cut short. */
    method MidRune(c: Byte)
      requires Valid() && !progress.discardNext && progress.unicodeRemaining > 0
      modifies this, escValues, screen`queueI, screen`text, screen`textFg, screen`textBg, screen`cursorX, screen`cursorY
      modifies screen`cursorEnabled, screen`scrollTop, screen`scrollBottom, screen`scrollEnabled, screen.queue,
               screen.slots
      ensures Valid() && MidStep(Cfg(), c, old(S()), S())
    {
      if 0x80 <= c <= 0xbf {
        ContinueRune(c);
      } else {
        SetProgress(progress.(unicodeRemaining := 0));
        FreshByte(c);
      }
    }

    /** A byte after those that cancel a sequence have been dealt with. */
    method PutByte(c: Byte)
      requires Valid() && !progress.discardNext
      modifies this, escValues, screen`queueI, screen`text, screen`textFg, screen`textBg, screen`cursorX, screen`cursorY
      modifies screen`cursorEnabled, screen`scrollTop, screen`scrollBottom, screen`scrollEnabled, screen.queue,
               screen.slots
      ensures Valid()
      ensures if old(progress.unicodeRemaining) == 0 then FreshStep(Cfg(), c, old(S()), S())
              else MidStep(Cfg(), c, old(S()), S())
    {
      if progress.unicodeRemaining > 0 {
        MidRune(c);
      } else {
        FreshByte(c);
      }
    }

    /** Every byte keeps the parser and the screen in order; a cancelled sequence leaves
        the screen alone. */
    method Putchar(c: Byte)
      requires Valid()
      modifies this, escValues, screen`queueI, screen`text, screen`textFg, screen`textBg, screen`cursorX, screen`cursorY
      modifies screen`cursorEnabled, screen`scrollTop, screen`scrollBottom, screen`scrollEnabled, screen.queue,
               screen.slots
      ensures Valid() && PutStep(Cfg(), c, old(S()), S())
    {
      if progress.discardNext || c == 0x18 || c == 0x1a {
        SetProgress(progress.(discardNext := false, escape := false, controlSequence := false,
          unicodeRemaining := 0, osc := false, oscEscape := false, gSelect := 0));
      } else {
        PutByte(c);
      }
    }

    // ----- strings -----

    /** Any bytes at all, state by state; printable ones between sequences appear in order,
        and the saved state is kept unless a byte saves. */
    method Feed(bytes: seq<Byte>) returns (ghost trace: seq<State>)
      requires Valid()
      modifies this, escValues, screen`queueI, screen`text, screen`textFg, screen`textBg, screen`cursorX, screen`cursorY
      modifies screen`cursorEnabled, screen`scrollTop, screen`scrollBottom, screen`scrollEnabled, screen.queue,
               screen.slots
      ensures Valid() && IsFeed(Cfg(), bytes, trace) && trace[0] == old(S()) && trace[|bytes|] == S()
      ensures !Awaits(old(progress)) && NeverSaves(bytes) ==> saved == old(saved)
      ensures Ground(old(progress)) && PlainNow(old(S())) && Printable(bytes) ==>
                S() == old(S()).(v := PutAll(old(screen.V()), bytes))
    {
      ghost var before := S();
      trace := [before];
      assert bytes[..0] == [];
      for i := 0 to |bytes|
        invariant Valid() && TextStep(Cfg(), before, S(), bytes, i)
                  && Unsaved(bytes, i, before.p, before.saved, progress, saved)
        invariant |trace| == i + 1 && trace[0] == before && trace[i] == S()
        invariant forall k {:trigger bytes[k]} :: 0 <= k < i ==> PutStep(Cfg(), bytes[k], trace[k], trace[k + 1])
      {
        ghost var mid := S();
        Putchar(bytes[i]);
        TextMore(Cfg(), before, mid, S(), bytes, i);
        PutKeepsSaved(Cfg(), bytes[i], mid, S());
        UnsavedMore(bytes, i, before.p, before.saved, mid.p, mid.saved, progress, saved);
        trace := trace + [S()];
      }
      assert bytes[..|bytes|] == bytes;
    }

    /** `flanterm_write`: with automatic flushing the display then shows the text. */
    method Write(bytes: seq<Byte>)
      requires Valid()
      modifies this, escValues, screen`queueI, screen`text, screen`textFg, screen`textBg, screen`cursorX, screen`cursorY
      modifies screen`cursorEnabled, screen`scrollTop, screen`scrollBottom, screen`scrollEnabled, screen.queue,
               screen.slots
      modifies screen`oldCursorX, screen`oldCursorY, screen.grid, screen.frame, screen.frame.pixels
      ensures Valid() && Took(Cfg(), bytes, old(S()), S())
      ensures Ground(old(progress)) && PlainNow(old(S())) && Printable(bytes) ==>
                screen.V() == PutAll(old(screen.V()), bytes)
      ensures autoflush ==> OnDisplay(screen.text, screen.frame.shown, screen.CursorCell())
    {
      ghost var before := S();
      ghost var trace := Feed(bytes);
      assert Took(Cfg(), bytes, before, S());
      if autoflush {
        screen.DoubleBufferFlush();
      }
    }
  }
}

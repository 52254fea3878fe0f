/** The states of the escape-sequence parser, and what each byte does to them. */
module Parsing {
  import opened Rows
  import opened Pixels
  import opened TextView
  import opened RowEdits
  import opened Rendering
  import opened Commands

  const MAX_ESC_VALUES := 16

  type Byte = x: int | 0 <= x < 256

  datatype Charset = Default | DecSpecial

  /** The character set a designating byte stands for. */
  function Designated(c: Byte, was: Charset): Charset { if c == 0x42 then Default else if c == 0x30 then DecSpecial
                      else was }

  /** What is saved and restored together. */
  datatype Saved = Saved(pen: Pen, fg: int, bg: int, x: nat, y: nat)

  /** Where the parser stands. */
  datatype Progress = Progress(
    escape: bool, controlSequence: bool, osc: bool, oscEscape: bool, rrr: bool, discardNext: bool,
    decPrivate: bool, csiUnhandled: bool, codePoint: nat, unicodeRemaining: nat, gSelect: nat,
    escapeOffset: nat, escValuesI: nat)

  const AT_REST := Progress(false, false, false, false, false, false, false, false, 0, 0, 0, 0, 0)

  /** What every byte keeps: counters and indices in range, and no sequence under way
      outside an escape. */
  predicate ProgressOk(p: Progress) {
    && p.escValuesI <= MAX_ESC_VALUES && (p.rrr ==> p.escValuesI < MAX_ESC_VALUES)
    && p.unicodeRemaining <= 3 && p.gSelect <= 2 && RuneOk(p)
    && (p.osc || p.controlSequence ==> p.escape) && !(p.osc && p.controlSequence)
  }

  /** A character part-way through leaves room for what is still to come, so that or-ing
      a continuation byte in is adding it. */
  predicate RuneOk(p: Progress) {
    && (p.unicodeRemaining == 1 ==> p.codePoint % 64 == 0)
    && (p.unicodeRemaining == 2 ==> p.codePoint % 4096 == 0)
    && (p.unicodeRemaining == 3 ==> p.codePoint % 262144 == 0)
  }

  function RuneTail(c: Byte): nat { if c <= 0xdf then 1 else if c <= 0xef then 2 else 3 }

  function RuneHead(c: Byte): nat {
    if c <= 0xdf then c % 32 * 64 else if c <= 0xef then c % 16 * 4096 else c % 8 * 262144
  }

  function RuneStep(p: Progress, c: Byte): Progress
    requires p.unicodeRemaining > 0
  {
    var left := p.unicodeRemaining - 1;
    p.(unicodeRemaining := left, codePoint := p.codePoint + (if left == 0 then c % 64 else if left == 1 then c % 64 * 64
      else c % 64 * 4096))
  }

  lemma {:induction false} RuneStepOk(p: Progress, c: Byte)
    requires ProgressOk(p) && p.unicodeRemaining > 0
    ensures ProgressOk(RuneStep(p, c))
  {
    RuneStepRoom(p, c);
  }

  lemma {:induction false} RuneStepRoom(p: Progress, c: Byte)
    requires RuneOk(p) && 1 <= p.unicodeRemaining <= 3
    ensures RuneOk(RuneStep(p, c))
  {
    if p.unicodeRemaining == 2 {
      StepFromTwo(p, c);
    } else if p.unicodeRemaining == 3 {
      StepFromThree(p, c);
    }
  }

  lemma {:induction false} StepFromTwo(p: Progress, c: Byte)
    requires p.unicodeRemaining == 2 && p.codePoint % 4096 == 0
    ensures RuneOk(RuneStep(p, c))
  {
    SecondSlot(p.codePoint, c % 64);
  }

  lemma {:induction false} StepFromThree(p: Progress, c: Byte)
    requires p.unicodeRemaining == 3 && p.codePoint % 262144 == 0
    ensures RuneOk(RuneStep(p, c))
  {
    ThirdSlot(p.codePoint, c % 64);
  }

  lemma {:induction false} SecondSlot(cp: nat, b: nat)
    requires cp % 4096 == 0
    ensures (cp + b * 64) % 64 == 0
  {
    var k := cp / 4096;
    assert cp + b * 64 == 64 * (64 * k + b);
  }

  lemma {:induction false} ThirdSlot(cp: nat, b: nat)
    requires cp % 262144 == 0
    ensures (cp + b * 4096) % 4096 == 0
  {
    var k := cp / 262144;
    assert cp + b * 4096 == 4096 * (64 * k + b);
  }

  /** A replacement mark and as many spaces as the character is wider than one cell. */
  function PutReplacement(v: View, width: nat): (r: View)
    requires v.bottom > 0 && v.cols > 0
    ensures r.bottom == v.bottom && r.cols == v.cols
  {
    if width == 0 then v else if width == 1 then PutChar(v, 0xfe) else PutChar(PutReplacement(v, width - 1), SPACE)
  }

  function PutRune(v: View, glyph: int, width: nat): View
    requires v.bottom > 0 && v.cols > 0
  {
    if glyph == -1 then PutReplacement(v, width) else PutChar(v, glyph % 256)
  }

  /** Between sequences. */
  predicate Ground(p: Progress) { !p.discardNext && p.unicodeRemaining == 0 && !p.escape && p.gSelect == 0 }

  /** Just after an escape character. */
  predicate Escaped(p: Progress) {
    !p.discardNext && p.unicodeRemaining == 0 && p.escape && !p.osc && !p.controlSequence
  }

  /** The next byte is taken for the one after an escape character, also after one that
      is about to end a string. */
  predicate Awaits(p: Progress) { p.escape && !p.controlSequence && (p.osc ==> p.oscEscape) }

  /** What a byte does to the saved state: only a '7' that is awaited saves; and a byte is
      awaited after an escape character, and still after bytes of longer characters. */
  predicate SaveKept(c: Byte, p: Progress, saved: Saved, p': Progress, saved': Saved) {
    && (saved' == saved || (c == 0x37 && Awaits(p)))
    && (Awaits(p') ==> c == 0x1b || (c >= 0x80 && Awaits(p)))
  }

  function FedLine(v: View, x: nat, y: nat): View
    requires v.bottom > 0 && v.cols > 0 && v.rows > 0
  {
    if y == v.bottom - 1 then SetCursor(ScrollUp(v), x, y) else SetCursor(v, x, y + 1)
  }

  function FedBack(v: View, y: nat): View
    requires v.bottom > 0 && v.cols > 0 && v.rows > 0
  {
    if y == v.top then SetCursor(ScrollDown(v), 0, y) else SetCursor(v, 0, if y == 0 then SIZE_LIMIT - 1 else y - 1)
  }

  /** A line feed moves to the next row, or scrolls the region on its last row and stays
      there. Below the region it stops on the last row of the screen. */
  lemma {:induction false} FedLineMeans(v: View, x: nat, y: nat, cx: nat, cy: nat)
    requires Shaped(v) && x < v.cols && y < v.rows < 0x8000_0000 && cx < v.cols && cy < v.rows
    ensures var w := FedLine(v, x, y);
            && w == v.(text := w.text, x := x, y := if y + 1 == v.bottom || y + 1 == v.rows then y else y + 1)
            && At(w, cx, cy) == if y + 1 == v.bottom then RowUp(v, 1, cx, cy) else At(v, cx, cy)
  {
    ScrolledRow(v, cx, cy);
  }

  /** A reverse line feed moves to the previous row, or scrolls the region down on its
      first row; above the region it stops on the first row of the screen. It always
      returns to the first column. */
  lemma {:induction false} FedBackMeans(v: View, y: nat, cx: nat, cy: nat)
    requires Shaped(v) && y < v.rows && cx < v.cols && cy < v.rows
    ensures var w := FedBack(v, y);
            && w.x == 0 && w.y == (if y == v.top || y == 0 then y else y - 1)
            && w == v.(text := w.text, x := w.x, y := w.y)
            && At(w, cx, cy) == if y == v.top then RowDown(v, 1, cx, cy) else At(v, cx, cy)
  {
    AtLeast(v.rows, v.cols);
    ScrolledDownRow(v, cx, cy);
  }

  predicate IsDigit(c: Byte) { 0x30 <= c <= 0x39 }

  function WithDigit(values: seq<Word32>, i: nat, c: Byte): seq<Word32>
    requires IsDigit(c)
  {
    if i < |values| then values[i := (values[i] * 10 + (c - 0x30)) % WORD] else values
  }

  lemma {:induction false} DigitMod(a: nat, d: nat)
    ensures (a % WORD + d) % WORD == (a + d) % WORD
  {
    var k := a / WORD;
    assert a + d == (a % WORD + d) + k * WORD;
  }

  /** How many parameters have been given once the one under way is complete. */
  function Given(p: Progress): nat { if p.rrr then p.escValuesI + 1 else p.escValuesI }

  predicate AllZero(values: seq<Word32>) { forall i :: 0 <= i < |values| ==> values[i] == 0 }

  /** The parameters with those that are missing filled in. */
  function Filled(values: seq<Word32>, count: nat, d: Word32): (r: seq<Word32>)
    requires count <= |values|
    ensures |r| == |values|
  {
    values[..count] + seq(|values| - count, k => d)
  }

  // ----- the state of a terminal -----

  /** What a terminal is set up with: the colours and their conversion, the character
      tables, and the distance of tab stops. */
  datatype Config = Config(
    palette: Palette, convert: int -> int, glyphOf: int -> int, widthOf: int -> nat,
    special: map<Byte, Glyph>, tabSize: nat)

  /** The two character sets, insert mode, whether a line feed returns the carriage,
      whether writing flushes, and whether the cursor shows. */
  datatype Modes = Modes(g0: Charset, g1: Charset, insert: bool, onlcr: bool, autoflush: bool, cursorOn: bool)

  const START_MODES := Modes(Default, DecSpecial, false, true, true, true)

  /** The parser and its parameters, the screen, the pen and the modes, and the saved and
      remembered state. */
  datatype State = State(
    p: Progress, values: seq<Word32>, v: View, pen: Pen, modes: Modes, saved: Saved, sx: nat, sy: nat)

  predicate StateOk(cfg: Config, a: State) {
    && ProgressOk(a.p) && |a.values| == MAX_ESC_VALUES && a.v.rows > 0 && a.v.cols > 0 && a.v.bottom > 0
    && PaletteOk(cfg.palette) && cfg.tabSize > 0
  }

  function NowOf(a: State): Saved { Saved(a.pen, a.v.fg, a.v.bg, a.v.x, a.v.y) }

  function RenditionOf(a: State): Rendition { Rendition(a.pen, LookOf(a.pen, a.v.fg, a.v.bg)) }

  /** Characters are printed as they are. */
  predicate PlainNow(a: State) { (if a.pen.charset == 0 then a.modes.g0 else a.modes.g1) == Default && !a.modes.insert }

  /** The glyph for a byte in the selected character set. */
  function GlyphIn(cfg: Config, pen: Pen, modes: Modes, c: Byte): Glyph {
    var charset := if pen.charset == 0 then modes.g0 else modes.g1;
    if charset == DecSpecial && c in cfg.special then cfg.special[c] else if 0x20 <= c <= 0x7e then c else 0xfe
  }

  // ----- what a byte does -----

  /** The rendition after the codes given; none at all mean a reset. */
  function Rendered(cfg: Config, r: Rendition, vals: seq<Word32>): Rendition
    requires PaletteOk(cfg.palette)
  {
    if vals == [] then PlainCode(cfg.palette, r, 0) else Codes(cfg.palette, cfg.convert, r, vals, 0)
  }

  /** Mode 4 is insert mode. */
  function InsertAfter(c: char, was: bool, vals: seq<Word32>): bool {
    if (c == 'h' || c == 'l') && vals != [] && vals[0] == 4 then c == 'h' else was
  }

  /** Private mode 25 is the cursor. */
  function CursorAfter(c: char, was: bool, vals: seq<Word32>): bool {
    if (c == 'h' || c == 'l') && vals != [] && vals[0] == 25 then c == 'h' else was
  }

  /** What a command does, with the screen as it finds it. */
  ghost predicate Executed(cfg: Config, c: char, a: State, b: State)
    requires StateOk(cfg, a)
  {
    var vals := a.values[..a.p.escValuesI];
    && b == a.(v := b.v, pen := b.pen, modes := a.modes.(insert := InsertAfter(c, a.modes.insert, vals)),
               sx := if c == 's' then CursorX(a.v) else a.sx, sy := if c == 's' then CursorY(a.v) else a.sy)
    && Commanded(c, a.v, b.v, Args(a.values[0], a.values[1], a.p.escValuesI, a.sx, a.sy))
    && (if c == 'm' then RenditionOf(b) == Rendered(cfg, RenditionOf(a), vals) else b.pen == a.pen)
  }

  function Hushed(a: State): State { a.(v := Quiet(a.v)) }

  /** A command runs with scrolling off, which is then put back. */
  ghost predicate CommandDone(cfg: Config, c: char, a: State, b: State)
    requires StateOk(cfg, a)
  {
    b.v.scrolling == a.v.scrolling && Executed(cfg, c, Hushed(a), Hushed(b))
  }

  /** A command is carried out and ends its sequence. */
  ghost predicate CommandStep(cfg: Config, c: char, a: State, b: State)
    requires StateOk(cfg, a)
  {
    exists m :: CommandDone(cfg, c, a, m) && b == m.(p := a.p.(escape := false, controlSequence := false))
  }

  /** The byte that should be a command. Another one leaves scrolling off. */
  ghost predicate RunStep(cfg: Config, c: Byte, a: State, b: State)
    requires StateOk(cfg, a)
  {
    if c == 0x1b then b == Hushed(a)
    else if IsCommand(c as char) then CommandStep(cfg, c as char, a, b)
    else b == Hushed(a).(p := a.p.(csiUnhandled := true))
  }

  /** The end of a control sequence, its missing parameters filled in. */
  ghost predicate FilledStep(cfg: Config, c: Byte, a: State, b: State)
    requires StateOk(cfg, a)
  {
    if a.p.decPrivate then
      b == a.(p := a.p.(decPrivate := false, controlSequence := false, escape := false),
              modes := a.modes.(cursorOn := CursorAfter(c as char, a.modes.cursorOn, a.values[..a.p.escValuesI])))
    else if a.p.csiUnhandled then
      b == Hushed(a).(p := if 0x40 <= c <= 0x7e then
                             a.p.(csiUnhandled := false, controlSequence := false, escape := false)
                           else a.p)
    else RunStep(cfg, c, a, b)
  }

  function WithDefaults(a: State, c: Byte): State
    requires a.p.escValuesI <= |a.values|
  {
    a.(values := Filled(a.values, a.p.escValuesI, Missing(c as char)))
  }

  ghost predicate FinishStep(cfg: Config, c: Byte, a: State, b: State)
    requires StateOk(cfg, a)
  {
    FilledStep(cfg, c, WithDefaults(a, c), b)
  }

  /** After a separator: the parameter is complete, or counts as zero, unless there is no
      room for another. */
  function Separate(a: State): State {
    var i := a.p.escValuesI;
    if a.p.rrr then a.(p := a.p.(escValuesI := i + 1, rrr := false))
    else if i < |a.values| then a.(p := a.p.(escValuesI := i + 1), values := a.values[i := 0])
    else a
  }

  /** After any other byte, which ends the parameter under way. */
  function Completed(a: State): State { a.(p := a.p.(escValuesI := Given(a.p), rrr := false)) }

  /** A byte inside a control sequence, which may open another kind of one. */
  ghost predicate SequenceStep(cfg: Config, c: Byte, a: State, b: State)
    requires StateOk(cfg, a)
  {
    if a.p.escapeOffset == 2 && c == 0x5b then
      b == a.(p := a.p.(discardNext := true, controlSequence := false, escape := false))
    else if a.p.escapeOffset == 2 && c == 0x3f then b == a.(p := a.p.(decPrivate := true))
    else if IsDigit(c) then
      b == if a.p.escValuesI == MAX_ESC_VALUES then a
           else a.(p := a.p.(rrr := true), values := WithDigit(a.values, a.p.escValuesI, c))
    else if c == 0x3b then b == Separate(a)
    else FinishStep(cfg, c, Completed(a), b)
  }

  /** Everything but the saved state back to its start, and the screen cleared. */
  function AfterReset(a: State): State
    requires a.v.bottom > 0 && a.v.cols > 0 && a.v.rows > 0
  {
    State(AT_REST.(codePoint := a.p.codePoint), a.values,
      Clear(a.v, true).(top := 0, bottom := a.v.rows, scrolling := true), PLAIN_PEN, START_MODES, a.saved, 0, 0)
  }

  predicate LineByte(c: Byte) { c in {0x44, 0x45, 0x4d} }

  /** Index, next line and reverse index. */
  function LineMoved(v: View, c: Byte): View
    requires v.bottom > 0 && v.cols > 0 && v.rows > 0
  {
    if c == 0x4d then FedBack(v, CursorY(v)) else FedLine(v, if c == 0x45 then 0 else CursorX(v), CursorY(v))
  }

  /** Save, restore and reset. */
  function StateMoved(a: State, c: Byte): State
    requires a.v.bottom > 0 && a.v.cols > 0 && a.v.rows > 0
  {
    if c == 0x37 then a.(saved := NowOf(a))
    else if c == 0x38 then
      a.(pen := a.saved.pen, v := a.v.(fg := a.saved.fg, bg := a.saved.bg, x := a.saved.x, y := a.saved.y))
    else if c == 0x63 then AfterReset(a)
    else a
  }

  function Simple(a: State, c: Byte): State
    requires a.v.bottom > 0 && a.v.cols > 0 && a.v.rows > 0
  {
    var m := if LineByte(c) then a.(v := LineMoved(a.v, c)) else StateMoved(a, c);
    m.(p := m.p.(escape := false))
  }

  /** The byte after an escape character. */
  ghost predicate StartStep(cfg: Config, c: Byte, a: State, b: State)
    requires StateOk(cfg, a)
  {
    if c == 0x5d then b == a.(p := a.p.(oscEscape := false, osc := true))
    else if c == 0x5b then
      && b == a.(p := a.p.(escValuesI := 0, rrr := false, csiUnhandled := false, controlSequence := true),
                 values := b.values)
      && |b.values| == |a.values| && AllZero(b.values)
    else if c == 0x28 || c == 0x29 then b == a.(p := a.p.(gSelect := c - 0x27, escape := false))
    else b == Simple(a, c)
  }

  ghost predicate ContinueStep(cfg: Config, c: Byte, a: State, b: State)
    requires StateOk(cfg, a)
  {
    if a.p.controlSequence then SequenceStep(cfg, c, a, b) else StartStep(cfg, c, a, b)
  }

  function OscNext(p: Progress, c: Byte): Progress {
    if p.oscEscape || c == 0x07 then p.(osc := false, oscEscape := false, escape := false)
    else p.(oscEscape := c == 0x1b)
  }

  /** One more byte of an escape sequence. */
  function Counted(a: State): State {
    a.(p := a.p.(escapeOffset := (a.p.escapeOffset + 1) % SIZE_LIMIT))
  }

  /** A string broken off by an escape sequence. */
  function Unstrung(a: State): State { a.(p := a.p.(osc := false, oscEscape := false)) }

  ghost predicate EscapeStep(cfg: Config, c: Byte, a: State, b: State)
    requires StateOk(cfg, a)
  {
    var n := Counted(a);
    if !n.p.osc then ContinueStep(cfg, c, n, b)
    else if n.p.oscEscape && c != 0x5c then
      ContinueStep(cfg, c, Unstrung(n), b)
    else b == n.(p := OscNext(n.p, c))
  }

  /** The tab stop after the cursor, or the last column. */
  function Tabbed(v: View, tabSize: nat): View
    requires v.rows > 0 && v.cols > 0 && tabSize > 0
  {
    Rebuilt(CursorX(v), tabSize);
    var stop := Quot(CursorX(v), tabSize) + 1;
    if stop >= v.cols then SetCursor(v, v.cols - 1, CursorY(v))
    else
      TimesNat(stop, tabSize);
      SetCursor(v, Times(stop, tabSize), CursorY(v))
  }

  /** Printing one character; in insert mode the rest of the line makes room for it. */
  ghost predicate Printed(v: View, w: View, insert: bool, g: Glyph)
    requires v.bottom > 0 && v.cols > 0 && v.rows > 0
  {
    if !insert then w == PutChar(v, g)
    else exists u :: MovedRight(v, u, CursorY(v), CursorX(v)) && u == v.(text := u.text) && w == PutChar(u, g)
  }

  /** What a byte does outside any sequence. */
  ghost predicate GroundStep(cfg: Config, c: Byte, a: State, b: State)
    requires StateOk(cfg, a)
  {
    var x, y := CursorX(a.v), CursorY(a.v);
    if c == 0x00 || c == 0x7f || c == 0x07 then b == a
    else if c == 0x1b then b == a.(p := a.p.(escape := true, escapeOffset := 0))
    else if c == 0x0e || c == 0x0f then b == a.(pen := a.pen.(charset := if c == 0x0e then 1 else 0))
    else if c == 0x08 then b == a.(v := SetCursor(a.v, if x == 0 then 0 else x - 1, y))
    else if c == 0x09 then b == a.(v := Tabbed(a.v, cfg.tabSize))
    else if 0x0a <= c <= 0x0c then b == a.(v := FedLine(a.v, if a.modes.onlcr then 0 else x, y))
    else if c == 0x0d then b == a.(v := SetCursor(a.v, 0, y))
    else b == a.(v := b.v) && Printed(a.v, b.v, a.modes.insert, GlyphIn(cfg, a.pen, a.modes, c))
  }

  /** The byte after a designation of a character set. */
  function Designate(a: State, c: Byte): State {
    a.(p := a.p.(gSelect := 0),
       modes := if a.p.gSelect == 1 then a.modes.(g0 := Designated(c, a.modes.g0))
                else a.modes.(g1 := Designated(c, a.modes.g1)))
  }

  /** A byte with no character under way. */
  ghost predicate FreshStep(cfg: Config, c: Byte, a: State, b: State)
    requires StateOk(cfg, a)
  {
    if 0xc0 <= c <= 0xf7 then b == a.(p := a.p.(unicodeRemaining := RuneTail(c), codePoint := RuneHead(c)))
    else if a.p.escape then EscapeStep(cfg, c, a, b)
    else if a.p.gSelect > 0 then b == Designate(a, c)
    else GroundStep(cfg, c, a, b)
  }

  function Cancelled(p: Progress): Progress {
    p.(discardNext := false, escape := false, controlSequence := false, unicodeRemaining := 0, osc := false,
       oscEscape := false, gSelect := 0)
  }

  function CutShort(a: State): State { a.(p := a.p.(unicodeRemaining := 0)) }

  /** A byte in the middle of a longer character, which may be cut short. */
  ghost predicate MidStep(cfg: Config, c: Byte, a: State, b: State)
    requires StateOk(cfg, a) && a.p.unicodeRemaining > 0
  {
    if 0x80 <= c <= 0xbf then
      var p := RuneStep(a.p, c);
      b == a.(p := p, v := if p.unicodeRemaining > 0 then a.v
                           else PutRune(a.v, cfg.glyphOf(p.codePoint), cfg.widthOf(p.codePoint)))
    else FreshStep(cfg, c, CutShort(a), b)
  }

  /** Any byte at all, in any state. */
  ghost predicate PutStep(cfg: Config, c: Byte, a: State, b: State) {
    StateOk(cfg, a) &&
    if a.p.discardNext || c == 0x18 || c == 0x1a then b == a.(p := Cancelled(a.p))
    else if a.p.unicodeRemaining == 0 then FreshStep(cfg, c, a, b)
    else MidStep(cfg, c, a, b)
  }

  /** A string of bytes, state by state. */
  ghost predicate IsFeed(cfg: Config, bytes: seq<Byte>, trace: seq<State>) {
    && |trace| == |bytes| + 1
    && forall i {:trigger Fed(cfg, bytes, trace, i)} :: 0 <= i < |bytes| ==> Fed(cfg, bytes, trace, i)
  }

  ghost predicate Fed(cfg: Config, bytes: seq<Byte>, trace: seq<State>, i: nat) {
    i < |bytes| && i + 1 < |trace| && PutStep(cfg, bytes[i], trace[i], trace[i + 1])
  }

  /** A string of bytes leads from one state to another. */
  ghost predicate Took(cfg: Config, bytes: seq<Byte>, a: State, b: State) {
    exists trace :: IsFeed(cfg, bytes, trace) && trace[0] == a && trace[|bytes|] == b
  }

  // ----- the steps by state -----

  /** Inside a control sequence of either kind. */
  predicate Within(p: Progress) {
    !p.discardNext && p.unicodeRemaining == 0 && p.escape && !p.osc && p.controlSequence
  }

  lemma {:induction false} PutGround(cfg: Config, c: Byte, a: State, b: State)
    requires PutStep(cfg, c, a, b) && Ground(a.p) && c != 0x18 && c != 0x1a && !(0xc0 <= c <= 0xf7)
    ensures StateOk(cfg, a) && GroundStep(cfg, c, a, b)
  {
  }

  lemma {:induction false} PutEscaped(cfg: Config, c: Byte, a: State, b: State)
    requires PutStep(cfg, c, a, b) && Escaped(a.p) && c != 0x18 && c != 0x1a && !(0xc0 <= c <= 0xf7)
    ensures StateOk(cfg, Counted(a)) && StartStep(cfg, c, Counted(a), b)
  {
  }

  lemma {:induction false} PutWithin(cfg: Config, c: Byte, a: State, b: State)
    requires PutStep(cfg, c, a, b) && Within(a.p) && c != 0x18 && c != 0x1a && !(0xc0 <= c <= 0xf7)
    ensures StateOk(cfg, Counted(a)) && SequenceStep(cfg, c, Counted(a), b)
  {
  }

  /** What a byte does to the saved state. */
  lemma {:induction false} PutKeepsSaved(cfg: Config, c: Byte, a: State, b: State)
    requires PutStep(cfg, c, a, b)
    ensures SaveKept(c, a.p, a.saved, b.p, b.saved)
  {
    if !(a.p.discardNext || c == 0x18 || c == 0x1a) && !(a.p.unicodeRemaining > 0 && 0x80 <= c <= 0xbf) {
      FreshKeepsSaved(cfg, c, CutShort(a), b);
    }
  }

  lemma {:induction false} FreshKeepsSaved(cfg: Config, c: Byte, a: State, b: State)
    requires StateOk(cfg, a) && FreshStep(cfg, c, a, b)
    ensures SaveKept(c, a.p, a.saved, b.p, b.saved)
  {
    if !(0xc0 <= c <= 0xf7) && a.p.escape {
      var n := Counted(a);
      if !n.p.osc {
        ContinueKeepsSaved(cfg, c, n, b);
      } else if n.p.oscEscape && c != 0x5c {
        ContinueKeepsSaved(cfg, c, Unstrung(n), b);
      }
    }
  }

  lemma {:induction false} ContinueKeepsSaved(cfg: Config, c: Byte, a: State, b: State)
    requires StateOk(cfg, a) && a.p.escape && !a.p.osc && ContinueStep(cfg, c, a, b)
    ensures b.saved == a.saved || (c == 0x37 && !a.p.controlSequence)
    ensures !Awaits(b.p)
  {
    if a.p.controlSequence && !IsDigit(c) && c != 0x3b && !(a.p.escapeOffset == 2 && (c == 0x5b || c == 0x3f)) {
      FinishKeepsSaved(cfg, c, Completed(a), b);
    }
  }

  lemma {:induction false} FinishKeepsSaved(cfg: Config, c: Byte, a: State, b: State)
    requires StateOk(cfg, a) && a.p.controlSequence && FinishStep(cfg, c, a, b)
    ensures b.saved == a.saved && !Awaits(b.p)
  {
  }

  /** Byte `i` comes right after an escape character, bytes of longer characters aside. */
  predicate AfterEscape(bytes: seq<Byte>, i: nat)
    requires i <= |bytes|
  {
    exists k :: 0 <= k < i && bytes[k] == 0x1b && forall j :: k < j < i ==> bytes[j] >= 0x80
  }

  /** No byte saves the state again. */
  predicate NeverSaves(bytes: seq<Byte>) {
    forall i :: 0 <= i < |bytes| && bytes[i] == 0x37 ==> !AfterEscape(bytes, i)
  }

  lemma {:induction false} AfterEscapeMore(bytes: seq<Byte>, i: nat)
    requires i < |bytes| && (bytes[i] == 0x1b || (bytes[i] >= 0x80 && AfterEscape(bytes, i)))
    ensures AfterEscape(bytes, i + 1)
  {
    if bytes[i] != 0x1b {
      var k :| 0 <= k < i && bytes[k] == 0x1b && forall j :: k < j < i ==> bytes[j] >= 0x80;
      assert forall j :: k < j < i + 1 ==> bytes[j] >= 0x80;
    }
  }

  /** No byte of a fed string was one that saves. */
  ghost predicate NoneSaved(bytes: seq<Byte>, trace: seq<State>)
    requires |trace| == |bytes| + 1
  {
    forall i :: 0 <= i < |bytes| && bytes[i] == 0x37 ==> !Awaits(trace[i].p)
  }

  lemma {:induction false} SavedThroughout(cfg: Config, bytes: seq<Byte>, trace: seq<State>, n: nat)
    requires IsFeed(cfg, bytes, trace) && NoneSaved(bytes, trace) && n <= |bytes|
    ensures trace[n].saved == trace[0].saved
    decreases n
  {
    if n > 0 {
      SavedThroughout(cfg, bytes, trace, n - 1);
      assert Fed(cfg, bytes, trace, n - 1);
      PutKeepsSaved(cfg, bytes[n - 1], trace[n - 1], trace[n]);
    }
  }

  /** Where `i` bytes that do not save lead. */
  ghost predicate Unsaved(bytes: seq<Byte>, i: nat, p: Progress, saved: Saved, p': Progress, saved': Saved)
    requires i <= |bytes|
  {
    !Awaits(p) && NeverSaves(bytes) ==> saved' == saved && (Awaits(p') ==> AfterEscape(bytes, i))
  }

  lemma {:induction false} UnsavedMore(bytes: seq<Byte>, i: nat, p: Progress, saved: Saved, q: Progress, saved1: Saved,
                                       q': Progress, saved2: Saved)
    requires i < |bytes| && Unsaved(bytes, i, p, saved, q, saved1) && SaveKept(bytes[i], q, saved1, q', saved2)
    ensures Unsaved(bytes, i + 1, p, saved, q', saved2)
  {
    if !Awaits(p) && NeverSaves(bytes) && Awaits(q') {
      AfterEscapeMore(bytes, i);
    }
  }

  predicate Printable(bytes: seq<Byte>) { forall i :: 0 <= i < |bytes| ==> 0x20 <= bytes[i] <= 0x7e }

  function PutAll(v: View, bytes: seq<Byte>): (r: View)
    requires v.bottom > 0 && v.cols > 0
    ensures r.bottom == v.bottom && r.cols == v.cols && r.rows == v.rows
    decreases |bytes|
  {
    if bytes == [] then v else PutChar(PutAll(v, bytes[..|bytes| - 1]), bytes[|bytes| - 1])
  }

  /** Where `i` printable bytes lead. */
  ghost predicate TextStep(cfg: Config, a: State, b: State, bytes: seq<Byte>, i: nat)
    requires i <= |bytes|
  {
    Ground(a.p) && PlainNow(a) && Printable(bytes) && StateOk(cfg, a) ==> b == a.(v := PutAll(a.v, bytes[..i]))
  }

  lemma {:induction false} TextMore(cfg: Config, a: State, b: State, c: State, bytes: seq<Byte>, i: nat)
    requires i < |bytes| && TextStep(cfg, a, b, bytes, i) && PutStep(cfg, bytes[i], b, c)
    ensures TextStep(cfg, a, c, bytes, i + 1)
  {
    assert bytes[..i + 1][..i] == bytes[..i];
    if Ground(a.p) && PlainNow(a) && Printable(bytes) && StateOk(cfg, a) {
      PutGround(cfg, bytes[i], b, c);
    }
  }

  /** Text that fits on the line moves the cursor along it. */
  lemma {:induction false} TextOnLine(v: View, bytes: seq<Byte>)
    requires v.bottom > 0 && v.x + |bytes| <= v.cols && v.cols > 0
    ensures var w := PutAll(v, bytes);
            w == v.(text := w.text, x := v.x + |bytes|) && |w.text| == |v.text|
    decreases |bytes|
  {
    if bytes != [] {
      TextOnLine(v, bytes[..|bytes| - 1]);
    }
  }

  /** A longer character with `k` bytes to come. */
  predicate Pending(p: Progress, k: nat, codePoint: nat) {
    p.unicodeRemaining == k && p.codePoint == codePoint && !p.discardNext && !p.escape && p.gSelect == 0
  }

  lemma {:induction false} Slots(cp: nat)
    ensures cp / 4096 * 4096 + cp / 64 % 64 * 64 == cp / 64 * 64
    ensures cp / 262144 * 262144 + cp / 4096 % 64 * 4096 == cp / 4096 * 4096
  {
    var a := cp / 64;
    var b := cp / 4096;
    assert a / 64 == b;
    assert b / 64 == cp / 262144;
  }
}

/** What whole strings of bytes do to a terminal: numbers, control sequences, colours,
    modes, saved states and characters of several bytes. */
module Sequences {
  import opened Rows
  import opened Pixels
  import opened TextView
  import opened RowEdits
  import opened Rendering
  import opened Commands
  import opened Parsing

  // ----- taking strings apart -----

  lemma {:induction false} TookFirst(cfg: Config, bytes: seq<Byte>, a: State, b: State) returns (m: State)
    requires Took(cfg, bytes, a, b) && bytes != []
    ensures PutStep(cfg, bytes[0], a, m) && Took(cfg, bytes[1..], m, b)
  {
    var trace :| IsFeed(cfg, bytes, trace) && trace[0] == a && trace[|bytes|] == b;
    m := trace[1];
    assert Fed(cfg, bytes, trace, 0);
    forall i {:trigger Fed(cfg, bytes[1..], trace[1..], i)} | 0 <= i < |bytes| - 1
      ensures Fed(cfg, bytes[1..], trace[1..], i)
    {
      assert Fed(cfg, bytes, trace, i + 1);
    }
    assert IsFeed(cfg, bytes[1..], trace[1..]);
  }

  lemma {:induction false} TookNone(cfg: Config, a: State, b: State)
    requires Took(cfg, [], a, b)
    ensures b == a
  {
  }

  lemma {:induction false} TookOne(cfg: Config, c: Byte, a: State, b: State)
    requires Took(cfg, [c], a, b)
    ensures PutStep(cfg, c, a, b)
  {
    var m := TookFirst(cfg, [c], a, b);
    assert [c][1..] == [];
    TookNone(cfg, m, b);
  }

  lemma {:induction false} TookPart(cfg: Config, bytes: seq<Byte>, trace: seq<State>, lo: nat, hi: nat)
    requires IsFeed(cfg, bytes, trace) && lo <= hi <= |bytes|
    ensures Took(cfg, bytes[lo..hi], trace[lo], trace[hi])
  {
    var part, states := bytes[lo..hi], trace[lo..hi + 1];
    forall i {:trigger Fed(cfg, part, states, i)} | 0 <= i < hi - lo
      ensures Fed(cfg, part, states, i)
    {
      assert Fed(cfg, bytes, trace, lo + i);
    }
    assert IsFeed(cfg, part, states);
  }

  lemma {:induction false} TookSplit(cfg: Config, x: seq<Byte>, y: seq<Byte>, a: State, b: State) returns (m: State)
    requires Took(cfg, x + y, a, b)
    ensures Took(cfg, x, a, m) && Took(cfg, y, m, b)
  {
    var trace :| IsFeed(cfg, x + y, trace) && trace[0] == a && trace[|x + y|] == b;
    m := trace[|x|];
    TookPart(cfg, x + y, trace, 0, |x|);
    TookPart(cfg, x + y, trace, |x|, |x + y|);
    assert (x + y)[0..|x|] == x && (x + y)[|x|..|x + y|] == y;
  }

  lemma {:induction false} TookOk(cfg: Config, bytes: seq<Byte>, a: State, b: State)
    requires Took(cfg, bytes, a, b) && bytes != []
    ensures StateOk(cfg, a)
  {
    var m := TookFirst(cfg, bytes, a, b);
  }

  // ----- numbers -----

  /** A number in decimal. */
  function Decimal(n: nat): (r: seq<Byte>)
    ensures r != []
  {
    (if n >= 10 then Decimal(n / 10) else []) + [0x30 + n % 10]
  }

  /** The parser further on in a sequence, with nothing else changed. */
  ghost predicate Further(a: State, b: State) { b == a.(p := a.p.(escapeOffset := b.p.escapeOffset)) }

  lemma {:induction false} DigitTaken(cfg: Config, c: Byte, a: State, b: State)
    requires Took(cfg, [c], a, b) && Within(a.p) && IsDigit(c)
    ensures a.p.escValuesI == MAX_ESC_VALUES ==> Further(a, b)
    ensures a.p.escValuesI < MAX_ESC_VALUES ==>
              b == a.(p := a.p.(rrr := true, escapeOffset := b.p.escapeOffset),
                      values := WithDigit(a.values, a.p.escValuesI, c))
  {
    TookOne(cfg, c, a, b);
    PutWithin(cfg, c, a, b);
  }

  lemma {:induction false} NumberSoFar(values: seq<Word32>, i: nat, n: nat, now: seq<Word32>)
    requires i < |values| && n < WORD && values[i] == 0
    requires now == WithDigit(if n >= 10 then values[i := n / 10] else values, i, 0x30 + n % 10)
    ensures now == values[i := n]
  {
  }

  /** The digits of a number make it the parameter under way. */
  lemma {:induction false} NumberRead(cfg: Config, n: nat, a: State, b: State)
    requires Took(cfg, Decimal(n), a, b) && Within(a.p) && n < WORD
    requires a.p.escValuesI < MAX_ESC_VALUES == |a.values| && a.values[a.p.escValuesI] == 0
    ensures b == a.(p := a.p.(rrr := true, escapeOffset := b.p.escapeOffset),
                    values := a.values[a.p.escValuesI := n])
    decreases n
  {
    var i := a.p.escValuesI;
    if n >= 10 {
      var m := TookSplit(cfg, Decimal(n / 10), [0x30 + n % 10], a, b);
      NumberRead(cfg, n / 10, a, m);
      DigitTaken(cfg, 0x30 + n % 10, m, b);
    } else {
      assert Decimal(n) == [0x30 + n % 10];
      DigitTaken(cfg, 0x30 + n % 10, a, b);
    }
    NumberSoFar(a.values, i, n, b.values);
  }

  /** After sixteen parameters a number is ignored. */
  lemma {:induction false} NumberIgnored(cfg: Config, n: nat, a: State, b: State)
    requires Took(cfg, Decimal(n), a, b) && Within(a.p) && a.p.escValuesI == MAX_ESC_VALUES
    ensures Further(a, b)
    decreases n
  {
    if n >= 10 {
      var m := TookSplit(cfg, Decimal(n / 10), [0x30 + n % 10], a, b);
      NumberIgnored(cfg, n / 10, a, m);
      DigitTaken(cfg, 0x30 + n % 10, m, b);
    } else {
      assert Decimal(n) == [0x30 + n % 10];
      DigitTaken(cfg, 0x30 + n % 10, a, b);
    }
  }

  // ----- parameters -----

  /** Numbers with separators between them. */
  function Parameters(ps: seq<Word32>): seq<Byte> {
    if ps == [] then []
    else (if |ps| == 1 then [] else Parameters(ps[..|ps| - 1]) + [0x3b]) + Decimal(ps[|ps| - 1])
  }

  /** How many parameters are complete while the last of `n` is under way. */
  function Complete(n: nat): nat { if n == 0 then 0 else if n <= MAX_ESC_VALUES then n - 1 else MAX_ESC_VALUES }

  /** The parameters that are kept. */
  function Kept(ps: seq<Word32>): seq<Word32> { if |ps| <= MAX_ESC_VALUES then ps else ps[..MAX_ESC_VALUES] }

  ghost predicate Holding(values: seq<Word32>, ps: seq<Word32>) {
    |values| == MAX_ESC_VALUES
    && forall k :: 0 <= k < MAX_ESC_VALUES ==> values[k] == if k < |ps| then ps[k] else 0
  }

  /** The state `b` has read the parameters `ps` since `a`. */
  ghost predicate HasRead(ps: seq<Word32>, a: State, b: State) {
    && b == a.(p := a.p.(escValuesI := Complete(|ps|), rrr := 1 <= |ps| <= MAX_ESC_VALUES,
                         escapeOffset := b.p.escapeOffset), values := b.values)
    && Holding(b.values, ps)
  }

  /** A separator after the parameters `ps`. */
  ghost predicate Separated(ps: seq<Word32>, a: State, b: State) {
    && b == a.(p := a.p.(escValuesI := if |ps| <= MAX_ESC_VALUES then |ps| else MAX_ESC_VALUES, rrr := false,
                         escapeOffset := b.p.escapeOffset), values := b.values)
    && Holding(b.values, ps)
  }

  lemma {:induction false} SeparatorTaken(cfg: Config, ps: seq<Word32>, a: State, m: State, b: State)
    requires HasRead(ps, a, m) && ps != [] && Within(a.p) && Took(cfg, [0x3b], m, b)
    ensures Separated(ps, a, b)
  {
    TookOne(cfg, 0x3b, m, b);
    PutWithin(cfg, 0x3b, m, b);
  }

  lemma {:induction false} NumberTaken(cfg: Config, ps: seq<Word32>, n: Word32, a: State, m: State, b: State)
    requires Separated(ps, a, m) && Within(a.p) && Took(cfg, Decimal(n), m, b)
    ensures HasRead(ps + [n], a, b)
  {
    if |ps| < MAX_ESC_VALUES {
      NumberRead(cfg, n, m, b);
    } else {
      NumberIgnored(cfg, n, m, b);
    }
  }

  /** Any number of parameters, of which the first sixteen count. */
  lemma {:induction false} ParametersRead(cfg: Config, ps: seq<Word32>, a: State, b: State)
    requires Took(cfg, Parameters(ps), a, b) && Within(a.p) && a.p.escValuesI == 0 && !a.p.rrr && Holding(a.values, [])
    ensures HasRead(ps, a, b)
    decreases |ps|
  {
    if ps == [] {
      TookNone(cfg, a, b);
    } else {
      var front, last := ps[..|ps| - 1], ps[|ps| - 1];
      assert front + [last] == ps;
      if |ps| == 1 {
        assert Parameters(ps) == Decimal(last) && front == [];
        NumberTaken(cfg, [], last, a, a, b);
      } else {
        var m := TookSplit(cfg, Parameters(front) + [0x3b], Decimal(last), a, b);
        var u := TookSplit(cfg, Parameters(front), [0x3b], a, m);
        ParametersRead(cfg, front, a, u);
        SeparatorTaken(cfg, front, a, u, m);
        NumberTaken(cfg, front, last, a, m, b);
      }
    }
  }

  // ----- control sequences -----

  const CSI: seq<Byte> := [0x1b, 0x5b]

  /** A control sequence with the parameters `ps`. */
  function ControlSequence(ps: seq<Word32>, c: Byte): seq<Byte> { CSI + Parameters(ps) + [c] }

  /** Between sequences, with nothing left over from a private one. */
  predicate Ready(a: State) { Ground(a.p) && !a.p.decPrivate }

  lemma {:induction false} Opened(cfg: Config, a: State, b: State)
    requires Took(cfg, CSI, a, b) && Ground(a.p)
    ensures Within(b.p) && Holding(b.values, []) && b.p.escapeOffset == 1 && StateOk(cfg, a)
    ensures b == a.(p := a.p.(escape := true, controlSequence := true, escapeOffset := 1, escValuesI := 0, rrr := false,
                              csiUnhandled := false), values := b.values)
  {
    var m := TookFirst(cfg, CSI, a, b);
    assert CSI[1..] == [0x5b];
    TookOne(cfg, 0x5b, m, b);
    PutGround(cfg, 0x1b, a, m);
    PutEscaped(cfg, 0x5b, m, b);
  }

  /** The command `c` was carried out with the parameters `ps`. */
  ghost predicate Carried(cfg: Config, c: char, ps: seq<Word32>, a: State, b: State)
    requires PaletteOk(cfg.palette) && Sized(a.v)
  {
    && b == a.(p := b.p, values := b.values, v := b.v, pen := b.pen,
               modes := a.modes.(insert := InsertAfter(c, a.modes.insert, ps)),
               sx := if c == 's' then CursorX(a.v) else a.sx, sy := if c == 's' then CursorY(a.v) else a.sy)
    && Ready(b) && b.v.scrolling == a.v.scrolling
    && Commanded(c, Quiet(a.v), Quiet(b.v), ArgsFor(c, ps, a.sx, a.sy))
    && (if c == 'm' then RenditionOf(b) == Rendered(cfg, RenditionOf(a), ps) else b.pen == a.pen)
  }

  function ArgsFor(c: char, ps: seq<Word32>, sx: nat, sy: nat): Args {
    Args(if |ps| > 0 then ps[0] else Missing(c), if |ps| > 1 then ps[1] else Missing(c), |ps|, sx, sy)
  }

  lemma {:induction false} FinalByte(c: Byte)
    requires IsCommand(c as char)
    ensures c != 0x18 && c != 0x1a && 0x40 <= c < 0x80 && c != 0x5b && !IsDigit(c) && c != 0x3b && c != 0x3f
  {
  }

  /** The parameters as the command finds them. */
  lemma {:induction false} Found(c: Byte, ps: seq<Word32>, a: State, m: State)
    requires HasRead(ps, a, m)
    ensures var n := WithDefaults(Completed(Counted(m)), c);
            && n.p.escValuesI == |Kept(ps)| && n.values[..n.p.escValuesI] == Kept(ps) && |n.values| == MAX_ESC_VALUES
            && Args(n.values[0], n.values[1], n.p.escValuesI, a.sx, a.sy) == ArgsFor(c as char, Kept(ps), a.sx, a.sy)
  {
  }

  lemma {:induction false} Finished(cfg: Config, c: Byte, a: State, b: State)
    requires Took(cfg, [c], a, b) && Within(a.p) && !a.p.decPrivate && !a.p.csiUnhandled && IsCommand(c as char)
    ensures StateOk(cfg, a)
    ensures var n := WithDefaults(Completed(Counted(a)), c);
            StateOk(cfg, n) && CommandStep(cfg, c as char, n, b)
  {
    FinalByte(c);
    TookOne(cfg, c, a, b);
    PutWithin(cfg, c, a, b);
  }

  /** From the command with its parameters in place to the sequence as a whole. */
  lemma {:induction false} DoneMeans(cfg: Config, c: char, ps: seq<Word32>, a: State, n: State, d: State, b: State)
    requires StateOk(cfg, a) && StateOk(cfg, n) && n == a.(p := n.p, values := n.values)
    requires n.values[..n.p.escValuesI] == ps && CommandDone(cfg, c, n, d)
    requires Args(n.values[0], n.values[1], n.p.escValuesI, a.sx, a.sy) == ArgsFor(c, ps, a.sx, a.sy)
    requires b == d.(p := b.p) && Ready(b)
    ensures Carried(cfg, c, ps, a, b)
  {
  }

  lemma {:induction false} CarriedOut(cfg: Config, c: Byte, ps: seq<Word32>, a: State, o: State, m: State, b: State)
    requires StateOk(cfg, a) && Ready(a) && IsCommand(c as char) && HasRead(ps, o, m) && Took(cfg, [c], m, b)
    requires o == a.(p := a.p.(escape := true, controlSequence := true, escapeOffset := 1, escValuesI := 0,
             rrr := false,
                               csiUnhandled := false), values := o.values)
    ensures Carried(cfg, c as char, Kept(ps), a, b)
  {
    Found(c, ps, o, m);
    Finished(cfg, c, m, b);
    var n := WithDefaults(Completed(Counted(m)), c);
    var d :| CommandDone(cfg, c as char, n, d) && b == d.(p := n.p.(escape := false, controlSequence := false));
    DoneMeans(cfg, c as char, Kept(ps), a, n, d, b);
  }

  /** The bytes of a control sequence, with any number of parameters, lead to its command
      carried out with the first sixteen of them. */
  lemma {:induction false} SequenceRuns(cfg: Config, ps: seq<Word32>, c: Byte, a: State, b: State)
    requires Took(cfg, ControlSequence(ps, c), a, b) && Ready(a) && IsCommand(c as char)
    ensures StateOk(cfg, a) && Carried(cfg, c as char, Kept(ps), a, b)
  {
    var m := TookSplit(cfg, CSI + Parameters(ps), [c], a, b);
    var o := TookSplit(cfg, CSI, Parameters(ps), a, m);
    Opened(cfg, a, o);
    ParametersRead(cfg, ps, o, m);
    CarriedOut(cfg, c, ps, a, o, m, b);
  }
}

/** Printing a 32-bit integer in a base and parsing it back. */
module Numbers {
  import opened Common

  const NUL := '\0'
  const UINT32 := 0x1_0000_0000
  const INT32_MAX := 0x7fff_ffff
  const INT32_MIN := -0x8000_0000

  /** Every 32-bit integer in every base, except that in base ten the smallest one has
      no negation. */
  predicate Printable(v: int, base: nat) {
    2 <= base <= 36 && INT32_MIN <= v <= INT32_MAX && !(base == 10 && v == INT32_MIN)
  }

  /** What C's conversion to an unsigned 32-bit type makes of a 32-bit integer. */
  function Unsigned(v: int): int { if v < 0 then v + UINT32 else v }

  function DigitChar(d: nat): char
    requires d < 36
  {
    if d > 9 then ((d - 10) + 97) as char else (d + 48) as char
  }

  /** The value of a digit or letter, or -1. */
  function DigitOf(c: char): int {
    if '0' <= c <= '9' then c as int - 48
    else if 'a' <= c <= 'z' then c as int - 97 + 10
    else if 'A' <= c <= 'Z' then c as int - 65 + 10
    else -1
  }

  predicate IsDigit(c: char, base: nat) { 0 <= DigitOf(c) < base }

  /** The numeral of a number, most significant digit first. */
  function Numeral(u: nat, base: nat): seq<char>
    requires 2 <= base <= 36
    decreases u
  {
    if u < base then [DigitChar(u)] else Shorter(u, base); Numeral(u / base, base) + [DigitChar(u % base)]
  }

  /** Positional value. */
  function Value(s: seq<char>, base: nat): int
    decreases |s|
  {
    if s == [] then 0 else Value(s[..|s| - 1], base) * base + DigitOf(s[|s| - 1])
  }

  lemma {:induction false} Shorter(u: nat, base: nat)
    requires u > 0 && base >= 2
    ensures 0 <= u / base < u
  {
    var q := u / base;
    assert u == q * base + u % base;
    assert q * base >= q * 2;
  }

  lemma {:induction false} AtLeastOne(u: nat, base: nat)
    requires base > 0 && u >= base
    ensures u / base > 0 && 0 <= u % base < base && u / base * base + u % base == u
  {
    var q := u / base;
    assert u == q * base + u % base;
  }

  lemma {:induction false} DigitRoundTrip(d: nat, base: nat)
    requires d < base <= 36
    ensures DigitOf(DigitChar(d)) == d && IsDigit(DigitChar(d), base) && DigitChar(d) != NUL
  {
  }

  predicate AllDigits(s: seq<char>, base: nat) { forall i :: 0 <= i < |s| ==> IsDigit(s[i], base) }

  /** A numeral consists of digits, has no needless leading zero, and has the number as
      its value. */
  lemma {:induction false} NumeralValue(u: nat, base: nat)
    requires 2 <= base <= 36
    ensures Numeral(u, base) != [] && AllDigits(Numeral(u, base), base) && Value(Numeral(u, base), base) == u
    ensures Numeral(u, base)[0] == '0' ==> u == 0 && |Numeral(u, base)| == 1
    decreases u
  {
    if u < base {
      DigitRoundTrip(u, base);
      assert Value([DigitChar(u)][..0], base) == 0;
    } else {
      Shorter(u, base);
      var q, d := u / base, u % base;
      NumeralValue(q, base);
      DigitRoundTrip(d, base);
      var n := Numeral(u, base);
      assert n[..|n| - 1] == Numeral(q, base);
      AtLeastOne(u, base);
    }
  }

  const DIGITS := "0123456789abcdefghijklmnopqrstuvwxyz"

  function Power(base: nat, i: nat): (r: nat)
    ensures base > 0 ==> r > 0
  {
    if i == 0 then 1 else base * Power(base, i - 1)
  }

  lemma {:induction false} DigitIs(d: nat)
    requires d < 36
    ensures DigitChar(d) == DIGITS[d] && DigitOf(DIGITS[d]) == d
  {
  }

  lemma {:induction false} LastDigit(u: nat, base: nat)
    requires 2 <= base <= 36
    ensures 0 <= u % base < 36 && Numeral(u, base) != []
    ensures Numeral(u, base)[|Numeral(u, base)| - 1] == DIGITS[u % base]
  {
    DigitIs(u % base);
    if u < base { Below(u, base); }
  }

  lemma {:induction false} OtherDigits(u: nat, base: nat, i: nat)
    requires 2 <= base <= 36 && 0 < i < |Numeral(u, base)|
    ensures base <= u && i - 1 < |Numeral(u / base, base)|
    ensures Numeral(u, base)[|Numeral(u, base)| - 1 - i] == Numeral(u / base, base)[|Numeral(u / base, base)| - i]
  {
  }

  /** What is left after `i` digits have been cut off. */
  function CutOff(u: nat, base: nat, i: nat): nat
    requires base > 0
    decreases i
  {
    if i == 0 then u else Split(u, base); CutOff(u / base, base, i - 1)
  }

  lemma {:induction false} CutOffIs(u: nat, base: nat, i: nat)
    requires base > 0
    ensures CutOff(u, base, i) == u / Power(base, i)
    decreases i
  {
    if i > 0 {
      CutOffIs(u / base, base, i - 1);
      DivTwice(u, base, Power(base, i - 1));
    }
  }

  lemma {:induction false} DigitCut(u: nat, base: nat, i: nat)
    requires 2 <= base <= 36 && i < |Numeral(u, base)|
    ensures 0 <= CutOff(u, base, i) % base < 36
    ensures Numeral(u, base)[|Numeral(u, base)| - 1 - i] == DIGITS[CutOff(u, base, i) % base]
    decreases i
  {
    if i == 0 {
      LastDigit(u, base);
    } else {
      OtherDigits(u, base, i);
      DigitCut(u / base, base, i - 1);
    }
  }

  /** Digit `i` from the right, among the digits 0 to 9 and the letters from a on. */
  lemma {:induction false} NumeralDigit(u: nat, base: nat, i: nat)
    requires 2 <= base <= 36 && i < |Numeral(u, base)|
    ensures 0 <= u / Power(base, i) % base < 36
    ensures Numeral(u, base)[|Numeral(u, base)| - 1 - i] == DIGITS[u / Power(base, i) % base]
  {
    DigitCut(u, base, i);
    CutOffIs(u, base, i);
  }

  /** What is printed: a minus sign only in base ten. */
  function Printed(v: int, base: nat): seq<char>
    requires Printable(v, base)
  {
    if v < 0 && base == 10 then ['-'] + Numeral(-v, base) else Numeral(Unsigned(v), base)
  }

  // ----- parsing -----

  predicate IsBlank(c: char) { c == ' ' || c == '\t' || c == '\n' }

  predicate Terminated(s: seq<char>, i: nat) { exists k :: i <= k < |s| && s[k] == NUL }

  function SkipBlanks(s: seq<char>, i: nat): (r: nat)
    requires Terminated(s, i)
    ensures i <= r && Terminated(s, r)
    decreases |s| - i
  {
    if IsBlank(s[i]) then SkipBlanks(s, i + 1) else i
  }

  /** The end of the longest run of digits. */
  function DigitsEnd(s: seq<char>, i: nat, base: nat): (r: nat)
    requires Terminated(s, i)
    ensures i <= r < |s|
    decreases |s| - i
  {
    if IsDigit(s[i], base) then DigitsEnd(s, i + 1, base) else i
  }

  lemma {:induction false} EndsRun(s: seq<char>, i: nat, base: nat)
    requires Terminated(s, i)
    ensures AllDigits(s[i..DigitsEnd(s, i, base)], base) && !IsDigit(s[DigitsEnd(s, i, base)], base)
    decreases |s| - i
  {
    if IsDigit(s[i], base) {
      EndsRun(s, i + 1, base);
      var e := DigitsEnd(s, i + 1, base);
      assert s[i..e] == [s[i]] + s[i + 1..e];
    }
  }

  function SignEnd(s: seq<char>, i: nat): (r: nat)
    requires Terminated(s, i)
    ensures i <= r && Terminated(s, r)
  {
    if s[i] == '-' || s[i] == '+' then i + 1 else i
  }

  predicate HexMark(s: seq<char>, i: nat) { i + 1 < |s| && s[i] == '0' && (s[i + 1] == 'x' || s[i + 1] == 'X') }

  /** The base to use and where the digits start. */
  function Prefix(s: seq<char>, i: nat, base: nat): (r: (nat, nat))
    requires Terminated(s, i)
    ensures i <= r.1 && Terminated(s, r.1)
  {
    if (base == 0 || base == 16) && HexMark(s, i) then
      (16, AfterMark(s, i, 2))
    else if base == 0 then
      if s[i] == '0' then (8, AfterMark(s, i, 1)) else (10, i)
    else (base, i)
  }

  function AfterMark(s: seq<char>, i: nat, k: nat): (r: nat)
    requires Terminated(s, i) && i + k <= |s| && forall j :: i <= j < i + k ==> s[j] != NUL
    ensures r == i + k && Terminated(s, r)
  {
    i + k
  }

  /** The number after a sign, and where it ends. */
  function NumberAt(s: seq<char>, i: nat, base: nat): (int, nat)
    requires Terminated(s, i)
  {
    var (b, k) := Prefix(s, i, base);
    var e := DigitsEnd(s, k, b);
    (Value(s[k..e], b), e)
  }

  function SignedAt(s: seq<char>, i: nat, base: nat): (int, nat)
    requires Terminated(s, i)
  {
    var (v, e) := NumberAt(s, SignEnd(s, i), base);
    (if s[i] == '-' then -v else v, e)
  }

  /** The number a string starts with, and where it ends. */
  function Parsed(s: seq<char>, base: nat): (int, nat)
    requires Terminated(s, 0)
  {
    SignedAt(s, SkipBlanks(s, 0), base)
  }

  // ----- what blanks, signs, prefixes and letters mean -----

  /** A number starts here at once. */
  predicate Starts(s: seq<char>) { s != [] && !IsBlank(s[0]) && s[0] != '-' && s[0] != '+' }

  lemma {:induction false} EndAfter(p: seq<char>, s: seq<char>, i: nat, base: nat)
    requires Terminated(s, i)
    ensures Terminated(p + s, |p| + i) && DigitsEnd(p + s, |p| + i, base) == |p| + DigitsEnd(s, i, base)
    decreases |s| - i
  {
    var k :| i <= k < |s| && s[k] == NUL;
    assert (p + s)[|p| + k] == NUL && (p + s)[|p| + i] == s[i];
    if IsDigit(s[i], base) {
      EndAfter(p, s, i + 1, base);
    }
  }

  /** The digits from `i` on have the same value and end with something before them. */
  lemma {:induction false} RunAfter(p: seq<char>, s: seq<char>, i: nat, base: nat)
    requires Terminated(s, i)
    ensures Terminated(p + s, |p| + i)
    ensures var e, f := DigitsEnd(s, i, base), DigitsEnd(p + s, |p| + i, base);
            f == |p| + e && Value((p + s)[|p| + i..f], base) == Value(s[i..e], base)
  {
    EndAfter(p, s, i, base);
    var e := DigitsEnd(s, i, base);
    assert (p + s)[|p| + i..|p| + e] == s[i..e];
  }

  lemma {:induction false} PrefixAfter(p: seq<char>, s: seq<char>, i: nat, base: nat)
    requires Terminated(s, i)
    ensures Terminated(p + s, |p| + i)
    ensures var r, q := Prefix(s, i, base), Prefix(p + s, |p| + i, base);
            q.0 == r.0 && q.1 == |p| + r.1
  {
    EndAfter(p, s, i, 0);
    assert (p + s)[|p| + i] == s[i];
    assert i + 1 < |s| ==> (p + s)[|p| + i + 1] == s[i + 1];
  }

  lemma {:induction false} NumberAfter(p: seq<char>, s: seq<char>, i: nat, base: nat)
    requires Terminated(s, i)
    ensures Terminated(p + s, |p| + i)
    ensures var r, q := NumberAt(s, i, base), NumberAt(p + s, |p| + i, base);
            q.0 == r.0 && q.1 == |p| + r.1
  {
    PrefixAfter(p, s, i, base);
    var (b, k) := Prefix(s, i, base);
    RunAfter(p, s, k, b);
  }

  lemma {:induction false} SignAfter(p: seq<char>, s: seq<char>, i: nat)
    requires Terminated(s, i) && Terminated(p + s, |p| + i)
    ensures (p + s)[|p| + i] == s[i] && SignEnd(p + s, |p| + i) == |p| + SignEnd(s, i)
  {
  }

  lemma {:induction false} SignedAfter(p: seq<char>, s: seq<char>, i: nat, base: nat)
    requires Terminated(s, i)
    ensures Terminated(p + s, |p| + i)
    ensures var r, q := SignedAt(s, i, base), SignedAt(p + s, |p| + i, base);
            q.0 == r.0 && q.1 == |p| + r.1
  {
    EndAfter(p, s, i, 0);
    SignAfter(p, s, i);
    NumberAfter(p, s, SignEnd(s, i), base);
  }

  lemma {:induction false} BlanksAfter(p: seq<char>, s: seq<char>, i: nat)
    requires Terminated(s, i)
    ensures Terminated(p + s, |p| + i) && SkipBlanks(p + s, |p| + i) == |p| + SkipBlanks(s, i)
    decreases |s| - i
  {
    EndAfter(p, s, i, 0);
    assert (p + s)[|p| + i] == s[i];
    if IsBlank(s[i]) {
      BlanksAfter(p, s, i + 1);
    }
  }

  /** A blank in front counts for nothing. */
  lemma {:induction false} BlankSkipped(c: char, s: seq<char>, base: nat)
    requires Terminated(s, 0) && (c == ' ' || c == '\t' || c == '\n')
    ensures Terminated([c] + s, 0) && Parsed([c] + s, base) == (Parsed(s, base).0, Parsed(s, base).1 + 1)
  {
    BlanksAfter([c], s, 0);
    EarlierEnd([c] + s);
    SignedAfter([c], s, SkipBlanks(s, 0), base);
  }

  lemma {:induction false} EarlierEnd(s: seq<char>)
    requires Terminated(s, 1)
    ensures Terminated(s, 0)
  {
  }

  /** A minus sign negates the number after it, and a plus sign does nothing. */
  lemma {:induction false} SignMeans(c: char, s: seq<char>, base: nat)
    requires Terminated(s, 0) && Starts(s) && (c == '-' || c == '+')
    ensures Terminated([c] + s, 0)
    ensures Parsed([c] + s, base) ==
            (if c == '-' then -Parsed(s, base).0 else Parsed(s, base).0, Parsed(s, base).1 + 1)
  {
    NumberAfter([c], s, 0, base);
    EarlierEnd([c] + s);
  }

  /** 0x in front of a number means base 16, asked for or left open. */
  lemma {:induction false} HexPrefix(x: char, s: seq<char>, base: nat)
    requires Terminated(s, 0) && Starts(s) && !HexMark(s, 0) && (x == 'x' || x == 'X') && (base == 0 || base == 16)
    ensures Terminated(['0', x] + s, 0)
    ensures Parsed(['0', x] + s, base) == (Parsed(s, 16).0, Parsed(s, 16).1 + 2)
  {
    var t := ['0', x] + s;
    RunAfter(['0', x], s, 0, 16);
    assert t[0] == '0' && t[1] == x;
    assert Terminated(t, 0);
  }

  /** With the base left open a zero in front means base 8 and anything else base 10. */
  lemma {:induction false} OpenBase(s: seq<char>)
    requires Terminated(s, 0) && Starts(s) && s[0] != 'x' && s[0] != 'X'
    ensures Terminated(['0'] + s, 0) && Parsed(['0'] + s, 0) == (Parsed(s, 8).0, Parsed(s, 8).1 + 1)
    ensures s[0] != '0' ==> Parsed(s, 0) == Parsed(s, 10)
  {
    var t := ['0'] + s;
    RunAfter(['0'], s, 0, 8);
    assert t[0] == '0' && t[1] == s[0];
    assert Terminated(t, 0);
  }

  function Lower(c: char): char { if 'A' <= c <= 'Z' then (c as int + 32) as char else c }

  predicate SameLetters(s: seq<char>, t: seq<char>) {
    |s| == |t| && forall i :: 0 <= i < |s| ==> Lower(s[i]) == Lower(t[i])
  }

  lemma {:induction false} CaseOfChar(c: char, d: char)
    requires Lower(c) == Lower(d)
    ensures DigitOf(c) == DigitOf(d) && (c == d || (DigitOf(c) >= 10 && DigitOf(d) >= 10))
  {
  }

  lemma {:induction false} CaseOfRun(s: seq<char>, t: seq<char>, i: nat, base: nat)
    requires SameLetters(s, t) && Terminated(s, i) && Terminated(t, i)
    ensures DigitsEnd(s, i, base) == DigitsEnd(t, i, base)
    decreases |s| - i
  {
    CaseOfChar(s[i], t[i]);
    if IsDigit(s[i], base) {
      CaseOfRun(s, t, i + 1, base);
    }
  }

  lemma {:induction false} CaseOfValue(s: seq<char>, t: seq<char>, base: nat)
    requires SameLetters(s, t)
    ensures Value(s, base) == Value(t, base)
    decreases |s|
  {
    if s != [] {
      CaseOfChar(s[|s| - 1], t[|t| - 1]);
      CaseOfValue(s[..|s| - 1], t[..|t| - 1], base);
    }
  }

  lemma {:induction false} CaseOfBlanks(s: seq<char>, t: seq<char>, i: nat)
    requires SameLetters(s, t) && Terminated(s, i) && Terminated(t, i)
    ensures SkipBlanks(s, i) == SkipBlanks(t, i)
    decreases |s| - i
  {
    CaseOfChar(s[i], t[i]);
    if IsBlank(s[i]) {
      CaseOfBlanks(s, t, i + 1);
    }
  }

  lemma {:induction false} CaseOfPrefix(s: seq<char>, t: seq<char>, i: nat, base: nat)
    requires SameLetters(s, t) && Terminated(s, i) && Terminated(t, i)
    ensures Prefix(s, i, base) == Prefix(t, i, base)
  {
    CaseOfChar(s[i], t[i]);
    if i + 1 < |s| { CaseOfChar(s[i + 1], t[i + 1]); }
  }

  lemma {:induction false} CaseOfEnd(s: seq<char>, t: seq<char>, i: nat)
    requires SameLetters(s, t) && Terminated(s, i)
    ensures Terminated(t, i)
  {
    var k :| i <= k < |s| && s[k] == NUL;
    CaseOfChar(s[k], t[k]);
  }

  lemma {:induction false} CaseOfSign(s: seq<char>, t: seq<char>, i: nat)
    requires SameLetters(s, t) && Terminated(s, i) && Terminated(t, i)
    ensures (s[i] == '-' <==> t[i] == '-') && SignEnd(s, i) == SignEnd(t, i)
  {
    CaseOfChar(s[i], t[i]);
  }

  lemma {:induction false} CaseOfNumber(s: seq<char>, t: seq<char>, i: nat, base: nat)
    requires SameLetters(s, t) && Terminated(s, i)
    ensures Terminated(t, i) && NumberAt(s, i, base) == NumberAt(t, i, base)
  {
    CaseOfEnd(s, t, i);
    CaseOfPrefix(s, t, i, base);
    var (b, k) := Prefix(s, i, base);
    CaseOfRun(s, t, k, b);
    CaseOfValue(s[k..DigitsEnd(s, k, b)], t[k..DigitsEnd(s, k, b)], b);
  }

  /** Upper-case letters count like lower-case ones, digits and the x of a prefix alike. */
  lemma {:induction false} CaseIgnored(s: seq<char>, t: seq<char>, base: nat)
    requires SameLetters(s, t) && Terminated(s, 0)
    ensures Terminated(t, 0) && Parsed(s, base) == Parsed(t, base)
  {
    CaseOfEnd(s, t, 0);
    CaseOfBlanks(s, t, 0);
    var i := SkipBlanks(s, 0);
    CaseOfSign(s, t, i);
    CaseOfNumber(s, t, SignEnd(s, i), base);
  }

  method ReadDigits(s: seq<char>, start: nat, base: nat) returns (result: int, end: nat)
    requires Terminated(s, start)
    ensures end == DigitsEnd(s, start, base) && result == Value(s[start..end], base)
  {
    result, end := 0, start;
    while s[end] != NUL
      invariant start <= end && Terminated(s, end) && DigitsEnd(s, end, base) == DigitsEnd(s, start, base)
      invariant result == Value(s[start..end], base)
      decreases |s| - end
    {
      var c := s[end];
      var digit: int;
      if '0' <= c <= '9' {
        digit := c as int - '0' as int;
      } else if 'a' <= c <= 'z' {
        digit := c as int - 'a' as int + 10;
      } else if 'A' <= c <= 'Z' {
        digit := c as int - 'A' as int + 10;
      } else {
        break;
      }
      if digit >= base {
        break;
      }
      assert s[start..end + 1][..end - start] == s[start..end];
      result := result * base + digit;
      end := end + 1;
    }
  }

  method ReadPrefix(s: seq<char>, start: nat, base: nat) returns (b: nat, i: nat)
    requires Terminated(s, start)
    ensures (b, i) == Prefix(s, start, base)
  {
    b, i := base, start;
    if base == 0 {
      if s[i] == '0' {
        if s[i + 1] == 'x' || s[i + 1] == 'X' {
          b, i := 16, i + 2;
        } else {
          b, i := 8, i + 1;
        }
      } else {
        b := 10;
      }
    } else if base == 16 && s[i] == '0' && (s[i + 1] == 'x' || s[i + 1] == 'X') {
      i := i + 2;
    }
  }

  method PassBlanks(s: seq<char>) returns (i: nat)
    requires Terminated(s, 0)
    ensures i == SkipBlanks(s, 0)
  {
    i := 0;
    while s[i] == ' ' || s[i] == '\t' || s[i] == '\n'
      invariant Terminated(s, i) && SkipBlanks(s, i) == SkipBlanks(s, 0)
      decreases |s| - i
    {
      i := i + 1;
    }
  }

  method Strtol(s: seq<char>, base: nat) returns (result: int, end: nat)
    requires Terminated(s, 0)
    ensures (result, end) == Parsed(s, base)
  {
    var i := PassBlanks(s);
    var negative := s[i] == '-';
    if s[i] == '-' || s[i] == '+' {
      i := i + 1;
    }
    var b, k := ReadPrefix(s, i, base);
    result, end := ReadDigits(s, k, b);
    if negative {
      result := -result;
    }
  }

  // ----- printing -----

  /** The digits in the order they are produced. */
  function Backward(u: nat, base: nat): seq<char>
    requires 2 <= base <= 36
    decreases u
  {
    if u == 0 then [] else Shorter(u, base); [DigitChar(u % base)] + Backward(u / base, base)
  }

  function Reversed(s: seq<char>): (r: seq<char>)
    ensures |r| == |s| && forall i :: 0 <= i < |s| ==> r[i] == s[|s| - 1 - i]
  {
    if s == [] then [] else Reversed(s[1..]) + [s[0]]
  }

  lemma {:induction false} BackwardNumeral(u: nat, base: nat)
    requires 2 <= base <= 36 && u > 0
    ensures Reversed(Backward(u, base)) == Numeral(u, base)
    decreases u
  {
    Shorter(u, base);
    var q, d := u / base, u % base;
    assert Backward(u, base)[1..] == Backward(q, base);
    if u >= base {
      AtLeastOne(u, base);
      BackwardNumeral(q, base);
    } else {
      Below(u, base);
    }
  }

  lemma {:induction false} Below(u: nat, base: nat)
    requires u < base
    ensures u / base == 0 && u % base == u
  {
  }

  /** Reverses the first `n` characters in place. */
  method ReverseInPlace(buf: array<char>, n: nat)
    requires n <= buf.Length
    modifies buf
    ensures buf[..n] == Reversed(old(buf[..n])) && buf[n..] == old(buf[n..])
  {
    var start, end := 0, n - 1;
    while start < end
      invariant 0 <= start && end == n - 1 - start && start <= end + 2
      invariant forall k :: 0 <= k < start ==> buf[k] == old(buf[n - 1 - k]) && buf[n - 1 - k] == old(buf[k])
      invariant forall k :: start <= k <= end ==> buf[k] == old(buf[k])
      invariant buf[n..] == old(buf[n..])
    {
      var temp := buf[start];
      buf[start] := buf[end];
      buf[end] := temp;
      start, end := start + 1, end - 1;
    }
  }

  /** The loop that produces the digits. */
  method WriteDigits(v: int, buf: array<char>, base: nat) returns (n: nat)
    requires Printable(v, base) && buf.Length >= |Backward(Unsigned(v), base)|
    modifies buf
    ensures n <= buf.Length && buf[..n] == Backward(Unsigned(v), base)
  {
    var value := v;
    n := 0;
    ghost var all := Backward(Unsigned(v), base);
    while value != 0
      invariant n <= buf.Length && INT32_MIN <= value <= INT32_MAX
      invariant buf[..n] + Backward(Unsigned(value), base) == all
      decreases Unsigned(value)
    {
      var u := Unsigned(value);
      Shorter(u, base);
      FitsAgain(u, base);
      ghost var done := buf[..n];
      MoreDigits(done, u, base, all);
      var rem := u % base;
      buf[n] := if rem > 9 then ((rem - 10) + 'a' as int) as char else (rem + '0' as int) as char;
      assert buf[..n + 1] == done + [DigitChar(rem)];
      n := n + 1;
      value := u / base;
    }
  }

  lemma {:induction false} MoreDigits(done: seq<char>, u: nat, base: nat, all: seq<char>)
    requires 2 <= base <= 36 && u > 0 && done + Backward(u, base) == all
    ensures |done| < |all| && (done + [DigitChar(u % base)]) + Backward(u / base, base) == all
  {
    Shorter(u, base);
    assert done + ([DigitChar(u % base)] + Backward(u / base,
           base)) == (done + [DigitChar(u % base)]) + Backward(u / base, base);
  }

  lemma {:induction false} FitsAgain(u: nat, base: nat)
    requires base >= 2 && u < UINT32
    ensures 0 <= u / base <= INT32_MAX
  {
    var q := u / base;
    assert u == q * base + u % base;
    assert q * base >= q * 2;
  }

  /** Prints `v` into a buffer with room for it and the terminator. */
  method Itoa(v: int, buf: array<char>, base: nat) returns (n: nat)
    requires Printable(v, base) && buf.Length > |Printed(v, base)|
    modifies buf
    ensures n < buf.Length && buf[n] == NUL && buf[..n] == Printed(v, base)
  {
    if v == 0 {
      buf[0] := '0';
      buf[1] := NUL;
      return 1;
    }
    var negative := v < 0 && base == 10;
    var value := if negative then -v else v;
    BackwardNumeral(Unsigned(value), base);
    n := WriteDigits(value, buf, base);
    if negative {
      ReversedSign(buf[..n]);
      n := AppendSign(buf, n);
    }
    Terminate(buf, n);
  }

  method AppendSign(buf: array<char>, n: nat) returns (m: nat)
    requires n < buf.Length
    modifies buf
    ensures m == n + 1 && buf[..m] == old(buf[..n]) + ['-']
  {
    buf[n] := '-';
    m := n + 1;
  }

  method Terminate(buf: array<char>, n: nat)
    requires n < buf.Length
    modifies buf
    ensures buf[n] == NUL && buf[..n] == Reversed(old(buf[..n]))
  {
    buf[n] := NUL;
    assert buf[..n] == old(buf[..n]);
    ReverseInPlace(buf, n);
    assert buf[n] == buf[n..][0];
  }

  lemma {:induction false} ReversedSign(s: seq<char>)
    ensures Reversed(s + ['-']) == ['-'] + Reversed(s)
  {
  }

  // ----- round trip -----

  lemma {:induction false} RunOfNumeral(s: seq<char>, i: nat, e: nat, base: nat)
    requires i <= e < |s| && s[e] == NUL && AllDigits(s[i..e], base)
    ensures Terminated(s, i) && DigitsEnd(s, i, base) == e
    decreases e - i
  {
    if i < e {
      assert s[i] == s[i..e][0];
      assert s[i + 1..e] == s[i..e][1..];
      RunOfNumeral(s, i + 1, e, base);
    }
  }

  /** Parsing what was printed, with anything after the terminator. */
  lemma {:induction false} RoundTrip(v: int, base: nat, rest: seq<char>)
    requires Printable(v, base)
    ensures var s := Printed(v, base) + [NUL] + rest;
            Terminated(s, 0) && Parsed(s, base) == (if v < 0 && base != 10 then v + UINT32 else v, |Printed(v, base)|)
  {
    var signed := v < 0 && base == 10;
    var u := if signed then -v else Unsigned(v);
    NumeralValue(u, base);
    var digits := Numeral(u, base);
    assert Printed(v, base) == if signed then ['-'] + digits else digits;
    ParsesNumeral(digits, if signed then 1 else 0, u, base, rest);
  }

  lemma {:induction false} ParsesNumeral(digits: seq<char>, k: nat, u: nat, base: nat, rest: seq<char>)
    requires k <= 1 && 2 <= base <= 36 && digits != [] && AllDigits(digits, base) && Value(digits, base) == u
    requires digits[0] == '0' ==> u == 0 && |digits| == 1
    ensures var text := if k == 1 then ['-'] + digits else digits;
            var s := text + [NUL] + rest;
            Terminated(s, 0) && Parsed(s, base) == (if k == 1 then 0 - (u as int) else u as int, |text|)
  {
    var text := if k == 1 then ['-'] + digits else digits;
    var s := text + [NUL] + rest;
    assert s[|text|] == NUL;
    assert s[k..|text|] == digits;
    assert s[k] == digits[0];
    RunOfNumeral(s, k, |text|, base);
    ParsesAt(s, base, k, |text|, u);
  }

  /** A numeral right at the start, after at most a minus sign. */
  lemma {:induction false} ParsesAt(s: seq<char>, base: nat, k: nat, e: nat, u: nat)
    requires k <= 1 && k < e < |s| && s[e] == NUL && 2 <= base <= 36 && (k == 1 ==> s[0] == '-')
    requires AllDigits(s[k..e], base) && Value(s[k..e], base) == u && Terminated(s, k) && DigitsEnd(s, k, base) == e
    requires s[k] == '0' ==> u == 0 && e == k + 1
    ensures Terminated(s, 0) && Parsed(s, base) == (if k == 1 then 0 - (u as int) else u as int, e)
  {
    assert IsDigit(s[k..e][0], base);
    assert s[k..e][0] == s[k];
  }

  lemma {:induction false} Around(s: seq<char>, n: nat)
    requires n < |s|
    ensures s == s[..n] + [s[n]] + s[n + 1..]
  {
  }

  /** Printing and parsing together: the number comes back, with the end pointer at the
      terminator, except that a negative one comes back modulo two to the 32 in every
      base but ten. */
  method PrintAndParse(v: int, buf: array<char>, base: nat) returns (result: int, end: nat)
    requires Printable(v, base) && buf.Length > |Printed(v, base)|
    modifies buf
    ensures result == (if v < 0 && base != 10 then v + UINT32 else v) && end < buf.Length && buf[end] == NUL
  {
    var n := Itoa(v, buf, base);
    RoundTrip(v, base, buf[n + 1..]);
    Around(buf[..], n);
    result, end := Strtol(buf[..], base);
  }
}

/** The uninstall data file: a count, then for every entry its place, its length and
    its bytes, with numbers as eight little-endian bytes. */
module LogFile {
  import opened Common
  import opened UndoLog

  const BASE := 256
  const WORD_BYTES := 8
  const WORD_LIMIT := 0x1_0000_0000_0000_0000

  function Power(k: nat): nat { if k == 0 then 1 else BASE * Power(k - 1) }

  function Bytes(v: nat, k: nat): seq<int> {
    if k == 0 then [] else [v % BASE] + Bytes(v / BASE, k - 1)
  }

  function Value(s: seq<int>): int {
    if s == [] then 0 else s[0] + BASE * Value(s[1..])
  }

  function Word(v: nat): seq<int> { Bytes(v, WORD_BYTES) }

  lemma {:induction false} BytesLength(v: nat, k: nat)
    ensures |Bytes(v, k)| == k
  {
    if k > 0 { BytesLength(v / BASE, k - 1); }
  }

  lemma {:induction false} BytesValue(v: nat, k: nat)
    requires v < Power(k)
    ensures Value(Bytes(v, k)) == v
  {
    if k > 0 {
      assert Bytes(v, k)[1..] == Bytes(v / BASE, k - 1);
      BytesValue(v / BASE, k - 1);
    }
  }

  predicate IsBytes(s: seq<int>) { forall i :: 0 <= i < |s| ==> 0 <= s[i] < BASE }

  lemma {:induction false} ValueBytes(s: seq<int>)
    requires IsBytes(s)
    ensures 0 <= Value(s) < Power(|s|) && Bytes(Value(s), |s|) == s
  {
    if s != [] {
      ValueBytes(s[1..]);
      assert Value(s) % BASE == s[0] && Value(s) / BASE == Value(s[1..]);
    }
  }

  lemma {:induction false} WordPower()
    ensures Power(WORD_BYTES) == WORD_LIMIT
  {
    assert Power(4) == 0x1_0000_0000;
    assert Power(6) == BASE * BASE * Power(4);
  }

  lemma {:induction false} WordValue(v: nat)
    requires v < WORD_LIMIT
    ensures |Word(v)| == WORD_BYTES && Value(Word(v)) == v
  {
    WordPower();
    BytesLength(v, WORD_BYTES);
    BytesValue(v, WORD_BYTES);
  }

  lemma {:induction false} WordOfValue(s: seq<int>)
    requires IsBytes(s) && |s| == WORD_BYTES
    ensures 0 <= Value(s) < WORD_LIMIT && Word(Value(s)) == s
  {
    WordPower();
    ValueBytes(s);
  }

  // ----- what the file holds -----

  predicate Storable(e: Entry) { e.loc < WORD_LIMIT && |e.data| < WORD_LIMIT }

  predicate AllStorable(log: seq<Entry>) { forall k :: 0 <= k < |log| ==> Storable(log[k]) }

  predicate NoneEmpty(log: seq<Entry>) { forall k :: 0 <= k < |log| ==> log[k].data != [] }

  function EntryBytes(e: Entry): seq<int> { Word(e.loc) + Word(|e.data|) + e.data }

  function Body(log: seq<Entry>): seq<int> {
    if log == [] then [] else EntryBytes(log[0]) + Body(log[1..])
  }

  function FileOf(log: seq<Entry>): seq<int> { Word(|log|) + Body(log) }

  /** An entry at the head of `s`, and what follows it. `fread` of no bytes fails. */
  function ParseEntry(s: seq<int>): Option<(Entry, seq<int>)> {
    if |s| < 2 * WORD_BYTES then None
    else
      var loc, count, rest := Value(s[..WORD_BYTES]), Value(s[WORD_BYTES..2 * WORD_BYTES]), s[2 * WORD_BYTES..];
      if loc < 0 || count <= 0 || |rest| < count then None
      else Some((Entry(loc, rest[..count]), rest[count..]))
  }

  function ParseBody(s: seq<int>, n: nat): Option<seq<Entry>> {
    if n == 0 then Some([])
    else match ParseEntry(s)
      case None => None
      case Some((e, rest)) => Prepend([e], ParseBody(rest, n - 1))
  }

  function Prepend(log: seq<Entry>, tail: Option<seq<Entry>>): Option<seq<Entry>> {
    match tail
    case None => None
    case Some(more) => Some(log + more)
  }

  function Parse(s: seq<int>): Option<seq<Entry>> {
    if |s| < WORD_BYTES || Value(s[..WORD_BYTES]) < 0 then None
    else ParseBody(s[WORD_BYTES..], Value(s[..WORD_BYTES]))
  }

  // ----- the places of things in the file -----

  lemma {:induction false} ByteAt(v: nat, k: nat, i: nat)
    requires i < k
    ensures Power(i) > 0 && |Bytes(v, k)| == k && Bytes(v, k)[i] == v / Power(i) % 256
  {
    BytesLength(v, k);
    if i > 0 {
      ByteAt(v / BASE, k - 1, i - 1);
      DivTwice(v, BASE, Power(i - 1));
    }
  }

  /** An entry: its place in bytes 0 to 7, the least significant first, its length in
      bytes 8 to 15, and its data from byte 16 on. */
  lemma {:induction false} EntryLayout(e: Entry, i: nat, j: nat)
    requires i < 8
    ensures Power(i) > 0 && |EntryBytes(e)| == 16 + |e.data|
    ensures EntryBytes(e)[i] == e.loc / Power(i) % 256
    ensures EntryBytes(e)[8 + i] == |e.data| / Power(i) % 256
    ensures j < |e.data| ==> EntryBytes(e)[16 + j] == e.data[j]
  {
    ByteAt(e.loc, WORD_BYTES, i);
    ByteAt(|e.data|, WORD_BYTES, i);
  }

  /** Where entry `k` starts. */
  function Start(log: seq<Entry>, k: nat): nat
    requires k <= |log|
  {
    if k == 0 then 8 else Start(log, k - 1) + 16 + |log[k - 1].data|
  }

  lemma {:induction false} LaterStart(log: seq<Entry>, k: nat)
    requires 0 < k <= |log|
    ensures Start(log, k) == Start(log[1..], k - 1) + 16 + |log[0].data|
  {
    if k > 1 { LaterStart(log, k - 1); }
  }

  lemma {:induction false} EntryLength(e: Entry)
    ensures |EntryBytes(e)| == 16 + |e.data|
  {
    BytesLength(e.loc, WORD_BYTES);
    BytesLength(|e.data|, WORD_BYTES);
  }

  lemma {:induction false} BodyLayout(log: seq<Entry>, k: nat)
    requires k < |log|
    ensures var at, n := Start(log, k) - 8, 16 + |log[k].data|;
            0 <= at && at + n <= |Body(log)| && Body(log)[at..at + n] == EntryBytes(log[k])
    decreases k
  {
    EntryLength(log[0]);
    var first, rest := EntryBytes(log[0]), Body(log[1..]);
    if k > 0 {
      BodyLayout(log[1..], k - 1);
      LaterStart(log, k);
      var at, n := Start(log[1..], k - 1) - 8, 16 + |log[k].data|;
      assert (first + rest)[|first| + at..|first| + at + n] == rest[at..at + n];
    } else {
      assert (first + rest)[..|first|] == first;
    }
  }

  /** The file: the number of entries in its first eight bytes, then the entries one
      after the other. */
  lemma {:induction false} FileLayout(log: seq<Entry>, k: nat, i: nat)
    requires i < 8
    ensures Power(i) > 0 && |FileOf(log)| >= 8 && FileOf(log)[i] == |log| / Power(i) % 256
    ensures k < |log| ==>
              var at, n := Start(log, k), 16 + |log[k].data|;
              at + n <= |FileOf(log)| && FileOf(log)[at..at + n] == EntryBytes(log[k])
  {
    ByteAt(|log|, WORD_BYTES, i);
    if k < |log| {
      BodyLayout(log, k);
      var head, body, at, n := Word(|log|), Body(log), Start(log, k) - 8, 16 + |log[k].data|;
      assert (head + body)[8 + at..8 + at + n] == body[at..at + n];
    }
  }

  // ----- round trips -----

  lemma {:induction false} Parts(a: seq<int>, b: seq<int>, c: seq<int>, d: seq<int>, s: seq<int>)
    requires |a| == |b| == WORD_BYTES && s == a + b + c + d
    ensures s[..WORD_BYTES] == a && s[WORD_BYTES..2 * WORD_BYTES] == b
    ensures s[2 * WORD_BYTES..] == c + d && (c + d)[..|c|] == c && (c + d)[|c|..] == d
  {
  }

  lemma {:induction false} ParseOneEntry(e: Entry, tail: seq<int>)
    requires Storable(e) && e.data != []
    ensures ParseEntry(EntryBytes(e) + tail) == Some((e, tail))
  {
    var a, b, s := Word(e.loc), Word(|e.data|), EntryBytes(e) + tail;
    WordValue(e.loc);
    WordValue(|e.data|);
    Parts(a, b, e.data, tail, s);
  }

  lemma {:induction false} EmptyEntryFails(e: Entry, tail: seq<int>)
    requires Storable(e) && e.data == []
    ensures ParseEntry(EntryBytes(e) + tail) == None
  {
    var a, b, s := Word(e.loc), Word(0), EntryBytes(e) + tail;
    WordValue(e.loc);
    WordValue(0);
    Parts(a, b, [], tail, s);
  }

  lemma {:induction false} BodyCons(log: seq<Entry>, tail: seq<int>)
    requires log != []
    ensures Body(log) + tail == EntryBytes(log[0]) + (Body(log[1..]) + tail)
  {
  }

  lemma {:induction false} ParsedCons(log: seq<Entry>, s: seq<int>, after: seq<int>)
    requires log != [] && log[0].data != [] && ParseEntry(s) == Some((log[0], after))
    requires ParseBody(after, |log| - 1) == if NoneEmpty(log[1..]) then Some(log[1..]) else None
    ensures ParseBody(s, |log|) == if NoneEmpty(log) then Some(log) else None
  {
    var e, more := log[0], log[1..];
    assert log == [e] + more;
    assert NoneEmpty(log) <==> NoneEmpty(more);
  }

  lemma {:induction false} ParseOfBody(log: seq<Entry>, tail: seq<int>)
    requires AllStorable(log)
    ensures ParseBody(Body(log) + tail, |log|) == if NoneEmpty(log) then Some(log) else None
    decreases |log|
  {
    if log != [] {
      var e, more := log[0], log[1..];
      var s, after := Body(log) + tail, Body(more) + tail;
      BodyCons(log, tail);
      if e.data == [] {
        EmptyEntryFails(e, after);
      } else {
        ParseOneEntry(e, after);
        assert ParseEntry(s) == Some((e, after));
        ParseOfBody(more, tail);
        ParsedCons(log, s, after);
      }
    }
  }

  /** The log comes back in order from the file it was stored in, exactly when none of
      its entries is empty. */
  lemma {:induction false} ParseOfFile(log: seq<Entry>)
    requires AllStorable(log) && |log| < WORD_LIMIT
    ensures Parse(FileOf(log)) == if NoneEmpty(log) then Some(log) else None
  {
    WordValue(|log|);
    var s := FileOf(log);
    assert s[..WORD_BYTES] == Word(|log|) && s[WORD_BYTES..] == Body(log) + [];
    ParseOfBody(log, []);
  }

  lemma {:induction false} EntryOfParse(s: seq<int>)
    requires IsBytes(s) && ParseEntry(s).Some?
    ensures var (e, rest) := ParseEntry(s).value;
            s == EntryBytes(e) + rest && Storable(e) && e.data != [] && IsBytes(rest)
  {
    var a, b, rest := s[..WORD_BYTES], s[WORD_BYTES..2 * WORD_BYTES], s[2 * WORD_BYTES..];
    WordOfValue(a);
    WordOfValue(b);
    assert s == a + b + rest;
    var count := Value(b);
    assert rest == rest[..count] + rest[count..];
  }

  /** Whatever is loaded is what the file holds: storing it gives the same bytes back. */
  lemma {:induction false} BodyOfParse(s: seq<int>, n: nat)
    requires IsBytes(s) && ParseBody(s, n).Some?
    ensures var log := ParseBody(s, n).value;
            |log| == n && AllStorable(log) && NoneEmpty(log) && Body(log) <= s
    decreases n
  {
    if n > 0 {
      EntryOfParse(s);
      var (e, rest) := ParseEntry(s).value;
      BodyOfParse(rest, n - 1);
      var more := ParseBody(rest, n - 1).value;
      var log := [e] + more;
      assert log[1..] == more;
      assert Body(log) == EntryBytes(e) + Body(more);
    }
  }

  lemma {:induction false} FileOfParse(s: seq<int>)
    requires IsBytes(s) && Parse(s).Some?
    ensures FileOf(Parse(s).value) <= s && AllStorable(Parse(s).value) && NoneEmpty(Parse(s).value)
  {
    var a := s[..WORD_BYTES];
    ValueBytes(a);
    BodyOfParse(s[WORD_BYTES..], Value(a));
    assert s == a + s[WORD_BYTES..];
  }

  // ----- the two loops -----

  lemma {:induction false} BodyMore(log: seq<Entry>, i: nat, file: seq<int>, whole: seq<int>)
    requires i < |log| && file + Body(log[i..]) == whole
    ensures file + EntryBytes(log[i]) + Body(log[i + 1..]) == whole
  {
    assert log[i..][1..] == log[i + 1..];
    assert file + (EntryBytes(log[i]) + Body(log[i + 1..])) == file + EntryBytes(log[i]) + Body(log[i + 1..]);
  }

  /** Writes the file, stopping at the first entry without bytes: `fwrite` of nothing
      reports no item written. */
  method Store(log: seq<Entry>) returns (file: seq<int>, ok: bool)
    ensures ok == NoneEmpty(log)
    ensures ok ==> file == FileOf(log)
  {
    file := Word(|log|);
    var i := 0;
    while i < |log|
      invariant i <= |log| && NoneEmpty(log[..i])
      invariant file + Body(log[i..]) == FileOf(log)
    {
      if log[i].data == [] {
        return file + Word(log[i].loc) + Word(0), false;
      }
      BodyMore(log, i, file, FileOf(log));
      file := file + EntryBytes(log[i]);
      assert forall k :: 0 <= k < i ==> log[..i + 1][k] == log[..i][k];
      i := i + 1;
    }
    assert log[..i] == log && log[i..] == [] && file + [] == file;
    ok := true;
  }

  lemma {:induction false} ParseMore(log: seq<Entry>, s: seq<int>, n: nat)
    requires n > 0
    ensures ParseEntry(s) == None ==> Prepend(log, ParseBody(s, n)) == None
    ensures ParseEntry(s).Some? ==>
              var (e, rest) := ParseEntry(s).value;
              Prepend(log, ParseBody(s, n)) == Prepend(log + [e], ParseBody(rest, n - 1))
  {
    if ParseEntry(s).Some? {
      var (e, rest) := ParseEntry(s).value;
      match ParseBody(rest, n - 1) {
        case None =>
        case Some(more) => assert log + ([e] + more) == log + [e] + more;
      }
    }
  }

  lemma {:induction false} PrependNothing(tail: Option<seq<Entry>>)
    ensures Prepend([], tail) == tail
  {
    match tail {
      case None =>
      case Some(more) => assert [] + more == more;
    }
  }

  /** Reads the file back, entry by entry. */
  method Load(file: seq<int>) returns (log: seq<Entry>, ok: bool)
    ensures ok == Parse(file).Some?
    ensures ok ==> log == Parse(file).value
  {
    log := [];
    if |file| < WORD_BYTES || Value(file[..WORD_BYTES]) < 0 {
      return [], false;
    }
    var n, rest, i := Value(file[..WORD_BYTES]), file[WORD_BYTES..], 0;
    PrependNothing(ParseBody(rest, n));
    while i < n
      invariant 0 <= i <= n
      invariant Prepend(log, ParseBody(rest, n - i)) == Parse(file)
    {
      ParseMore(log, rest, n - i);
      match ParseEntry(rest) {
        case None => return log, false;
        case Some((e, tail)) =>
          log, rest := log + [e], tail;
      }
      i := i + 1;
    }
    assert log + [] == log;
    ok := true;
  }
}

/** Undoing logged writes: why replaying the saved bytes backwards restores the
    original image, whatever part of the writes had reached the device. */
module UndoLog {

  /** The bytes a write replaced, and where. */
  datatype Entry = Entry(loc: nat, data: seq<int>)

  predicate InRange(n: nat, e: Entry) { e.loc + |e.data| <= n }

  predicate Covers(e: Entry, i: int) { e.loc <= i < e.loc + |e.data| }

  predicate Touched(log: seq<Entry>, i: int) {
    exists k :: 0 <= k < |log| && Covers(log[k], i)
  }

  /** `image` with the bytes of `e` written over it. */
  function Splice(image: seq<int>, e: Entry): (r: seq<int>)
    requires InRange(|image|, e)
    ensures |r| == |image|
    ensures forall i :: 0 <= i < |image| ==> r[i] == if Covers(e, i) then e.data[i - e.loc] else image[i]
  {
    image[..e.loc] + e.data + image[e.loc + |e.data|..]
  }

  predicate AllInRange(n: nat, log: seq<Entry>) {
    forall k :: 0 <= k < |log| ==> InRange(n, log[k])
  }

  /** The entries of `log` written in order. */
  function Replay(image: seq<int>, log: seq<Entry>): (r: seq<int>)
    requires AllInRange(|image|, log)
    ensures |r| == |image|
    decreases |log|
  {
    if log == [] then image else Replay(Splice(image, log[0]), log[1..])
  }

  function Reverse(log: seq<Entry>): (r: seq<Entry>)
    ensures |r| == |log|
    ensures forall k :: 0 <= k < |log| ==> r[k] == log[|log| - 1 - k]
  {
    seq(|log|, k requires 0 <= k < |log| => log[|log| - 1 - k])
  }

  /** What the log records about the writes made since image `o`: `now` is the image
      after them, and each entry holds what its write replaced. */
  ghost predicate Records(o: seq<int>, log: seq<Entry>, now: seq<int>)
    decreases |log|
  {
    && |now| == |o| && AllInRange(|o|, log)
    && if log == [] then now == o
       else
         var e := log[|log| - 1];
         exists before :: Step(before, e, now) && Records(o, log[..|log| - 1], before)
  }

  /** Entry `e` saves what a write turning `before` into `now` replaced. */
  ghost predicate Step(before: seq<int>, e: Entry, now: seq<int>) {
    && |before| == |now| && InRange(|now|, e)
    && (forall i :: 0 <= i < |now| && !Covers(e, i) ==> now[i] == before[i])
    && (forall i :: 0 <= i < |now| && Covers(e, i) ==> e.data[i - e.loc] == before[i])
  }

  /** Bytes no entry covers are as in the original. */
  ghost predicate Agrees(o: seq<int>, log: seq<Entry>, d: seq<int>) {
    |d| == |o| && forall i :: 0 <= i < |o| && !Touched(log, i) ==> d[i] == o[i]
  }

  lemma {:induction false} TouchedByInit(log: seq<Entry>, i: int)
    requires log != []
    ensures Touched(log, i) <==> Touched(log[..|log| - 1], i) || Covers(log[|log| - 1], i)
  {
    var n := |log| - 1;
    if Touched(log[..n], i) {
      var k :| 0 <= k < |log[..n]| && Covers(log[..n][k], i);
      assert Covers(log[k], i);
    }
    if Touched(log, i) {
      var k :| 0 <= k < |log| && Covers(log[k], i);
      if k < n { assert Covers(log[..n][k], i); }
    }
  }

  /** The current image differs from the original only where the log says so. */
  lemma {:induction false} RecordedAgrees(o: seq<int>, log: seq<Entry>, now: seq<int>)
    requires Records(o, log, now)
    ensures Agrees(o, log, now)
    decreases |log|
  {
    if log != [] {
      var e := log[|log| - 1];
      var before :| Step(before, e, now) && Records(o, log[..|log| - 1], before);
      RecordedAgrees(o, log[..|log| - 1], before);
      forall i | 0 <= i < |o| && !Touched(log, i)
        ensures now[i] == o[i]
      {
        TouchedByInit(log, i);
      }
    }
  }

  /** Undoing the last write from an image that may hold anything in the touched
      bytes leaves one that may hold anything in the bytes touched before it. */
  lemma {:induction false} UndoLast(o: seq<int>, log: seq<Entry>, before: seq<int>, now: seq<int>, d: seq<int>)
    requires log != [] && Step(before, log[|log| - 1], now) && Records(o, log[..|log| - 1], before) && |now| == |o|
    requires Agrees(o, log, d)
    ensures Agrees(o, log[..|log| - 1], Splice(d, log[|log| - 1]))
  {
    var e := log[|log| - 1];
    RecordedAgrees(o, log[..|log| - 1], before);
    forall i | 0 <= i < |o| && !Touched(log[..|log| - 1], i)
      ensures Splice(d, e)[i] == o[i]
    {
      TouchedByInit(log, i);
    }
  }

  lemma {:induction false} ReverseSplit(log: seq<Entry>)
    requires log != []
    ensures Reverse(log)[0] == log[|log| - 1] && Reverse(log)[1..] == Reverse(log[..|log| - 1])
  {
  }

  /** The image before the last write of a log. */
  lemma {:induction false} BeforeLast(o: seq<int>, log: seq<Entry>, now: seq<int>) returns (before: seq<int>)
    requires Records(o, log, now) && log != []
    ensures Step(before, log[|log| - 1], now) && Records(o, log[..|log| - 1], before) && |now| == |o|
  {
    before :| Step(before, log[|log| - 1], now) && Records(o, log[..|log| - 1], before);
  }

  /** Replaying a reversed log undoes its last write first. */
  lemma {:induction false} ReplayReversed(d: seq<int>, log: seq<Entry>)
    requires log != [] && AllInRange(|d|, log)
    ensures AllInRange(|d|, Reverse(log)) && AllInRange(|d|, Reverse(log[..|log| - 1]))
    ensures Replay(d, Reverse(log)) == Replay(Splice(d, log[|log| - 1]), Reverse(log[..|log| - 1]))
  {
    ReverseSplit(log);
  }

  /** Rollback: from any image that agrees with the original outside the logged
      writes, replaying the log backwards gives the original byte for byte. */
  lemma {:induction false} Rollback(o: seq<int>, log: seq<Entry>, now: seq<int>, d: seq<int>)
    requires Records(o, log, now) && Agrees(o, log, d)
    ensures AllInRange(|d|, Reverse(log)) && Replay(d, Reverse(log)) == o
    decreases |log|
  {
    if log != [] {
      var n := |log| - 1;
      var before := BeforeLast(o, log, now);
      UndoLast(o, log, before, now, d);
      ReplayReversed(d, log);
      Rollback(o, log[..n], before, Splice(d, log[n]));
    } else {
      NothingLogged(o, d);
    }
  }

  lemma {:induction false} NothingLogged(o: seq<int>, d: seq<int>)
    requires Agrees(o, [], d)
    ensures d == o && Reverse([]) == [] && Replay(d, []) == o
  {
    forall i | 0 <= i < |o|
      ensures d[i] == o[i]
    {
      assert !Touched([], i);
    }
  }

  /** One more write is one more entry. */
  lemma {:induction false} RecordWrite(o: seq<int>, log: seq<Entry>, before: seq<int>, e: Entry, now: seq<int>)
    requires Records(o, log, before) && Step(before, e, now)
    ensures Records(o, log + [e], now)
  {
    var more := log + [e];
    assert more[..|more| - 1] == log && more[|more| - 1] == e;
    assert Step(before, more[|more| - 1], now) && Records(o, more[..|more| - 1], before);
  }
}

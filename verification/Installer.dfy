/** Whole runs of the installer: its reads and writes behave like a flat array, and
    both ways of undoing them, at once or from a stored file, restore the device. */
module Installer {
  import opened Common
  import opened UndoLog
  import opened BlockDevice
  import opened LogFile

  datatype Op = ReadAt(loc: nat, count: nat) | WriteAt(loc: nat, data: seq<int>) | Flush

  datatype Reply = Bytes(bytes: seq<int>) | Status(ok: bool)

  /** A flat byte array and what its writes have replaced. */
  datatype Flat = Flat(bytes: seq<int>, log: seq<Entry>)

  predicate OpInRange(n: nat, op: Op) {
    match op
    case ReadAt(loc, count) => loc + count <= n
    case WriteAt(loc, data) => loc + |data| <= n
    case Flush => true
  }

  predicate OpsInRange(n: nat, ops: seq<Op>) { forall k :: 0 <= k < |ops| ==> OpInRange(n, ops[k]) }

  function FlatReply(f: Flat, op: Op): Reply
    requires OpInRange(|f.bytes|, op)
  {
    match op
    case ReadAt(loc, count) => Bytes(f.bytes[loc..loc + count])
    case WriteAt(loc, data) => Status(|f.log| < UNINSTALL_DATA_MAX)
    case Flush => Status(true)
  }

  function FlatStep(f: Flat, op: Op): (r: Flat)
    requires OpInRange(|f.bytes|, op)
    ensures |r.bytes| == |f.bytes|
  {
    if op.WriteAt? && |f.log| < UNINSTALL_DATA_MAX
    then Flat(Splice(f.bytes, Entry(op.loc, op.data)), f.log + [Saved(f.bytes, op.loc, |op.data|)]) else f
  }

  function FlatRun(f: Flat, ops: seq<Op>): (r: Flat)
    requires OpsInRange(|f.bytes|, ops)
    ensures |r.bytes| == |f.bytes|
    decreases |ops|
  {
    if ops == [] then f else FlatRun(FlatStep(f, ops[0]), ops[1..])
  }

  function FlatReplies(f: Flat, ops: seq<Op>): seq<Reply>
    requires OpsInRange(|f.bytes|, ops)
    decreases |ops|
  {
    if ops == [] then [] else [FlatReply(f, ops[0])] + FlatReplies(FlatStep(f, ops[0]), ops[1..])
  }

  method Step(device: Device, op: Op) returns (reply: Reply)
    requires device.Valid() && device.Logged() && OpInRange(device.disk.Length, op)
    modifies device`dirty, device`cachedBlock, device`image, device`log, device.disk, device.cache
    ensures device.Valid() && device.Logged()
    ensures reply == FlatReply(Flat(old(device.image), old(device.log)), op)
    ensures Flat(device.image, device.log) == FlatStep(Flat(old(device.image), old(device.log)), op)
  {
    ghost var d := device.disk[..];
    match op {
      case ReadAt(loc, count) =>
        var bytes := device.Read(loc, count);
        LoggedSame(device.original, device.log, device.image, d, device.disk[..]);
        reply := Bytes(bytes);
      case WriteAt(loc, data) =>
        var ok := device.Write(data, loc);
        reply := Status(ok);
      case Flush =>
        device.FlushCache();
        LoggedSame(device.original, device.log, device.image, d, device.disk[..]);
        reply := Status(true);
    }
  }

  lemma {:induction false} RunMore(f: Flat, ops: seq<Op>, i: nat)
    requires i < |ops| && OpsInRange(|f.bytes|, ops)
    ensures FlatRun(f, ops[i..]) == FlatRun(FlatStep(f, ops[i]), ops[i + 1..])
    ensures FlatReplies(f, ops[i..]) == [FlatReply(f, ops[i])] + FlatReplies(FlatStep(f, ops[i]), ops[i + 1..])
  {
    assert ops[i..][1..] == ops[i + 1..];
  }

  /** Any run of reads, writes and flushes, whatever blocks it evicts on the way. */
  method Run(device: Device, ops: seq<Op>) returns (replies: seq<Reply>)
    requires device.Valid() && device.Logged() && OpsInRange(device.disk.Length, ops)
    modifies device`dirty, device`cachedBlock, device`image, device`log, device.disk, device.cache
    ensures device.Valid() && device.Logged()
    ensures Flat(device.image, device.log) == FlatRun(Flat(old(device.image), old(device.log)), ops)
    ensures replies == FlatReplies(Flat(old(device.image), old(device.log)), ops)
  {
    ghost var f := Flat(device.image, device.log);
    ghost var goal, all := FlatRun(f, ops), FlatReplies(f, ops);
    assert ops[0..] == ops;
    replies := [];
    var i := 0;
    while i < |ops|
      invariant i <= |ops| && device.Valid() && device.Logged()
      invariant Rest(Flat(device.image, device.log), ops, i, replies, goal, all)
    {
      ghost var now := Flat(device.image, device.log);
      RunMore(now, ops, i);
      var reply := Step(device, ops[i]);
      RestMore(now, ops, i, replies, goal, all);
      replies := replies + [reply];
      i := i + 1;
    }
    assert ops[i..] == [];
  }

  /** What is left to do leads from here to the whole run's result. */
  ghost predicate Rest(f: Flat, ops: seq<Op>, i: nat, replies: seq<Reply>, goal: Flat, all: seq<Reply>) {
    && i <= |ops| && OpsInRange(|f.bytes|, ops)
    && FlatRun(f, ops[i..]) == goal && replies + FlatReplies(f, ops[i..]) == all
  }

  lemma {:induction false} RestMore(f: Flat, ops: seq<Op>, i: nat, replies: seq<Reply>, goal: Flat, all: seq<Reply>)
    requires i < |ops| && Rest(f, ops, i, replies, goal, all)
    ensures Rest(FlatStep(f, ops[i]), ops, i + 1, replies + [FlatReply(f, ops[i])], goal, all)
  {
    RunMore(f, ops, i);
    var more := FlatReplies(FlatStep(f, ops[i]), ops[i + 1..]);
    assert replies + ([FlatReply(f, ops[i])] + more) == replies + [FlatReply(f, ops[i])] + more;
  }

  /** Uninstall mode: the log comes from a file, already reversed. */
  method UninstallFrom(device: Device, file: seq<int>) returns (ok: bool)
    requires device.Valid()
    requires Parse(file).Some? ==> AllInRange(device.disk.Length, Parse(file).value)
    modifies device, device.disk, device.cache
    ensures ok == Parse(file).Some?
    ensures device.disk[..] == if ok then Replay(old(device.disk[..]), Parse(file).value) else old(device.disk[..])
  {
    var log, loaded := Load(file);
    ok := loaded;
    if ok {
      device.log := log;
      device.Uninstall();
    }
  }

  /** An install that fails after any run leaves no trace. */
  method FailedInstall(contents: seq<int>, size: nat, count: nat, ops: seq<Op>) returns (after: seq<int>)
    requires size > 0 && count > 0 && |contents| == count * size && OpsInRange(|contents|, ops)
    ensures after == contents
  {
    var device := new Device(contents, size, count);
    var _ := Run(device, ops);
    device.UndoInstall();
    after := device.disk[..];
  }

  /** No entry of the log is empty when no write is. */
  predicate NoEmptyWrite(ops: seq<Op>) {
    forall k :: 0 <= k < |ops| && ops[k].WriteAt? ==> ops[k].data != []
  }

  lemma {:induction false} NonEmptyLog(f: Flat, ops: seq<Op>)
    requires OpsInRange(|f.bytes|, ops) && NoEmptyWrite(ops) && NoneEmpty(f.log)
    ensures NoneEmpty(FlatRun(f, ops).log)
    decreases |ops|
  {
    if ops != [] {
      NonEmptyLog(FlatStep(f, ops[0]), ops[1..]);
    }
  }

  lemma {:induction false} ReverseStorable(log: seq<Entry>)
    requires AllStorable(log) && NoneEmpty(log)
    ensures AllStorable(Reverse(log)) && NoneEmpty(Reverse(log))
  {
  }

  /** The bytes a stored file restores, from any device state the install could have
      left: the loaded log is replayed as it stands, without a second reversal. */
  lemma {:induction false} StoredLogRestores(o: seq<int>, log: seq<Entry>, now: seq<int>, d: seq<int>)
    requires Records(o, log, now) && Agrees(o, log, d) && |o| < WORD_LIMIT && |log| <= UNINSTALL_DATA_MAX
             && NoneEmpty(log)
    ensures Parse(FileOf(Reverse(log))) == Some(Reverse(log))
    ensures AllInRange(|d|, Reverse(log)) && Replay(d, Reverse(log)) == o
  {
    Rollback(o, log, now, d);
    forall k | 0 <= k < |log|
      ensures Storable(log[k])
    {
      assert InRange(|o|, log[k]);
    }
    ReverseStorable(log);
    ParseOfFile(Reverse(log));
  }

  /** A finished install: the log is reversed and stored; the device keeps what has
      reached it. */
  method Finish(device: Device) returns (file: seq<int>, stored: bool)
    requires device.Valid() && device.Logged() && device.disk.Length < WORD_LIMIT
    modifies device`log
    ensures stored == NoneEmpty(old(device.log))
    ensures stored ==> Parse(file) == Some(Reverse(old(device.log)))
    ensures stored ==> AllInRange(device.disk.Length, Reverse(old(device.log)))
    ensures stored ==> Replay(device.disk[..], Reverse(old(device.log))) == device.original
  {
    ghost var log := device.log;
    device.ReverseLog();
    file, stored := Store(device.log);
    ReverseNonEmpty(log);
    if stored {
      StoredLogRestores(device.original, log, device.image, device.disk[..]);
    }
  }

  lemma {:induction false} ReverseNonEmpty(log: seq<Entry>)
    ensures NoneEmpty(log) <==> NoneEmpty(Reverse(log))
  {
    var rev := Reverse(log);
    if NoneEmpty(rev) {
      forall k | 0 <= k < |log|
        ensures log[k].data != []
      {
        assert rev[|log| - 1 - k] == log[k];
      }
    }
  }

  /** Install, store the log, and uninstall later from the file: the device is again
      what it was before the install. Storing fails only over an empty write. */
  method InstallThenUninstall(contents: seq<int>, size: nat, count: nat, ops: seq<Op>) returns (after: seq<int>,
                              ok: bool)
    requires size > 0 && count > 0 && |contents| == count * size < WORD_LIMIT && OpsInRange(|contents|, ops)
    ensures ok ==> after == contents
    ensures ok == NoneEmpty(FlatRun(Flat(contents, []), ops).log)
    ensures NoEmptyWrite(ops) ==> ok
  {
    if NoEmptyWrite(ops) { NonEmptyLog(Flat(contents, []), ops); }
    var device := new Device(contents, size, count);
    var _ := Run(device, ops);
    var file, stored := Finish(device);
    after, ok := device.disk[..], stored;
    if stored {
      after := NextSession(after, size, count, file);
    }
  }

  /** A later process with nothing but the device and the file. */
  method NextSession(contents: seq<int>, size: nat, count: nat, file: seq<int>) returns (after: seq<int>)
    requires size > 0 && count > 0 && |contents| == count * size
    requires Parse(file).Some? && AllInRange(|contents|, Parse(file).value)
    ensures after == Replay(contents, Parse(file).value)
  {
    var device := new Device(contents, size, count);
    var _ := UninstallFrom(device, file);
    after := device.disk[..];
  }
}

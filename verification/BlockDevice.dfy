/** The boot loader installer's view of a disk: a one-block write-back cache over a
    byte-addressed device, with a log of the bytes every write replaced. */
module BlockDevice {
  import opened UndoLog

  const UNINSTALL_DATA_MAX := 256

  lemma {:induction false} BlockRange(block: nat, size: nat, blocks: nat)
    ensures block < blocks ==> block * size + size <= blocks * size
    ensures block >= blocks ==> block * size >= blocks * size
  {
    if block < blocks {
      assert (block + 1) * size <= blocks * size;
    }
  }

  lemma {:induction false} BlockBounds(pos: nat, size: nat, blocks: nat, length: nat)
    requires size > 0 && length == blocks * size && pos < length
    ensures var b, o := pos / size, pos % size;
            0 <= b < blocks && b * size + o == pos && o < size && b * size + size <= length
  {
    assert pos == (pos / size) * size + pos % size;
    BlockRange(pos / size, size, blocks);
  }

  /** `image` is the device with block `c` laid over it at `start`; with none if
      `start` is negative. */
  ghost predicate Shows(d: seq<int>, start: int, c: seq<int>, image: seq<int>) {
    && |image| == |d| && start + |c| <= |d|
    && forall i :: 0 <= i < |d| ==> image[i] == if 0 <= start <= i < start + |c| then c[i - start] else d[i]
  }

  /** A clean block changes nothing. */
  lemma {:induction false} CleanShows(d: seq<int>, start: int, c: seq<int>)
    requires start + |c| <= |d| && (start >= 0 ==> d[start..start + |c|] == c)
    ensures Shows(d, start, c, d)
  {
    forall i | 0 <= i < |d| && 0 <= start <= i < start + |c|
      ensures d[i] == c[i - start]
    {
      assert d[start..start + |c|][i - start] == d[i];
    }
  }

  lemma {:induction false} CleanImage(d: seq<int>, start: int, c: seq<int>, image: seq<int>)
    requires start + |c| <= |d| && (start >= 0 ==> d[start..start + |c|] == c)
    requires Shows(d, start, c, image)
    ensures image == d
  {
    CleanShows(d, start, c);
  }

  /** Writing the block out gives the image. */
  lemma {:induction false} FlushedImage(d: seq<int>, start: nat, c: seq<int>, image: seq<int>, d': seq<int>)
    requires Shows(d, start, c, image) && Written(d, start, c, |c|, d')
    ensures d' == image && d'[start..start + |c|] == c
  {
  }

  /** Reading inside the laid-over block. */
  lemma {:induction false} ShownSlice(d: seq<int>, start: nat, c: seq<int>, image: seq<int>, offset: nat, chunk: nat)
    requires Shows(d, start, c, image) && offset + chunk <= |c|
    ensures IsSlice(image, start + offset, chunk, c[offset..offset + chunk])
  {
  }

  /** Writing inside the laid-over block is writing the image. */
  lemma {:induction false} ShownPut(d: seq<int>, start: nat, c: seq<int>, image: seq<int>, offset: nat, data: seq<int>,
                                    c': seq<int>, image': seq<int>)
    requires Shows(d, start, c, image) && offset + |data| <= |c|
    requires Written(c, offset, data, |data|, c') && Written(image, start + offset, data, |data|, image')
    ensures Shows(d, start, c', image')
  {
  }

  ghost predicate IsSlice(image: seq<int>, loc: nat, count: nat, data: seq<int>) {
    loc + count <= |image| && data == image[loc..loc + count]
  }

  lemma {:induction false} SliceMore(image: seq<int>, loc: nat, p: nat, chunk: nat, buffer: seq<int>, data: seq<int>)
    requires IsSlice(image, loc, p, buffer) && IsSlice(image, loc + p, chunk, data)
    ensures IsSlice(image, loc, p + chunk, buffer + data)
  {
  }

  /** The entry that undoes a write of `count` bytes at `loc`. */
  function Saved(image: seq<int>, loc: nat, count: nat): Entry
    requires loc + count <= |image|
  {
    Entry(loc, image[loc..loc + count])
  }

  /** The device is as it was or holds the image. */
  ghost predicate Same(d: seq<int>, image: seq<int>, d': seq<int>) { d' == d || d' == image }

  /** `image` is `before` with the first `p` bytes of `data` written at `loc`. */
  ghost predicate Written(before: seq<int>, loc: nat, data: seq<int>, p: nat, image: seq<int>)
    requires p <= |data|
  {
    && |image| == |before|
    && forall i :: 0 <= i < |image| ==> image[i] == if loc <= i < loc + p then data[i - loc] else before[i]
  }

  lemma {:induction false} WrittenMore(before: seq<int>, loc: nat, data: seq<int>, p: nat, chunk: nat, image: seq<int>,
                                       image': seq<int>)
    requires p + chunk <= |data| && loc + |data| <= |before|
    requires Written(before, loc, data, p, image) && Written(image, loc + p, data[p..p + chunk], chunk, image')
    ensures Written(before, loc, data, p + chunk, image')
  {
  }

  lemma {:induction false} WrittenAll(before: seq<int>, loc: nat, data: seq<int>, image: seq<int>)
    requires loc + |data| <= |before| && Written(before, loc, data, |data|, image)
    ensures image == Splice(before, Entry(loc, data))
  {
  }

  /** Each byte outside the range of `e` is the device's or the image's. */
  ghost predicate Settled(d: seq<int>, image: seq<int>, e: Entry, d': seq<int>) {
    && |d| == |d'| == |image|
    && forall i :: 0 <= i < |d| && !Covers(e, i) ==> d'[i] == d[i] || d'[i] == image[i]
  }

  lemma {:induction false} SettledMore(d: seq<int>, before: seq<int>, loc: nat, data: seq<int>, p: nat, image: seq<int>,
                                       d1: seq<int>, d2: seq<int>)
    requires p <= |data| && Written(before, loc, data, p, image) && Settled(d, before, Entry(loc, data), d1)
    requires Same(d1, image, d2)
    ensures Settled(d, before, Entry(loc, data), d2)
  {
  }

  /** Reading moves at most image bytes to the device. */
  lemma {:induction false} LoggedSame(o: seq<int>, log: seq<Entry>, image: seq<int>, d: seq<int>, d': seq<int>)
    requires Records(o, log, image) && Agrees(o, log, d) && Same(d, image, d')
    ensures Agrees(o, log, d')
  {
    RecordedAgrees(o, log, image);
  }

  /** A write whose replaced bytes were saved first is undone by one more entry. */
  lemma {:induction false} LoggedMore(o: seq<int>, log: seq<Entry>, image: seq<int>, d: seq<int>, d1: seq<int>,
                                      e: Entry, data: seq<int>, image': seq<int>, d2: seq<int>)
    requires Records(o, log, image) && Agrees(o, log, d) && Same(d, image, d1)
    requires IsSlice(image, e.loc, |data|, e.data) && Written(image, e.loc, data, |data|, image')
    requires Settled(d1, image, Entry(e.loc, data), d2)
    ensures Records(o, log + [e], image') && Agrees(o, log + [e], d2)
  {
    assert Step(image, e, image');
    RecordWrite(o, log, image, e, image');
    LoggedSame(o, log, image, d, d1);
    RecordedAgrees(o, log, image);
    var more := log + [e];
    assert more[..|more| - 1] == log;
    forall i | 0 <= i < |o| && !Touched(more, i)
      ensures d2[i] == o[i]
    {
      TouchedByInit(more, i);
    }
  }

  lemma {:induction false} ReplayMore(image: seq<int>, log: seq<Entry>, i: nat)
    requires i < |log| && AllInRange(|image|, log)
    ensures Replay(image, log[i..]) == Replay(Splice(image, log[i]), log[i + 1..])
  {
    assert log[i..][1..] == log[i + 1..];
  }

  class Device {
    const blockSize: nat
    const blocks: nat
    const disk: array<int>
    const cache: array<int>
    /** -1 stands for the all-ones block number. */
    var cachedBlock: int
    var dirty: bool
    var log: seq<Entry>
    var uninstalling: bool
    /** The flat byte array the device and the cache stand for. */
    ghost var image: seq<int>
    ghost var original: seq<int>

    ghost function Start(): int
      reads this
    {
      cachedBlock * blockSize
    }

    ghost predicate Valid()
      reads this, disk, cache
    {
      && blockSize > 0 && cache.Length == blockSize && disk != cache && disk.Length == blocks * blockSize
      && -1 <= cachedBlock < blocks
      && (cachedBlock >= 0 ==> 0 <= Start() && Start() + blockSize <= disk.Length)
      && (dirty ==> cachedBlock >= 0)
      && (cachedBlock >= 0 && !dirty ==> disk[Start()..Start() + blockSize] == cache[..])
      && Shows(disk[..], Start(), cache[..], image)
    }

    /** The first block is read to find the block size, and stays cached. */
    constructor (contents: seq<int>, size: nat, count: nat)
      requires size > 0 && count > 0 && |contents| == count * size
      ensures Valid() && Logged() && fresh(disk) && fresh(cache)
      ensures original == image == disk[..] == contents && log == [] && !dirty
    {
      BlockRange(0, size, count);
      blockSize, blocks := size, count;
      disk := new int[|contents|](i requires 0 <= i < |contents| => contents[i]);
      cache := new int[size](i requires 0 <= i < size <= |contents| => contents[i]);
      cachedBlock, dirty, log, uninstalling := 0, false, [], false;
      image, original := contents, contents;
      new;
      assert disk[..] == contents;
      assert cache[..] == disk[0..size];
      CleanShows(disk[..], 0, cache[..]);
    }

    // ----- the cache -----

    /** `fwrite` of the cached block at its place. */
    method WriteBlock(start: nat)
      requires disk != cache && start + cache.Length <= disk.Length
      modifies disk
      ensures Written(old(disk[..]), start, cache[..], cache.Length, disk[..])
    {
      for k := 0 to cache.Length
        invariant forall i :: 0 <= i < disk.Length ==>
                    disk[i] == if start <= i < start + k then cache[i - start] else old(disk[i])
      {
        disk[start + k] := cache[k];
      }
    }

    method ReadBlock(start: nat)
      requires disk != cache && start + cache.Length <= disk.Length
      modifies cache
      ensures cache[..] == disk[start..start + cache.Length]
    {
      for k := 0 to cache.Length
        invariant forall i :: 0 <= i < k ==> cache[i] == disk[start + i]
      {
        cache[k] := disk[start + k];
      }
    }

    method FlushCache()
      requires Valid()
      modifies this`dirty, disk
      ensures Valid() && !dirty && disk[..] == image
    {
      if !dirty {
        return;
      }
      WriteBlock(cachedBlock * blockSize);
      FlushedImage(old(disk[..]), Start(), cache[..], image, disk[..]);
      dirty := false;
    }

    /** Afterwards the block is cached; the device is as it was or holds the image. */
    method CacheBlock(block: nat)
      requires Valid() && block < blocks
      modifies this`dirty, this`cachedBlock, disk, cache
      ensures Valid() && cachedBlock == block && Same(old(disk[..]), image, disk[..])
    {
      if cachedBlock == block {
        return;
      }
      if dirty {
        FlushCache();
      }
      CleanImage(disk[..], Start(), cache[..], image);
      var start := block * blockSize;
      BlockRange(block, blockSize, blocks);
      ReadBlock(start);
      cachedBlock := block;
      CleanShows(disk[..], start, cache[..]);
    }

    // ----- reading and writing -----

    /** How much of `left` bytes at `pos` lies in the block of `pos`. */
    function Chunk(pos: nat, left: nat): (r: nat)
      requires blockSize > 0 && left > 0
      ensures 0 < r <= left && r <= blockSize - pos % blockSize
    {
      if left > blockSize - pos % blockSize then blockSize - pos % blockSize else left
    }

    /** One chunk of a read. */
    method ReadChunk(pos: nat, chunk: nat) returns (data: seq<int>)
      requires Valid() && pos + chunk <= disk.Length && 0 < chunk <= blockSize - pos % blockSize
      modifies this`dirty, this`cachedBlock, disk, cache
      ensures Valid() && IsSlice(image, pos, chunk, data) && Same(old(disk[..]), image, disk[..])
    {
      BlockBounds(pos, blockSize, blocks, disk.Length);
      CacheBlock(pos / blockSize);
      var offset := pos % blockSize;
      ShownSlice(disk[..], Start(), cache[..], image, offset, chunk);
      data := cache[offset..offset + chunk];
    }

    /** Reads across block boundaries like a flat array. */
    method Read(loc: nat, count: nat) returns (buffer: seq<int>)
      requires Valid() && loc + count <= disk.Length
      modifies this`dirty, this`cachedBlock, disk, cache
      ensures Valid() && IsSlice(image, loc, count, buffer) && Same(old(disk[..]), image, disk[..])
    {
      ghost var d := disk[..];
      buffer := [];
      var progress := 0;
      while progress < count
        invariant progress <= count && Valid() && IsSlice(image, loc, progress, buffer)
        invariant Same(d, image, disk[..])
      {
        var pos := loc + progress;
        var chunk := Chunk(pos, count - progress);
        var data := ReadChunk(pos, chunk);
        SliceMore(image, loc, progress, chunk, buffer, data);
        buffer := buffer + data;
        progress := progress + chunk;
      }
    }

    method PutChunk(offset: nat, data: seq<int>)
      requires offset + |data| <= cache.Length
      modifies cache
      ensures Written(old(cache[..]), offset, data, |data|, cache[..])
    {
      for k := 0 to |data|
        invariant forall i :: 0 <= i < cache.Length ==>
                    cache[i] == if offset <= i < offset + k then data[i - offset] else old(cache[i])
      {
        cache[offset + k] := data[k];
      }
    }

    method PutInCached(offset: nat, data: seq<int>)
      requires Valid() && cachedBlock >= 0 && offset + |data| <= blockSize
      modifies this`dirty, this`image, cache
      ensures Valid() && Written(old(image), Start() + offset, data, |data|, image)
    {
      ghost var c, was := cache[..], image;
      PutChunk(offset, data);
      dirty := true;
      image := Splice(image, Entry(Start() + offset, data));
      ShownPut(disk[..], Start(), c, was, offset, data, cache[..], image);
    }

    /** One chunk of a write. */
    method WriteChunk(pos: nat, data: seq<int>)
      requires Valid() && pos + |data| <= disk.Length && 0 < |data| <= blockSize - pos % blockSize
      modifies this`dirty, this`cachedBlock, this`image, disk, cache
      ensures Valid() && Written(old(image), pos, data, |data|, image)
      ensures Same(old(disk[..]), old(image), disk[..])
    {
      BlockBounds(pos, blockSize, blocks, disk.Length);
      CacheBlock(pos / blockSize);
      PutInCached(pos % blockSize, data);
    }

    /** The writing half of `_device_write`. */
    method WriteThrough(data: seq<int>, loc: nat)
      requires Valid() && loc + |data| <= disk.Length
      modifies this`dirty, this`cachedBlock, this`image, disk, cache
      ensures Valid() && Written(old(image), loc, data, |data|, image)
      ensures Settled(old(disk[..]), old(image), Entry(loc, data), disk[..])
    {
      ghost var d, was := disk[..], image;
      var count, progress := |data|, 0;
      while progress < count
        invariant progress <= count && Valid()
        invariant Written(was, loc, data, progress, image)
        invariant Settled(d, was, Entry(loc, data), disk[..])
      {
        var pos := loc + progress;
        var chunk := Chunk(pos, count - progress);
        ghost var d1, image1 := disk[..], image;
        WriteChunk(pos, data[progress..progress + chunk]);
        WrittenMore(was, loc, data, progress, chunk, image1, image);
        SettledMore(d, was, loc, data, progress, image1, d1, disk[..]);
        progress := progress + chunk;
      }
    }

    // ----- the undo log -----

    /** The log undoes everything done since `original`, both in the image and in
        whatever part of it has reached the device. */
    ghost predicate Logged()
      reads this, disk
    {
      && !uninstalling && |log| <= UNINSTALL_DATA_MAX
      && Records(original, log, image) && Agrees(original, log, disk[..])
    }

    /** A write with the replaced bytes saved first. */
    method SaveAndWrite(data: seq<int>, loc: nat)
      requires Valid() && loc + |data| <= disk.Length && Logged() && |log| < UNINSTALL_DATA_MAX
      modifies this`dirty, this`cachedBlock, this`image, this`log, disk, cache
      ensures Valid() && Logged() && Written(old(image), loc, data, |data|, image)
      ensures log == old(log) + [Saved(old(image), loc, |data|)]
    {
      ghost var d, was := disk[..], image;
      var saved := Read(loc, |data|);
      ghost var d1 := disk[..];
      WriteThrough(data, loc);
      LoggedMore(original, log, was, d, d1, Entry(loc, saved), data, image, disk[..]);
      log := log + [Entry(loc, saved)];
    }

    /** Writes like a flat array, saving the replaced bytes first. */
    method Write(data: seq<int>, loc: nat) returns (ok: bool)
      requires Valid() && loc + |data| <= disk.Length && (uninstalling || Logged())
      modifies this`dirty, this`cachedBlock, this`image, this`log, disk, cache
      ensures Valid() && (uninstalling || Logged())
      ensures ok == (uninstalling || |old(log)| < UNINSTALL_DATA_MAX)
      ensures image == if ok then Splice(old(image), Entry(loc, data)) else old(image)
      ensures log == if ok && !uninstalling then old(log) + [Saved(old(image), loc, |data|)] else old(log)
    {
      if !uninstalling && |log| >= UNINSTALL_DATA_MAX {
        return false;
      }
      ghost var was := image;
      if uninstalling {
        WriteThrough(data, loc);
      } else {
        SaveAndWrite(data, loc);
      }
      WrittenAll(was, loc, data, image);
      return true;
    }

    method ReverseLog()
      modifies this`log
      ensures log == Reverse(old(log))
    {
      var n, rev := |log|, log;
      for i := 0 to n
        invariant |rev| == n && log == old(log)
        invariant forall k :: n - i <= k < n ==> rev[k] == log[n - 1 - k]
      {
        var j := n - 1 - i;
        rev := rev[j := log[i]];
      }
      log := rev;
    }

    method ReplayAll()
      requires Valid() && AllInRange(disk.Length, log) && uninstalling
      modifies this`dirty, this`cachedBlock, this`image, this`log, disk, cache
      ensures Valid() && log == old(log) && image == Replay(old(image), log)
    {
      ghost var goal := Replay(image, log);
      var i := 0;
      assert log[0..] == log;
      while i < |log|
        invariant i <= |log| && Valid() && log == old(log)
        invariant Replay(image, log[i..]) == goal
      {
        ReplayMore(image, log, i);
        var ok := Write(log[i].data, log[i].loc);
        i := i + 1;
      }
    }

    /** Drops the cache, dirty or not, and writes the entries in order. */
    method Uninstall()
      requires Valid() && AllInRange(disk.Length, log)
      modifies this`dirty, this`cachedBlock, this`image, this`log, this`uninstalling, disk, cache
      ensures Valid() && !dirty && disk[..] == image == Replay(old(disk[..]), old(log)) && log == old(log)
    {
      uninstalling := true;
      dirty := false;
      cachedBlock := -1;
      image := disk[..];
      ReplayAll();
      FlushCache();
    }

    /** A failed install is undone: the dirty cache is dropped and the device is the
        original again. */
    method UndoInstall()
      requires Valid() && Logged()
      modifies this`dirty, this`cachedBlock, this`image, this`log, this`uninstalling, disk, cache
      ensures Valid() && disk[..] == original
    {
      Rollback(original, log, image, disk[..]);
      ReverseLog();
      Uninstall();
    }
  }
}

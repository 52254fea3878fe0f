/** A client of the kernel heap and its whole runs: whatever sequence of calls and
    stores it makes, it finds in each of its areas the words it last put there. */
module Session {
  import opened Common
  import opened SizeClasses
  import opened Alignment
  import opened HeapLayout
  import opened HeapSteps
  import opened Tlsf
  import opened HeapTheorems

  datatype Op =
    | OpMalloc(size: nat)
    | OpMemalign(align: nat, size: nat)
    | OpFree(i: nat)
    | OpRealloc(i: nat, size: nat)
    | OpStore(i: nat, k: nat, v: int)

  /** What a client knows: its pointers, and the words it should find there. */
  datatype Holdings = Holdings(ptrs: seq<int>, words: seq<seq<int>>)

  ghost predicate PointsTo(m: seq<int>, N: Sizes, T: Tags, last: int, p: int, words: seq<int>) {
    LiveAt(N, T, last, p) && DataAt(m, N, p - 2) == words
  }

  /** The pointers held are exactly the live ones, each once, and `shadow` is what
      they point to. */
  ghost predicate Mirrors(m: seq<int>, N: Sizes, T: Tags, last: int, held: seq<int>, shadow: seq<seq<int>>) {
    && |shadow| == |held|
    && (forall i, j :: 0 <= i < j < |held| ==> held[i] != held[j])
    && (forall i :: 0 <= i < |held| ==> PointsTo(m, N, T, last, held[i], shadow[i]))
    && (forall p {:trigger LiveAt(N, T, last, p)} :: LiveAt(N, T, last, p) ==> p in held)
  }

  lemma {:induction false} ReplacedMember(s: seq<int>, i: nat, r: int, p: int)
    requires i < |s| && (p == r || (p in s && p != s[i]))
    ensures p in s[i := r]
  {
    if p == r {
      assert s[i := r][i] == p;
    } else {
      var j :| 0 <= j < |s| && s[j] == p;
      assert s[i := r][j] == p;
    }
  }

  lemma {:induction false} StillPoints(m: seq<int>, N: Sizes, T: Tags, m': seq<int>, N': Sizes, T': Tags, last: int,
                                       e: int, r: int, p: int, words: seq<int>)
    requires SameClients(m, N, T, m', N', T', last, e, r) && p != e && p != r && PointsTo(m, N, T, last, p, words)
    ensures PointsTo(m', N', T', last, p, words)
  {
  }

  lemma {:induction false} MirrorAlloc(m: seq<int>, N: Sizes, T: Tags, m': seq<int>, N': Sizes, T': Tags, last: int,
                                       held: seq<int>, shadow: seq<seq<int>>, p: int)
    requires Mirrors(m, N, T, last, held, shadow) && SameClients(m, N, T, m', N', T', last, p, p)
    requires !LiveAt(N, T, last, p) && LiveAt(N', T', last, p)
    ensures Mirrors(m', N', T', last, held + [p], shadow + [DataAt(m', N', p - 2)])
  {
  }

  lemma {:induction false} MirrorFree(m: seq<int>, N: Sizes, T: Tags, m': seq<int>, N': Sizes, T': Tags, last: int,
                                      held: seq<int>, shadow: seq<seq<int>>, i: nat)
    requires Mirrors(m, N, T, last, held, shadow) && i < |held|
             && SameClients(m, N, T, m', N', T', last, held[i], held[i])
    requires !LiveAt(N', T', last, held[i])
    ensures Mirrors(m', N', T', last, Without(held, i), Without(shadow, i))
  {
    var held', shadow' := Without(held, i), Without(shadow, i);
    WithoutDistinct(held, i);
    forall j | 0 <= j < |held'|
      ensures PointsTo(m', N', T', last, held'[j], shadow'[j])
    {
      var k := if j < i then j else j + 1;
      WithoutAt(held, i, j);
      WithoutAt(shadow, i, j);
      assert held[k] != held[i];
      StillPoints(m, N, T, m', N', T', last, held[i], held[i], held[k], shadow[k]);
    }
    forall p | LiveAt(N', T', last, p)
      ensures p in held'
    {
      assert LiveAt(N, T, last, p);
      WithoutMember(held, i, p);
    }
  }

  /** Replacing the pointer at `i` by `r`. */
  lemma {:induction false} MirrorMove(m: seq<int>, N: Sizes, T: Tags, m': seq<int>, N': Sizes, T': Tags, last: int,
                                      held: seq<int>, shadow: seq<seq<int>>, i: nat, r: int)
    requires Mirrors(m, N, T, last, held, shadow) && i < |held| && SameClients(m, N, T, m', N', T', last, held[i], r)
    requires LiveAt(N', T', last, r) && (r != held[i] ==> !LiveAt(N', T', last, held[i]) && !LiveAt(N, T, last, r))
    ensures Mirrors(m', N', T', last, held[i := r], shadow[i := DataAt(m', N', r - 2)])
  {
    var held', shadow' := held[i := r], shadow[i := DataAt(m', N', r - 2)];
    forall j | 0 <= j < |held'|
      ensures PointsTo(m', N', T', last, held'[j], shadow'[j]) && (j != i ==> held[j] != r)
    {
      if j != i {
        assert PointsTo(m, N, T, last, held[j], shadow[j]) && held[j] != held[i];
        StillPoints(m, N, T, m', N', T', last, held[i], r, held[j], shadow[j]);
      }
    }
    forall p | LiveAt(N', T', last, p)
      ensures p in held'
    {
      if p != r {
        assert LiveAt(N, T, last, p);
      }
      ReplacedMember(held, i, r, p);
    }
  }

  /** `after` starts with as much of `before` as the adjusted request covers. */
  ghost predicate KeepsPrefix(before: seq<int>, after: seq<int>, adjust: nat) {
    var k := Min(8 * |before|, adjust) / 8;
    k <= |before| && k <= |after| && after[..k] == before[..k]
  }

  lemma {:induction false} MirrorRealloc(m: seq<int>, N: Sizes, T: Tags, m': seq<int>, N': Sizes, T': Tags, last: int,
                                         held: seq<int>, shadow: seq<seq<int>>, i: nat, r: int, adjust: nat)
    requires Tiled(N, last) && |m| == last + 2
    requires Mirrors(m, N, T, last, held, shadow) && i < |held|
             && Reallocated(m, N, T, m', N', T', last, held[i], r, adjust)
    ensures Mirrors(m', N', T', last, held[i := r], shadow[i := DataAt(m', N', r - 2)])
    ensures KeepsPrefix(shadow[i], DataAt(m', N', r - 2), adjust)
  {
    MirrorMove(m, N, T, m', N', T', last, held, shadow, i, r);
    assert Next(N, held[i] - 2) in N;
  }

  // ----- what each call may do to the holdings -----

  /** One more area, of at least `adjust` bytes and less than a header more unless the
      alignment is the largest one; the others are as they were. */
  ghost predicate Took(s: Holdings, s': Holdings, adjust: nat, base: nat, align: nat)
    requires align > 0
  {
    && |s'.ptrs| == |s'.words| == |s.ptrs| + 1 && s'.ptrs[..|s.ptrs|] == s.ptrs && s'.words[..|s.ptrs|] == s.words
    && s'.ptrs[|s.ptrs|] !in s.ptrs && s'.ptrs[|s.ptrs|] >= 0
    && (align != TOP_ALIGN ==>
          IsMultiple(base + 8 * s'.ptrs[|s.ptrs|], align)
            && adjust <= 8 * |s'.words[|s.ptrs|]| < adjust + BLOCK_HEADER_SIZE)
  }

  lemma {:induction false} TookArea(s: Holdings, p: int, w: seq<int>, adjust: nat, base: nat, align: nat)
    requires align > 0 && |s.ptrs| == |s.words| && p !in s.ptrs && p >= 0
    requires align != TOP_ALIGN ==> IsMultiple(base + 8 * p, align) && adjust <= 8 * |w| < adjust + BLOCK_HEADER_SIZE
    ensures Took(s, Holdings(s.ptrs + [p], s.words + [w]), adjust, base, align)
  {
  }

  /** Area `i` is gone; the others are as they were. */
  ghost predicate Dropped(s: Holdings, s': Holdings, i: nat) {
    && i < |s.ptrs| == |s.words| && s'.ptrs == Without(s.ptrs, i) && s'.words == Without(s.words, i)
  }

  /** Area `i` has been resized, and perhaps moved: it keeps as many words as both sizes
      hold, and the others are as they were. */
  ghost predicate Resized(s: Holdings, s': Holdings, i: nat, adjust: nat) {
    && i < |s.ptrs| == |s.words| == |s'.ptrs| == |s'.words|
    && s'.ptrs == s.ptrs[i := s'.ptrs[i]] && s'.words == s.words[i := s'.words[i]]
    && KeepsPrefix(s.words[i], s'.words[i], adjust)
    && adjust <= 8 * |s'.words[i]| < adjust + BLOCK_HEADER_SIZE
  }

  ghost predicate Stored(s: Holdings, s': Holdings, i: nat, k: nat, v: int) {
    && i < |s.ptrs| == |s.words| && k < |s.words[i]|
    && s'.ptrs == s.ptrs && s'.words == s.words[i := s.words[i][k := v]]
  }

  /** What an operation that is carried out does. */
  ghost predicate Granted(base: nat, s: Holdings, op: Op, s': Holdings) {
    match op
    case OpMalloc(size) => size < WORD_LIMIT && Took(s, s', AdjustRequestSize(size, ALIGN_SIZE), base, 1)
    case OpMemalign(align, size) =>
      size < WORD_LIMIT && align > 0 && Took(s, s', AdjustRequestSize(size, ALIGN_SIZE), base, align)
    case OpFree(i) => Dropped(s, s', i)
    case OpRealloc(i, size) =>
      if size == 0 then Dropped(s, s', i)
      else size < WORD_LIMIT && Resized(s, s', i, AdjustRequestSize(size, ALIGN_SIZE))
    case OpStore(i, k, v) => Stored(s, s', i, k, v)
  }

  /** Where the blocks of a heap lie and which of them are free. */
  datatype Layout = Layout(N: Sizes, T: Tags)

  /** What the client is told no to: requests that are malformed or too large, requests
      no free block can meet, and areas it does not hold. */
  ghost predicate RefusedIn(l: Layout, s: Holdings, op: Op) {
    match op
    case OpMalloc(size) =>
      size >= WORD_LIMIT || AdjustRequestSize(size, ALIGN_SIZE) == 0
        || NoneFitsIn(l.N, l.T, AdjustRequestSize(size, ALIGN_SIZE))
    case OpMemalign(align, size) =>
      || size >= WORD_LIMIT || !IsPow2(align) || !(0 < align <= TOP_ALIGN)
      || AlignedSize(AdjustRequestSize(size, ALIGN_SIZE), align) == 0
      || NoneFitsIn(l.N, l.T, AlignedSize(AdjustRequestSize(size, ALIGN_SIZE), align))
    case OpFree(i) => i >= |s.ptrs|
    case OpRealloc(i, size) =>
      || i >= |s.ptrs| || size >= WORD_LIMIT
      || (size != 0 && (AdjustRequestSize(size, ALIGN_SIZE) == 0
         || StuckIn(l.N, l.T, s.ptrs[i], AdjustRequestSize(size, ALIGN_SIZE))))
    case OpStore(i, k, v) => i >= |s.ptrs| || i >= |s.words| || k >= |s.words[i]|
  }

  /** The used blocks of the layout are the areas held, and no two free ones touch. */
  ghost predicate Pictures(l: Layout, last: int, s: Holdings) {
    && Tiled(l.N, last) && l.T.free <= l.N.Keys && last !in l.T.free && Coalesced(l.N, l.T, last, NONE)
    && |s.ptrs| == |s.words|
    && (forall i :: 0 <= i < |s.ptrs| ==> LiveAt(l.N, l.T, last, s.ptrs[i]) && l.N[s.ptrs[i] - 2] == |s.words[i]|)
    && (forall p {:trigger LiveAt(l.N, l.T, last, p)} :: LiveAt(l.N, l.T, last, p) ==> p in s.ptrs)
  }

  /** What is held leaves no choice of layout, so it alone decides what is refused. */
  lemma {:induction false} PictureUnique(l: Layout, l': Layout, last: int, s: Holdings, op: Op)
    requires Pictures(l, last, s) && Pictures(l', last, s)
    ensures l.N == l'.N && l.T.free == l'.T.free && (RefusedIn(l, s, op) <==> RefusedIn(l', s, op))
  {
    forall p | LiveAt(l.N, l.T, last, p)
      ensures LiveAt(l'.N, l'.T, last, p) && l'.N[p - 2] == l.N[p - 2]
    {
      var i :| 0 <= i < |s.ptrs| && s.ptrs[i] == p;
    }
    forall p | LiveAt(l'.N, l'.T, last, p)
      ensures LiveAt(l.N, l.T, last, p)
    {
      var i :| 0 <= i < |s.ptrs| && s.ptrs[i] == p;
    }
    LayoutUnique(l.N, l.T, l'.N, l'.T, last);
    assert forall request: nat :: NoneFitsIn(l.N, l.T, request) <==> NoneFitsIn(l'.N, l'.T, request);
  }

  lemma {:induction false} MirrorPictures(m: seq<int>, N: Sizes, T: Tags, last: int, held: seq<int>,
                                          shadow: seq<seq<int>>)
    requires Mirrors(m, N, T, last, held, shadow) && Tiled(N, last) && |m| == last + 2
    requires T.free <= N.Keys && last !in T.free && Coalesced(N, T, last, NONE)
    ensures Pictures(Layout(N, T), last, Holdings(held, shadow))
  {
    forall i | 0 <= i < |held|
      ensures LiveAt(N, T, last, held[i]) && N[held[i] - 2] == |shadow[i]|
    {
      assert PointsTo(m, N, T, last, held[i], shadow[i]);
      AreaLength(m, N, last, held[i] - 2);
    }
  }

  /** Every moment of a run: what is held is what the heap has in use, and an operation is
      carried out unless it is refused. */
  ghost predicate Answers(base: nat, last: int, l: Layout, s: Holdings, op: Op, l': Layout, s': Holdings) {
    Pictures(l, last, s) && if RefusedIn(l, s, op) then s' == s && l' == l else Granted(base, s, op, s')
  }

  /** The client's own area, which it may always free and store to. */
  predicate Within(s: Holdings, op: Op) {
    match op
    case OpFree(i) => i < |s.ptrs|
    case OpRealloc(i, size) => i < |s.ptrs| && size == 0
    case OpStore(i, k, v) => i < |s.ptrs| && i < |s.words| && k < |s.words[i]|
    case _ => false
  }

  /** One operation: carried out, or, unless it concerns what the client holds, skipped. */
  ghost predicate Becomes(base: nat, s: Holdings, op: Op, s': Holdings) {
    |s.ptrs| == |s.words| && (Granted(base, s, op, s') || (s' == s && !Within(s, op)))
  }

  /** A run, state by state. */
  ghost predicate IsRun(base: nat, ops: seq<Op>, trace: seq<Holdings>) {
    |trace| == |ops| + 1 && forall n {:trigger Goes(base, ops, trace, n)} :: 0 <= n < |ops| ==>
        Goes(base, ops, trace, n)
  }

  ghost predicate Goes(base: nat, ops: seq<Op>, trace: seq<Holdings>, n: nat) {
    n < |ops| && n + 1 < |trace| && Becomes(base, trace[n], ops[n], trace[n + 1])
  }

  // ----- what is found is what was last stored -----

  /** Word `k` of the area at `p` is `v`. */
  ghost predicate Holds(s: Holdings, p: int, k: nat, v: int) {
    exists i :: 0 <= i < |s.ptrs| && i < |s.words| && s.ptrs[i] == p && k < |s.words[i]| && s.words[i][k] == v
  }

  /** Whether `op` frees or resizes the area at `p`, or stores to its word `k`. */
  predicate Touches(s: Holdings, op: Op, p: int, k: nat) {
    match op
    case OpFree(i) => i < |s.ptrs| && s.ptrs[i] == p
    case OpRealloc(i, size) => i < |s.ptrs| && s.ptrs[i] == p
    case OpStore(i, j, v) => i < |s.ptrs| && s.ptrs[i] == p && j == k
    case _ => false
  }

  /** A step that does not touch a word leaves it. */
  lemma {:induction false} StepKeeps(base: nat, s: Holdings, op: Op, s': Holdings, p: int, k: nat, v: int)
    requires Becomes(base, s, op, s') && Holds(s, p, k, v) && !Touches(s, op, p, k)
    ensures Holds(s', p, k, v)
  {
    var i :| 0 <= i < |s.ptrs| && i < |s.words| && s.ptrs[i] == p && k < |s.words[i]| && s.words[i][k] == v;
    if s' != s {
      match op {
        case OpMalloc(size) => HeldBefore(s, s', i);
        case OpMemalign(align, size) => HeldBefore(s, s', i);
        case OpFree(j) => HeldDespite(s, s', j, i);
        case OpRealloc(j, size) =>
          if size == 0 {
            HeldDespite(s, s', j, i);
          } else {
            HeldBeside(s, s', j, i, AdjustRequestSize(size, ALIGN_SIZE));
          }
        case OpStore(j, l, w) =>
          assert s'.ptrs[i] == p && s'.words[i][k] == v;
      }
    }
  }

  lemma {:induction false} HeldBefore(s: Holdings, s': Holdings, i: nat)
    requires i < |s.ptrs| == |s.words| && |s'.ptrs| == |s'.words| == |s.ptrs| + 1
    requires s'.ptrs[..|s.ptrs|] == s.ptrs && s'.words[..|s.ptrs|] == s.words
    ensures s'.ptrs[i] == s.ptrs[i] && s'.words[i] == s.words[i]
  {
    assert s'.ptrs[i] == s'.ptrs[..|s.ptrs|][i] && s'.words[i] == s'.words[..|s.ptrs|][i];
  }

  lemma {:induction false} HeldBeside(s: Holdings, s': Holdings, j: nat, i: nat, adjust: nat)
    requires Resized(s, s', j, adjust) && i < |s.ptrs| && i != j
    ensures |s'.ptrs| == |s'.words| == |s.ptrs| && s'.ptrs[i] == s.ptrs[i] && s'.words[i] == s.words[i]
  {
  }

  lemma {:induction false} HeldDespite(s: Holdings, s': Holdings, j: nat, i: nat)
    requires Dropped(s, s', j) && i < |s.ptrs| && i != j
    ensures var k := if i < j then i else i - 1;
            k < |s'.ptrs| == |s'.words| && s'.ptrs[k] == s.ptrs[i] && s'.words[k] == s.words[i]
  {
  }

  /** A resize keeps every word that fits. */
  lemma {:induction false} ResizeKeeps(s: Holdings, s': Holdings, i: nat, adjust: nat, k: nat)
    requires Resized(s, s', i, adjust) && k < |s.words[i]| && 8 * k + 8 <= adjust
    ensures k < |s'.words[i]| && s'.words[i][k] == s.words[i][k]
  {
    var n := Min(8 * |s.words[i]|, adjust) / 8;
    assert s'.words[i][..n][k] == s.words[i][..n][k];
  }

  lemma {:induction false} RunKeepsOnce(base: nat, ops: seq<Op>, trace: seq<Holdings>, n: nat, p: int, k: nat, v: int)
    requires IsRun(base, ops, trace) && n < |ops| && Holds(trace[n], p, k, v) && !Touches(trace[n], ops[n], p, k)
    ensures Holds(trace[n + 1], p, k, v)
  {
    assert Goes(base, ops, trace, n);
    StepKeeps(base, trace[n], ops[n], trace[n + 1], p, k, v);
  }

  /** Over any run, a word keeps its value from one operation that touches it to the
      next. */
  lemma {:induction false} RunKeeps(base: nat, ops: seq<Op>, trace: seq<Holdings>, start: nat, end: nat, p: int, k: nat,
                                    v: int)
    requires IsRun(base, ops, trace) && start <= end <= |ops| && Holds(trace[start], p, k, v)
    requires forall n :: start <= n < end ==> !Touches(trace[n], ops[n], p, k)
    ensures Holds(trace[end], p, k, v)
    decreases end - start
  {
    if start < end {
      RunKeepsOnce(base, ops, trace, start, p, k, v);
      RunKeeps(base, ops, trace, start + 1, end, p, k, v);
    }
  }

  /** What a store put into an area is found there until the area or the word is touched
      again. */
  lemma {:induction false} LastStoredIsFound(base: nat, ops: seq<Op>, trace: seq<Holdings>, n: nat, end: nat)
    requires IsRun(base, ops, trace) && n < end <= |ops| && ops[n].OpStore?
    requires ops[n].i < |trace[n].ptrs| == |trace[n].words| && ops[n].k < |trace[n].words[ops[n].i]|
    requires forall m :: n < m < end ==> !Touches(trace[m], ops[m], trace[n].ptrs[ops[n].i], ops[n].k)
    ensures Holds(trace[end], trace[n].ptrs[ops[n].i], ops[n].k, ops[n].v)
  {
    var s' := trace[n + 1];
    assert Goes(base, ops, trace, n);
    assert Stored(trace[n], s', ops[n].i, ops[n].k, ops[n].v);
    assert s'.words[ops[n].i][ops[n].k] == ops[n].v;
    RunKeeps(base, ops, trace, n + 1, end, trace[n].ptrs[ops[n].i], ops[n].k, ops[n].v);
  }

  lemma {:induction false} AreaLength(m: seq<int>, N: Sizes, last: int, h: int)
    requires Tiled(N, last) && |m| == last + 2 && h in N && h != last
    ensures |DataAt(m, N, h)| == N[h] && h >= 0
  {
    assert Next(N, h) in N;
  }

  class Client {
    const heap: Heap
    /** The pointers held, and what the client believes they point to. */
    var held: seq<int>
    ghost var shadow: seq<seq<int>>

    ghost predicate Valid()
      reads this, heap, heap.mem
    {
      heap.Valid() && Mirrors(heap.mem[..], heap.N, heap.T, heap.last, held, shadow)
    }

    ghost function Now(): Holdings
      reads this
    {
      Holdings(held, shadow)
    }

    constructor (base: nat, poolBytes: nat)
      requires poolBytes % 8 == 0 && BLOCK_SIZE_MIN <= poolBytes < BLOCK_SIZE_MAX
      requires base % 8 == 0 && base + poolBytes + 24 <= WORD_LIMIT
      ensures Valid() && Now() == Holdings([], []) && heap.base == base && fresh(heap) && fresh(heap.mem)
              && 8 * (heap.last - 1) == poolBytes
    {
      heap := new Heap(base, poolBytes);
      held := [];
      shadow := [];
    }

    /** Taking over a fresh area. */
    method Hold(p: int, ghost m: seq<int>, ghost N: Sizes, ghost T: Tags, ghost adjust: nat, ghost align: nat)
      requires heap.Valid() && Mirrors(m, N, T, heap.last, held, shadow) && align > 0
      requires !LiveAt(N, T, heap.last, p) && heap.IsLive(p) && heap.OthersKept(m, N, T, p, p)
      requires align != TOP_ALIGN ==>
                 IsMultiple(heap.Address(p), align) && adjust <= heap.SizeAt(p) < adjust + BLOCK_HEADER_SIZE
      modifies this
      ensures Valid() && Took(old(Now()), Now(), adjust, heap.base, align)
    {
      AreaLength(heap.mem[..], heap.N, heap.last, p - 2);
      MirrorAlloc(m, N, T, heap.mem[..], heap.N, heap.T, heap.last, held, shadow, p);
      TookArea(Now(), p, heap.Data(p), adjust, heap.base, align);
      held := held + [p];
      shadow := shadow + [heap.Data(p)];
    }

    method DoMalloc(size: nat) returns (p: int)
      requires Valid() && size < WORD_LIMIT
      modifies this, heap, heap.mem
      ensures Valid() && (p == NULL <==> old(Refused(OpMalloc(size))))
      ensures p == NULL ==> Now() == old(Now()) && Blocks() == old(Blocks())
      ensures p != NULL ==> Took(old(Now()), Now(), AdjustRequestSize(size, ALIGN_SIZE), heap.base, 1)
    {
      ghost var m, N, T := heap.mem[..], heap.N, heap.T;
      p := heap.Malloc(size);
      if p != NULL {
        MultipleMod(heap.Address(p), 1);
        Hold(p, m, N, T, AdjustRequestSize(size, ALIGN_SIZE), 1);
      }
    }

    method DoMemalign(align: nat, size: nat) returns (p: int)
      requires Valid() && size < WORD_LIMIT && IsPow2(align)
      modifies this, heap, heap.mem
      ensures Valid() && align > 0 && (p == NULL <==> old(Refused(OpMemalign(align, size))))
      ensures p == NULL ==> Now() == old(Now()) && Blocks() == old(Blocks())
      ensures p != NULL ==> Took(old(Now()), Now(), AdjustRequestSize(size, ALIGN_SIZE), heap.base, align)
    {
      ghost var m, N, T := heap.mem[..], heap.N, heap.T;
      p := heap.Memalign(align, size);
      if p != NULL {
        Hold(p, m, N, T, AdjustRequestSize(size, ALIGN_SIZE), align);
      }
    }

    method DoFree(i: nat)
      requires Valid() && i < |held|
      modifies this, heap, heap.mem
      ensures Valid() && Dropped(old(Now()), Now(), i)
    {
      ghost var m, N, T := heap.mem[..], heap.N, heap.T;
      heap.Free(held[i]);
      MirrorFree(m, N, T, heap.mem[..], heap.N, heap.T, heap.last, held, shadow, i);
      held := Without(held, i);
      shadow := Without(shadow, i);
    }

    method DoRealloc(i: nat, size: nat) returns (r: int)
      requires Valid() && i < |held| && size < WORD_LIMIT && AdjustRequestSize(size, ALIGN_SIZE) != 0
      modifies this, heap, heap.mem
      ensures Valid() && (r == NULL <==> size != 0 && old(Refused(OpRealloc(i, size))))
      ensures r == NULL ==> Now() == old(Now()) && Blocks() == old(Blocks())
      ensures r != NULL ==> Resized(old(Now()), Now(), i, AdjustRequestSize(size, ALIGN_SIZE))
    {
      ghost var m, N, T := heap.mem[..], heap.N, heap.T;
      var p := held[i];
      r := heap.Realloc(p, size);
      if r != NULL {
        Replace(i, r, m, N, T, AdjustRequestSize(size, ALIGN_SIZE));
      }
    }

    /** Holding the area at `r` instead of the one it came from. */
    method Replace(i: nat, r: int, ghost m: seq<int>, ghost N: Sizes, ghost T: Tags, ghost adjust: nat)
      requires heap.Valid() && Mirrors(m, N, T, heap.last, held, shadow) && i < |held|
      requires Tiled(N, heap.last) && |m| == heap.last + 2
      requires Reallocated(m, N, T, heap.mem[..], heap.N, heap.T, heap.last, held[i], r, adjust)
      modifies this
      ensures Valid() && Resized(old(Now()), Now(), i, adjust)
    {
      MirrorRealloc(m, N, T, heap.mem[..], heap.N, heap.T, heap.last, held, shadow, i, r, adjust);
      AreaLength(heap.mem[..], heap.N, heap.last, r - 2);
      held := held[i := r];
      shadow := shadow[i := heap.Data(r)];
    }

    method DoStore(i: nat, k: nat, v: int)
      requires Valid() && i < |held| && |shadow| == |held| && k < |shadow[i]|
      modifies this, heap.mem
      ensures Valid() && Stored(old(Now()), Now(), i, k, v)
    {
      ghost var m, N, T := heap.mem[..], heap.N, heap.T;
      var p := held[i];
      heap.Store(p, k, v);
      MirrorMove(m, N, T, heap.mem[..], N, T, heap.last, held, shadow, i, p);
      shadow := shadow[i := heap.Data(p)];
    }

    /** The blocks of the heap at present. */
    ghost function Blocks(): Layout
      reads this, heap
    {
      Layout(heap.N, heap.T)
    }

    ghost predicate Refused(op: Op)
      reads this, heap
    {
      RefusedIn(Blocks(), Now(), op)
    }

    method Step(op: Op)
      requires Valid()
      modifies this, heap, heap.mem
      ensures Valid() && Becomes(heap.base, old(Now()), op, Now())
      ensures if old(Refused(op)) then Now() == old(Now()) && Blocks() == old(Blocks())
              else Granted(heap.base, old(Now()), op, Now())
    {
      match op
      case OpMalloc(size) =>
        if size < WORD_LIMIT {
          var p := DoMalloc(size);
        }
      case OpMemalign(align, size) =>
        if size < WORD_LIMIT && IsPow2(align) {
          var p := DoMemalign(align, size);
        }
      case OpFree(i) =>
        if i < |held| {
          DoFree(i);
        }
      case OpRealloc(i, size) =>
        if i < |held| && size < WORD_LIMIT {
          if AdjustRequestSize(size, ALIGN_SIZE) != 0 {
            var r := DoRealloc(i, size);
          } else if size == 0 {
            DoFree(i);
          }
        }
      case OpStore(i, k, v) =>
        if i < |held| {
          var size := heap.BlockSizeOf(held[i]);
          if 8 * k < size {
            DoStore(i, k, v);
          }
        }
    }

    /** A step as a run sees it. */
    method Advance(op: Op)
      requires Valid()
      modifies this, heap, heap.mem
      ensures Valid() && Becomes(heap.base, old(Now()), op, Now())
      ensures Answers(heap.base, heap.last, old(Blocks()), old(Now()), op, Blocks(), Now())
    {
      MirrorPictures(heap.mem[..], heap.N, heap.T, heap.last, held, shadow);
      Step(op);
    }

    /** Any run: the heap stays intact, the holdings follow the operations one by one,
        and the blocks account for every byte of the pool. */
    method Run(ops: seq<Op>) returns (ghost trace: seq<Holdings>, ghost layouts: seq<Layout>)
      requires Valid()
      modifies this, heap, heap.mem
      ensures Valid()
      ensures IsRun(heap.base, ops, trace) && trace[0] == old(Now()) && trace[|ops|] == Now()
      ensures |layouts| == |ops| + 1 && layouts[0] == old(Blocks()) && layouts[|ops|] == Blocks()
      ensures forall n {:trigger ops[n]} :: 0 <= n < |ops| ==>
                Answers(heap.base, heap.last, layouts[n], trace[n], ops[n], layouts[n + 1], trace[n + 1])
      ensures forall i :: 0 <= i < |Walk(heap.N, heap.last, 0)| ==> Walk(heap.N, heap.last, 0)[i] in heap.N
      ensures Footprint(heap.N, Walk(heap.N, heap.last, 0)) == 8 * heap.last
    {
      trace, layouts := [Now()], [Blocks()];
      for n := 0 to |ops|
        invariant Valid() && |trace| == n + 1 && trace[0] == old(Now()) && trace[n] == Now()
        invariant |layouts| == n + 1 && layouts[0] == old(Blocks()) && layouts[n] == Blocks()
        invariant forall k {:trigger ops[k]} :: 0 <= k < n ==>
                    Answers(heap.base, heap.last, layouts[k], trace[k], ops[k], layouts[k + 1], trace[k + 1])
        invariant forall k {:trigger ops[k]} :: 0 <= k < n ==> Becomes(heap.base, trace[k], ops[k], trace[k + 1])
      {
        Advance(ops[n]);
        trace, layouts := trace + [Now()], layouts + [Blocks()];
      }
      Conservation(heap.N, heap.last, 0);
    }

    /** Freeing everything, in whatever order, leaves the pool as it was created. */
    method FreeEverything()
      requires Valid()
      modifies this, heap, heap.mem
      ensures Valid() && held == [] && heap.last > 0 && heap.N == InitialSizes(heap.last) && heap.T.free == {0}
    {
      while held != []
        invariant Valid()
        decreases |held|
      {
        var i: nat :| i < |held|;
        DoFree(i);
      }
      FullyCoalesced(heap.mem[..], heap.N, heap.T, heap.last);
    }
  }

  /** What goes wrong at the largest alignment: for every pool that stays away from the
      middle of the address space, a request larger than the whole pool is granted, with
      a block that is too small and not aligned. */
  method LargestAlignment(base: nat, poolBytes: nat, size: nat) returns (heap: Heap, p: int)
    requires poolBytes % 8 == 0 && BLOCK_SIZE_MIN <= poolBytes < size <= BLOCK_SIZE_MAX - 8
    requires base % 8 == 0 && (base + poolBytes + 24 <= TOP_ALIGN
             || (TOP_ALIGN <= base && base + poolBytes + 24 <= WORD_LIMIT))
    ensures heap.Valid() && p != NULL && heap.IsLive(p) && heap.SizeAt(p) == poolBytes < size
    ensures heap.Address(p) > 0 && !IsMultiple(heap.Address(p), TOP_ALIGN)
  {
    heap := new Heap(base, poolBytes);
    TopPow2();
    RequestAtLargest(size);
    p := AllocateAtLargest(heap, poolBytes, size);
  }

  /** On a fresh heap the whole pool is handed out. */
  method AllocateAtLargest(heap: Heap, poolBytes: nat, size: nat) returns (p: int)
    requires heap.Valid() && heap.last >= 1 && heap.N == InitialSizes(heap.last) && heap.T.free == {0}
             && 8 * (heap.last - 1) == poolBytes
    requires BLOCK_SIZE_MIN <= poolBytes < size <= BLOCK_SIZE_MAX - 8 && IsPow2(TOP_ALIGN)
    requires heap.base + poolBytes + 24 <= TOP_ALIGN || TOP_ALIGN <= heap.base
    requires AlignedSize(AdjustRequestSize(size, ALIGN_SIZE), TOP_ALIGN) == BLOCK_SIZE_MIN
             && size <= AdjustRequestSize(size, ALIGN_SIZE)
    modifies heap, heap.mem
    ensures heap.Valid() && p != NULL && heap.IsLive(p) && heap.SizeAt(p) == poolBytes
    ensures heap.Address(p) > 0 && !IsMultiple(heap.Address(p), TOP_ALIGN)
  {
    ghost var was, adjust := heap.N, AdjustRequestSize(size, ALIGN_SIZE);
    SmallestFits(poolBytes);
    assert 0 in heap.T.free && 0 in heap.N && 8 * heap.N[0] == poolBytes;
    p := heap.Memalign(TOP_ALIGN, size);
    ghost var b :| heap.CarvedFrom(was, {0}, b, TOP_ALIGN, adjust, p);
    WholePool(heap, was, b, poolBytes, adjust, p);
  }

  lemma {:induction false} WholePool(heap: Heap, was: Sizes, b: int, poolBytes: nat, adjust: nat, p: int)
    requires heap.last >= 1 && was == InitialSizes(heap.last) && 0 < poolBytes == 8 * (heap.last - 1) < adjust
    requires heap.Placed() && (heap.base + poolBytes + 24 <= TOP_ALIGN || TOP_ALIGN <= heap.base)
    requires heap.CarvedFrom(was, {0}, b, TOP_ALIGN, adjust, p)
    ensures p == 2 && 8 * heap.N[p - 2] == poolBytes && heap.Address(p) > 0 && !IsMultiple(heap.Address(p), TOP_ALIGN)
  {
    UnalignedAtLargest(heap.Address(2), TOP_ALIGN, poolBytes, adjust, 0, p, 8 * heap.N[p - 2]);
  }

  lemma {:induction false} RequestAtLargest(size: nat)
    requires BLOCK_SIZE_MIN < size <= BLOCK_SIZE_MAX - 8 && IsPow2(TOP_ALIGN)
    ensures AlignedSize(AdjustRequestSize(size, ALIGN_SIZE), TOP_ALIGN) == BLOCK_SIZE_MIN
            && size <= AdjustRequestSize(size, ALIGN_SIZE)
  {
    AdjustCovers(size);
    PaddingCovers(AdjustRequestSize(size, ALIGN_SIZE), TOP_ALIGN);
  }

  lemma {:induction false} TopPow2()
    ensures IsPow2(TOP_ALIGN)
  {
    TopPowers();
    assert TOP_ALIGN == Pow2(63);
  }

  lemma {:induction false} SmallestFits(poolBytes: nat)
    requires poolBytes % 8 == 0 && BLOCK_SIZE_MIN <= poolBytes
    ensures Floor(MappingInsert(poolBytes)) >= BLOCK_SIZE_MIN
  {
    if Floor(MappingInsert(poolBytes)) < BLOCK_SIZE_MIN {
      CloseFit(BLOCK_SIZE_MIN, poolBytes);
    }
  }
}

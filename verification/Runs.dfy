/** Whole runs of the pool: any sequence of malloc, aligned_alloc, free and realloc calls. */
module Runs {
  import opened Basics
  import opened Tags
  import opened Heaps
  import opened Ops
  import opened Reps
  import opened FreeLists
  import opened AllocAreas
  import opened Invariants
  import opened MemoryPool

  datatype Op = Malloc(size: nat) | Memalign(size: nat, align: nat) | Release(ptr: nat) | Resize(ptr: nat, size: nat)

  // What an observer sees between two calls: the words, the list heads, the heap they
  // represent, alloced_size.
  datatype Snapshot = Snapshot(words: seq<nat>, heads: seq<nat>, heap: Heap, counter: nat)

  // The block whose contents a call may end: the freed or resized one.
  function Target(op: Op): nat {
    match op
    case Malloc(_) => 0
    case Memalign(_, _) => 0
    case Release(p) => p
    case Resize(p, _) => p
  }

  // What the pool asks of its callers; resizing must not run into the null-pointer copy.
  ghost predicate Legal(h: Heap, base: nat, op: Op)
    requires WF(h, 0) && base % 16 == 0
  {
    match op
    case Malloc(size) => size <= MAX_REQUEST
    case Memalign(size, align) =>
      && size <= (if align < 16 then MAX_REQUEST else MAX_ALIGNED_REQUEST) && align < WORD_MODULUS
      && (PowerOfTwo(align) ==> Separable(h, base, Padded(size), align))
    case Release(p) => p == 0 || IsLive(h, p)
    case Resize(p, size) =>
      size <= MAX_REQUEST && IsLive(h, p) && (RequestOk(base, size, 0); Ops.Realloc(h, base, p, Padded(size)).1 != 0)
  }

  // The heap after the call and the pointer it returns, as the methods of Pool specify them.
  ghost function Effect(h: Heap, base: nat, op: Op): (Heap, nat)
    requires WF(h, 0) && base % 16 == 0 && Legal(h, base, op)
  {
    match op
    case Malloc(size) => RequestOk(base, size, 0); Ops.Alloc(h, base, Padded(size), 0)
    case Memalign(size, align) =>
      if !PowerOfTwo(align) then (h, 0)
      else PowerOf16(align); PowerFits(align); RequestOk(base, size, align); Ops.Alloc(h, base, Padded(size), align)
    case Release(p) => if p == 0 then (h, 0) else (Ops.Free(h, p), 0)
    case Resize(p, size) => RequestOk(base, size, 0); Ops.Realloc(h, base, p, Padded(size))
  }

  // The change of alloced_size.
  ghost function Count(h: Heap, g: Heap, r: nat, op: Op, counter: nat): nat {
    match op
    case Malloc(_) => if r in g.blocks then Add64(counter, 8 * g.blocks[r].w) else counter
    case Memalign(_, _) => if r in g.blocks then Add64(counter, 8 * g.blocks[r].w) else counter
    case Release(p) => if p in h.blocks then Sub64(counter, 8 * h.blocks[p].w) else counter
    case Resize(p, _) =>
      if r != p && r in g.blocks && p in h.blocks then Sub64(Add64(counter, 8 * g.blocks[r].w), 8 * h.blocks[p].w) else counter
  }

  ghost predicate Stepped(base: nat, s: Snapshot, op: Op, t: Snapshot)
    requires WF(s.heap, 0) && base % 16 == 0
  {
    && Legal(s.heap, base, op)
    && t.heap == Effect(s.heap, base, op).0
    && t.counter == Count(s.heap, t.heap, Effect(s.heap, base, op).1, op, s.counter)
    && Undisturbed(s.words, t.words, s.heap, Target(op))
    && Rep(t.words, t.heads, t.heap)
  }

  lemma EffectWF(h: Heap, base: nat, op: Op)
    requires WF(h, 0) && base % 16 == 0 && Legal(h, base, op)
    ensures var (g, r) := Effect(h, base, op);
            WF(g, 0) && g.areas == h.areas && OthersKept2(h, g, Target(op), r) && (r != 0 && r != Target(op) ==> !IsLive(h, r))
  {
    hide WF, Ops.Alloc, Ops.Free, Ops.Realloc, Padded, Separable;
    match op {
      case Malloc(size) =>
        RequestOk(base, size, 0);
        NoSkip(h, base, Padded(size));
        AllocCorrect(h, base, Padded(size), 0);
      case Memalign(size, align) =>
        if PowerOfTwo(align) {
          PowerOf16(align);
          PowerFits(align);
          RequestOk(base, size, align);
          AllocCorrect(h, base, Padded(size), align);
        }
      case Release(p) =>
        if p != 0 {
          FreeCorrect(h, p);
        }
      case Resize(p, size) =>
        RequestOk(base, size, 0);
        ReallocCorrect(h, base, p, Padded(size));
    }
  }

  ghost function Seen(pool: Pool): Snapshot
    reads pool, pool.mem, pool.heads
  {
    Snapshot(pool.mem[..], pool.heads[..], pool.heap, pool.allocedSize)
  }

  /** A call of the pool is a step of a run: what the runs below show holds of the words. */
  method Perform(pool: Pool, op: Op) returns (r: nat)
    requires pool.Valid() && WF(pool.heap, 0) && Legal(pool.heap, pool.base, op)
    requires op.Memalign? ==> pool.base + 8 * pool.mem.Length + op.align <= WORD_MODULUS
    modifies pool`allocedSize, pool`heap, pool.mem, pool.heads
    ensures pool.Valid() && Stepped(pool.base, old(Seen(pool)), op, Seen(pool))
    ensures r == Effect(old(pool.heap), pool.base, op).1
  {
    hide WF, Rep, Undisturbed, Ops.Alloc, Ops.Free, Ops.Realloc, Padded, Separable;
    ghost var h := pool.heap;
    NoBlockAtNull(h);
    r := 0;
    match op {
      case Malloc(size) =>
        r := pool.Alloc(size);
      case Memalign(size, align) =>
        r := pool.AlignedAlloc(size, align);
      case Release(p) =>
        RepSelf(pool.mem[..], pool.heads[..], pool.heap);
        pool.Free(p);
      case Resize(p, size) =>
        LiveNonzero(pool.heap, p);
        var fault;
        r, fault := pool.Realloc(p, size);
    }
    NoBlockAtNull(pool.heap);
  }

  lemma NoBlockAtNull(h: Heap)
    requires WF(h, 0)
    ensures 0 !in h.blocks
  {
    hide Laid, Homed, ClassOf;
  }

  lemma RepSelf(m: seq<nat>, heads: seq<nat>, h: Heap)
    requires Rep(m, heads, h)
    ensures Undisturbed(m, m, h, 0)
  {
    SelfUndisturbed(m, h, 0);
  }

  // ss is the sequence of states of the run ops.
  ghost predicate Trace(base: nat, ss: seq<Snapshot>, ops: seq<Op>)
    requires |ss| == |ops| + 1 && WF(ss[0].heap, 0) && base % 16 == 0
    decreases |ops|
  {
    ops == [] ||
    (Stepped(base, ss[0], ops[0], ss[1]) &&
     (EffectWF(ss[0].heap, base, ops[0]); Trace(base, ss[1..], ops[1..])))
  }

  ghost function Last(ss: seq<Snapshot>): Snapshot
    requires ss != []
  {
    ss[|ss| - 1]
  }

  // Every call of a run is legal when its turn comes.
  ghost predicate LegalRun(h: Heap, base: nat, ops: seq<Op>)
    requires WF(h, 0) && base % 16 == 0
    decreases |ops|
  {
    ops == [] ||
    (Legal(h, base, ops[0]) && (EffectWF(h, base, ops[0]); LegalRun(Effect(h, base, ops[0]).0, base, ops[1..])))
  }

  /** A whole sequence of calls leaves a valid pool, and its states are a trace: the theorems
      on traces hold of every pool there is. */
  method PerformAll(pool: Pool, ops: seq<Op>) returns (ghost ss: seq<Snapshot>)
    requires pool.Valid() && WF(pool.heap, 0) && LegalRun(pool.heap, pool.base, ops)
    requires forall i :: 0 <= i < |ops| && ops[i].Memalign? ==> pool.base + 8 * pool.mem.Length + ops[i].align <= WORD_MODULUS
    modifies pool`allocedSize, pool`heap, pool.mem, pool.heads
    ensures pool.Valid() && |ss| == |ops| + 1 && ss[0] == old(Seen(pool)) && Last(ss) == Seen(pool)
    ensures WF(ss[0].heap, 0) && Trace(pool.base, ss, ops)
    decreases |ops|
  {
    hide WF, Legal, Effect, Stepped;
    ghost var s := Seen(pool);
    ss := [s];
    if ops != [] {
      var r := PerformFirst(pool, ops);
      ghost var rest := PerformAll(pool, ops[1..]);
      ss := [s] + rest;
      TraceMore(pool.base, s, rest, ops);
    }
  }

  method PerformFirst(pool: Pool, ops: seq<Op>) returns (r: nat)
    requires pool.Valid() && WF(pool.heap, 0) && ops != [] && LegalRun(pool.heap, pool.base, ops)
    requires ops[0].Memalign? ==> pool.base + 8 * pool.mem.Length + ops[0].align <= WORD_MODULUS
    modifies pool`allocedSize, pool`heap, pool.mem, pool.heads
    ensures pool.Valid() && Stepped(pool.base, old(Seen(pool)), ops[0], Seen(pool))
    ensures WF(pool.heap, 0) && LegalRun(pool.heap, pool.base, ops[1..])
  {
    hide WF, Rep, Undisturbed, Legal, Effect;
    EffectWF(pool.heap, pool.base, ops[0]);
    r := Perform(pool, ops[0]);
  }

  lemma TraceMore(base: nat, s: Snapshot, rest: seq<Snapshot>, ops: seq<Op>)
    requires WF(s.heap, 0) && base % 16 == 0 && ops != [] && |rest| == |ops|
    requires Stepped(base, s, ops[0], rest[0]) && WF(rest[0].heap, 0) && Trace(base, rest, ops[1..])
    ensures Trace(base, [s] + rest, ops)
  {
    hide WF, Stepped;
    assert ([s] + rest)[1..] == rest;
    StepWF(base, s, ops[0], rest[0]);
  }

  /** Safety over every run: whatever calls are made, the words and the list heads parse as
      blocks that tile the area exactly, and the free blocks are exactly the listed ones. */
  lemma {:induction false} RunSafe(base: nat, ss: seq<Snapshot>, ops: seq<Op>)
    requires |ss| == |ops| + 1 && WF(ss[0].heap, 0) && base % 16 == 0 && Trace(base, ss, ops)
    requires Rep(ss[0].words, ss[0].heads, ss[0].heap)
    ensures WF(Last(ss).heap, 0) && Last(ss).heap.areas == ss[0].heap.areas
    ensures Rep(Last(ss).words, Last(ss).heads, Last(ss).heap)
    decreases |ops|
  {
    hide WF, Stepped, Rep;
    if ops != [] {
      StepWF(base, ss[0], ops[0], ss[1]);
      RunSafe(base, ss[1..], ops[1..]);
    }
  }

  lemma StepWF(base: nat, s: Snapshot, op: Op, t: Snapshot)
    requires WF(s.heap, 0) && base % 16 == 0 && Stepped(base, s, op, t)
    ensures WF(t.heap, 0) && t.heap.areas == s.heap.areas && Rep(t.words, t.heads, t.heap)
  {
    hide WF, Effect, Legal, Rep;
    EffectWF(s.heap, base, op);
  }

  /** Isolation over every run: a live block that no call frees or resizes is still there at
      the end, in the same place, with every payload word as it was. */
  lemma {:induction false} RunIsolates(base: nat, ss: seq<Snapshot>, ops: seq<Op>, p: nat)
    requires |ss| == |ops| + 1 && WF(ss[0].heap, 0) && base % 16 == 0 && Trace(base, ss, ops)
    requires IsLive(ss[0].heap, p) && (forall i :: 0 <= i < |ops| ==> Target(ops[i]) != p)
    requires p + ss[0].heap.blocks[p].w <= |ss[0].words|
    ensures var w := ss[0].heap.blocks[p].w;
            IsLive(Last(ss).heap, p) && Last(ss).heap.blocks[p].w == w && PayloadSame(ss[0].words, Last(ss).words, p, w)
    decreases |ops|
  {
    hide WF, Stepped;
    if ops != [] {
      StepWF(base, ss[0], ops[0], ss[1]);
      StepIsolates(base, ss[0], ops[0], ss[1], p);
      RunIsolates(base, ss[1..], ops[1..], p);
    }
  }

  lemma StepIsolates(base: nat, s: Snapshot, op: Op, t: Snapshot, p: nat)
    requires WF(s.heap, 0) && base % 16 == 0 && Stepped(base, s, op, t) && IsLive(s.heap, p) && Target(op) != p
    ensures IsLive(t.heap, p) && t.heap.blocks[p].w == s.heap.blocks[p].w
    ensures PayloadSame(s.words, t.words, p, s.heap.blocks[p].w)
  {
    hide WF, Effect, Legal;
    EffectWF(s.heap, base, op);
    LiveNonzero(s.heap, p);
    assert SameBlock(s.heap, t.heap, p);
    assert PayloadSame(s.words, t.words, p, s.heap.blocks[p].w);
  }

  // ----- runs without resizing

  /** What calls other than realloc keep: no two free neighbours, SIZE_FLAG by area, and a
      counter that equals the allocated bytes. */
  ghost predicate Regular(s: Snapshot, len: nat) {
    && Coalesced(s.heap) && Flagged(s.heap)
    && s.heap.areas == map[0 := Area(len, Fence(0, len == WORDS_2M))] && 8 * len <= WORD_MODULUS
    && s.counter == 8 * LiveWords(s.heap, 0)
  }

  lemma OneArea(h: Heap, p: nat, len: nat, fence: nat)
    requires WF(h, 0) && h.areas == map[0 := Area(len, fence)]
    ensures p in h.blocks ==> h.blocks[p].area == 0 && p != 0
    ensures LiveWords(h, 0) + 2 <= len
  {
    hide Homed, ClassOf, Chained, Apart;
    Conservation(h, 0);
  }

  lemma StepRegular(base: nat, s: Snapshot, op: Op, t: Snapshot, len: nat)
    requires WF(s.heap, 0) && base % 16 == 0 && Stepped(base, s, op, t) && Regular(s, len) && !op.Resize?
    ensures Regular(t, len)
  {
    hide WF, Coalesced, Flagged, LiveWords, Ops.Alloc, Ops.Free, Padded, Separable, Fence, OthersKept, Undisturbed, Comparable, Rep;
    match op {
      case Malloc(size) =>
        RequestOk(base, size, 0);
        NoSkip(s.heap, base, Padded(size));
        AllocStepRegular(base, s, Padded(size), 0, op, t, len);
      case Memalign(size, align) =>
        if PowerOfTwo(align) {
          PowerOf16(align);
          PowerFits(align);
          RequestOk(base, size, align);
          AllocStepRegular(base, s, Padded(size), align, op, t, len);
        } else {
          NoBlockAtNull(s.heap);
        }
      case Release(p) =>
        FreeStepRegular(base, s, p, t, len);
    }
  }

  lemma AllocStepRegular(base: nat, s: Snapshot, n: nat, align: nat, op: Op, t: Snapshot, len: nat)
    requires WF(s.heap, 0) && Regular(s, len) && Request(base, n, align) && Separable(s.heap, base, n, align)
    requires var r := Ops.Alloc(s.heap, base, n, align).1;
             t.heap == Ops.Alloc(s.heap, base, n, align).0 &&
             t.counter == if r in t.heap.blocks then Add64(s.counter, 8 * t.heap.blocks[r].w) else s.counter
    ensures Regular(t, len)
  {
    hide WF, Coalesced, Flagged, LiveWords, Ops.Alloc, Separable, Fence, OthersKept, Fits;
    var r := Ops.Alloc(s.heap, base, n, align).1;
    AllocCorrect(s.heap, base, n, align);
    AllocRegular(s.heap, base, n, align);
    NoBlockAtNull(s.heap);
    OneArea(t.heap, r, len, Fence(0, len == WORDS_2M));
  }

  lemma FreeStepRegular(base: nat, s: Snapshot, p: nat, t: Snapshot, len: nat)
    requires WF(s.heap, 0) && base % 16 == 0 && Stepped(base, s, Release(p), t) && Regular(s, len)
    ensures Regular(t, len)
  {
    hide WF, Coalesced, Flagged, LiveWords, Ops.Free, Fence, OthersKept, Undisturbed, Rep;
    NoBlockAtNull(s.heap);
    if p != 0 {
      FreeCorrect(s.heap, p);
      FreeCoalesced(s.heap, p);
      FreeFlagged(s.heap, p);
      LiveDropped(s.heap, t.heap, p, 0);
      OneArea(s.heap, p, len, Fence(0, len == WORDS_2M));
    }
  }

  lemma AllocRegular(h: Heap, base: nat, n: nat, align: nat)
    requires WF(h, 0) && Request(base, n, align) && Separable(h, base, n, align) && Coalesced(h) && Flagged(h)
    ensures var (g, r) := Ops.Alloc(h, base, n, align);
            && Coalesced(g) && Flagged(g) && (r == 0 ==> g == h)
            && (r != 0 ==> r in g.blocks && (g.blocks[r].area == 0 ==> LiveWords(g, 0) == LiveWords(h, 0) + g.blocks[r].w))
  {
    hide WF, Coalesced, Flagged, LiveWords, Ops.Alloc, Separable, OthersKept;
    AllocCorrect(h, base, n, align);
    AllocCoalesced(h, base, n, align);
    AllocFlagged(h, base, n, align);
    var (g, r) := Ops.Alloc(h, base, n, align);
    if r != 0 {
      LiveAdded(h, g, r, 0);
    }
  }

  /** A resize leaves the counter right exactly if it neither cuts anything off the block nor
      lets it grow into its successor: if the block already has the size, up to the 64 bytes
      that are not cut off, or has to move. */
  lemma ResizeCounter(base: nat, s: Snapshot, p: nat, size: nat, t: Snapshot, len: nat)
    requires WF(s.heap, 0) && base % 16 == 0 && Stepped(base, s, Resize(p, size), t) && Regular(s, len)
    ensures p in s.heap.blocks
    ensures var n, w := Padded(size), s.heap.blocks[p].w;
            t.counter == 8 * LiveWords(t.heap, 0) <==> n <= w < n + 8 || (w < n && !GrowsInPlace(s.heap, p, n))
  {
    hide WF, Laid, Coalesced, Flagged, LiveWords, Ops.Realloc, Padded, Fence, OthersKept2, Undisturbed, Add64, Sub64, GrowsInPlace;
    var h, g := s.heap, t.heap;
    RequestOk(base, size, 0);
    ReallocCorrect(h, base, p, Padded(size));
    ResizedWords(h, base, p, size);
    var r := Effect(h, base, Resize(p, size)).1;
    var fence := Fence(0, len == WORDS_2M);
    OneArea(h, p, len, fence);
    OneArea(g, r, len, fence);
    LiveSwapped(h, g, p, r, 0);
    SwapCount(s.counter, 8 * g.blocks[r].w, 8 * h.blocks[p].w);
  }

  // When a resize neither moves the block nor keeps its size.
  lemma ResizedWords(h: Heap, base: nat, p: nat, size: nat)
    requires WF(h, 0) && base % 16 == 0 && Legal(h, base, Resize(p, size))
    ensures Laid(h) && Request(base, Padded(size), 0)
    ensures var n, w := Padded(size), h.blocks[p].w;
            var (g, r) := Ops.Realloc(h, base, p, n);
            r in g.blocks && (r == p && g.blocks[r].w != w <==> !(n <= w < n + 8 || (w < n && !GrowsInPlace(h, p, n))))
  {
    hide WF, Laid, Homed, ClassOf, Ops.Realloc, Trim, MergeNext, GrowsInPlace, Padded, Ops.Alloc, Ops.Free;
    var n, w := Padded(size), h.blocks[p].w;
    RequestOk(base, size, 0);
    LiveLaid(h, p);
    if w >= n {
      ReallocShrink(h, base, p, n);
      TrimSize(h, p, n);
    } else if GrowsInPlace(h, p, n) {
      ReallocGrow(h, base, p, n);
    } else {
      ReallocMove(h, base, p, n, size);
    }
  }

  lemma TrimSize(h: Heap, p: nat, n: nat)
    requires p in h.blocks && |h.lists| == 9 && n <= h.blocks[p].w
    ensures Trim(h, p, n).blocks[p].w == if h.blocks[p].w >= n + 8 then n else h.blocks[p].w
  {
    hide ClassOf;
  }

  // Modular addition and subtraction give the plain result when that is in range.
  lemma SwapCount(x: nat, y: nat, z: nat)
    requires x < WORD_MODULUS && y < WORD_MODULUS && z < WORD_MODULUS && 0 <= x + y - z < WORD_MODULUS
    ensures Sub64(Add64(x, y), z) == x + y - z
  {
    if x + y < WORD_MODULUS {
      assert Add64(x, y) == x + y;
    } else {
      assert Add64(x, y) == x + y - WORD_MODULUS;
    }
  }

  ghost predicate NoResize(ops: seq<Op>) {
    forall i :: 0 <= i < |ops| ==> !ops[i].Resize?
  }

  /** Over every run of malloc, aligned_alloc and free the heap stays coalesced and
      alloced_size equals the allocated bytes. */
  lemma {:induction false} RunRegular(base: nat, ss: seq<Snapshot>, ops: seq<Op>, len: nat)
    requires |ss| == |ops| + 1 && WF(ss[0].heap, 0) && base % 16 == 0 && Trace(base, ss, ops)
    requires Regular(ss[0], len) && NoResize(ops)
    ensures WF(Last(ss).heap, 0) && Regular(Last(ss), len)
    decreases |ops|
  {
    hide WF, Stepped, Regular;
    if ops != [] {
      StepWF(base, ss[0], ops[0], ss[1]);
      StepRegular(base, ss[0], ops[0], ss[1], len);
      RunRegular(base, ss[1..], ops[1..], len);
    }
  }

  // A coalesced heap over one area without live blocks is one block.
  lemma AllFree(h: Heap, a: nat, len: nat, fence: nat)
    requires WF(h, 0) && Coalesced(h) && h.areas == map[a := Area(len, fence)]
    requires forall p :: !IsLive(h, p)
    ensures h.blocks.Keys == {a + 2} && len >= 6
    ensures var b := h.blocks[a + 2];
            && b.w == len - 4 && b.free && b.area == a && (b.home == ClassOf(len - 4) || b.home == LARGE)
            && h.lists == EMPTY.lists[b.home := [a + 2]]
  {
    hide ClassOf;
    var p := a + 2;
    assert AreaOk(h, a) && BlockOk(h, p);
    assert !FreePair(h, p) && !IsLive(h, p) && !IsLive(h, Next(h, p));
    NextSameArea(h, p);
    assert NextOk(h, p);
    forall x | x in h.blocks ensures x == p {
      assert BlockOk(h, x) && Clear(h, p, x);
    }
    AllFreeLists(h, p);
  }

  lemma NotAllSame(l: seq<nat>, v: nat)
    requires NoDup(l)
    ensures |l| > 1 ==> exists k :: 0 <= k < |l| && l[k] != v
  {
    if |l| > 1 {
      assert l[0] != l[1];
    }
  }

  lemma AllFreeLists(h: Heap, p: nat)
    requires Homed(h) && h.blocks.Keys == {p} && h.blocks[p].home < 9
    ensures h.lists == EMPTY.lists[h.blocks[p].home := [p]]
  {
    var id := h.blocks[p].home;
    forall i | 0 <= i < 9 ensures h.lists[i] == if i == id then [p] else [] {
      var l := h.lists[i];
      assert forall k :: 0 <= k < |l| ==> l[k] in h.lists[i];
      assert i == id ==> p in l;
      assert forall k :: 0 <= k < |l| ==> l[k] == p;
      NotAllSame(l, p);
      var one: seq<nat> := [p];
      assert i == id ==> l == one;
      assert |l| > 0 ==> l[0] in h.lists[i];
    }
  }

  /** Freeing everything, in whatever order, brings the heap back to the single block that
      mpool_init made; if that block is large (16 KiB or more), to exactly the initial heap,
      with alloced_size 0. */
  lemma RunReturns(base: nat, ss: seq<Snapshot>, ops: seq<Op>, len: nat)
    requires |ss| == |ops| + 1 && base % 16 == 0 && len >= 6 && len % 2 == 0 && 8 * len <= WORD_MODULUS
    requires ss[0].heap == InitHeap(len) && ss[0].counter == 0 && WF(ss[0].heap, 0) && Trace(base, ss, ops)
    requires NoResize(ops) && forall p :: !IsLive(Last(ss).heap, p)
    ensures var h := Last(ss).heap;
            h.blocks.Keys == {2} && h.blocks[2] == InitHeap(len).blocks[2].(home := h.blocks[2].home) && Last(ss).counter == 0
    ensures 8 * (len - 4) >= 16384 ==> Last(ss).heap == InitHeap(len)
  {
    hide WF, ClassOf, Fence, Trace, Coalesced, LiveWords;
    var h, fence := Last(ss).heap, Fence(0, len == WORDS_2M);
    InitRegular(ss[0], len);
    RunRegular(base, ss, ops, len);
    AllFree(h, 0, len, fence);
    NoneLive(h);
    ClassLarge(len - 4);
    assert h.blocks[2].big == h.blocks[2].big;
    if 8 * (len - 4) >= 16384 {
      assert h.blocks == InitHeap(len).blocks;
      InitLists(len);
    }
  }

  lemma ClassLarge(w: nat)
    ensures 8 * w >= 16384 ==> ClassOf(w) == LARGE
  {
    SizeToIdRange(8 * w);
  }

  lemma InitLists(len: nat)
    requires len >= 6
    ensures InitHeap(len).lists == EMPTY.lists[LARGE := [2]]
  {
    var two: seq<nat> := [2];
    assert two + EMPTY.lists[LARGE] == two;
  }

  lemma NoneLive(h: Heap)
    requires forall p :: !IsLive(h, p)
    ensures LiveWords(h, 0) == 0
  {
    forall x | x in h.blocks ensures h.blocks[x].free {
      assert !IsLive(h, x);
    }
    assert LiveFrom(h, 0, 0) == map[];
  }

  lemma InitRegular(s: Snapshot, len: nat)
    requires len >= 6 && s.heap == InitHeap(len) && s.counter == 0 && 8 * len <= WORD_MODULUS
    ensures Regular(s, len)
  {
    hide Fence;
    NoneLive(s.heap);
  }
}

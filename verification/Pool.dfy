/** pool.cpp: the kernel heap, one pool over one area of words. */
module MemoryPool {
  import opened Basics
  import opened Tags
  import opened Heaps
  import opened Ops
  import opened Reps
  import opened Blocks
  import opened FreeLists
  import opened Carving
  import opened AllocAreas
  import opened Encoding
  import Masks

  // Requests that PADDING does not wrap, and aligned ones that are not negative as a long.
  const MAX_REQUEST: nat := 0xffff_ffff_ffff_fff0
  const MAX_ALIGNED_REQUEST: nat := 0x7fff_ffff_ffff_fff0

  // size_t addition and subtraction
  function Add64(x: nat, y: nat): nat { (x + y) % WORD_MODULUS }

  function Sub64(x: nat, y: nat): nat { (x + WORD_MODULUS - y % WORD_MODULUS) % WORD_MODULUS }

  // A power of two, or zero.
  predicate PowerOfTwo(a: nat) {
    a <= 1 || (a % 2 == 0 && PowerOfTwo(a / 2))
  }

  lemma {:induction false} LowestBit(a: nat)
    requires a > 0
    ensures Masks.And(a, a - 1) == 0 <==> PowerOfTwo(a)
  {
    hide Masks.And;
    Masks.AndStep(a, a - 1);
    if a == 1 {
      Masks.ClearNone(0);
    } else if a % 2 == 0 {
      assert (a - 1) / 2 == a / 2 - 1;
      LowestBit(a / 2);
    } else {
      Masks.AndSelf(a / 2);
    }
  }

  /** The test `align & (align - 1)`, in 64 bits, is 0 exactly for the powers of two and 0. */
  lemma PowerTest(align: nat)
    requires align < WORD_MODULUS
    ensures Masks.And(align, Sub64(align, 1)) == 0 <==> PowerOfTwo(align)
  {
    if align > 0 {
      assert Sub64(align, 1) == align - 1;
      LowestBit(align);
    }
  }

  lemma PowerOf16(a: nat)
    requires PowerOfTwo(a)
    ensures a < 16 || a % 16 == 0
  {
    hide PowerOfTwo;
    if a >= 16 {
      Halve(a);
      Halve(a / 2);
      Halve(a / 2 / 2);
      Halve(a / 2 / 2 / 2);
    }
  }

  lemma Halve(a: nat)
    requires PowerOfTwo(a) && a > 1
    ensures a == 2 * (a / 2) && PowerOfTwo(a / 2)
  {
  }

  lemma PowerFits(a: nat)
    requires PowerOfTwo(a) && a < WORD_MODULUS
    ensures a <= 0x8000_0000_0000_0000
  {
    hide PowerOfTwo, Pow2;
    Powers();
    PowerBelow(a, 63);
  }

  lemma {:induction false} PowerBelow(a: nat, k: nat)
    requires PowerOfTwo(a) && a < 2 * Pow2(k)
    ensures a <= Pow2(k)
  {
    if a > 1 && k > 0 {
      PowerBelow(a / 2, k - 1);
    }
  }

  const EMPTY: Heap := Heap(map[], map[], [[], [], [], [], [], [], [], [], []])

  // The heap of a pool that has just been initialized: one free block on the large list.
  function InitHeap(len: nat): Heap
    requires len >= 6
  {
    Enlist(AddArea(EMPTY, 0, len, 0), 2, LARGE)
  }

  lemma InitHeapWF(len: nat)
    requires 6 <= len < MAX_WORDS && len % 2 == 0
    ensures WF(EMPTY, 0) && Vacant(EMPTY, 0, len) && WF(AddArea(EMPTY, 0, len, 0), 2) && WF(InitHeap(len), 0)
  {
    hide ClassOf, Fence;
    AddAreaWF(EMPTY, 0, len, 0);
    EnlistLargeWF(AddArea(EMPTY, 0, len, 0), 2);
  }

  lemma EmptyRep(m: seq<nat>, heads: seq<nat>)
    requires |heads| == 9 && forall j :: 0 <= j < 9 ==> heads[j] == 0
    ensures Rep(m, heads, EMPTY)
  {
    forall i | 0 <= i < 9 ensures Chain(m, heads[i], EMPTY.lists[i]) {}
  }

  // The part of mpool_init that writes the area and the first list node.
  method FirstBlock(mem: array<nat>, heads: array<nat>)
    requires mem != heads && 6 <= mem.Length < MAX_WORDS && mem.Length % 2 == 0
    requires heads.Length == 9 && forall j :: 0 <= j < 9 ==> heads[j] == 0
    modifies mem, heads
    ensures WF(InitHeap(mem.Length), 0) && Rep(mem[..], heads[..], InitHeap(mem.Length))
  {
    hide WF, Rep, ClassOf, Fence, AreaWords, Undisturbed;
    var len := mem.Length;
    ghost var m := mem[..];
    InitHeapWF(len);
    EmptyRep(m, heads[..]);
    AllocareaInit(mem, 0, len, 0);
    EmptyLaid();
    AddAreaRep(m, mem[..], heads[..], EMPTY, 0, len, 0);
    FreelistPut(mem, heads, AddArea(EMPTY, 0, len, 0), LARGE, 2);
  }

  lemma EmptyLaid()
    ensures Laid(EMPTY) && Homed(EMPTY)
  {
  }

  class Pool {
    var mem: array<nat>
    var base: nat  // byte address of mem[0]
    var allocedSize: nat
    const heads: array<nat>  // freed[0..8] and large_blk
    ghost var heap: Heap

    constructor ()
      ensures fresh(heads) && heads.Length == 9
    {
      mem := new nat[0];
      base := 0;
      allocedSize := 0;
      heads := new nat[9];
      heap := Heap(map[], map[], []);
    }

    ghost predicate Valid()
      reads this, mem, heads
    {
      && mem != heads && heads.Length == 9 && 6 <= mem.Length < MAX_WORDS
      && base % 16 == 0 && 0 < base && base + 8 * mem.Length <= WORD_MODULUS
      && WF(heap, 0) && Rep(mem[..], heads[..], heap)
      && heap.areas == map[0 := Area(mem.Length, Fence(0, mem.Length == WORDS_2M))]
    }

    /** mpool_init on `area`, which lies at byte address `addr` (0 for NULL).  A pool of 32
        bytes is accepted although its one block has no payload: the links of that block
        overwrite the end fence. */
    method Init(area: array<nat>, addr: nat, size: nat) returns (ok: bool)
      requires area != heads && heads.Length == 9
      requires size == 8 * area.Length && size != 16 && area.Length < MAX_WORDS
      requires addr % 16 == 0 && addr + size <= WORD_MODULUS
      modifies this, area, heads
      ensures ok <==> addr != 0 && size != 0 && size % 16 == 0
      ensures ok && size >= 48 ==> Valid() && mem == area && base == addr && allocedSize == 0 && heap == InitHeap(area.Length)
      ensures ok && size < 48 ==> size == 32 && heads[LARGE] == 2 && !AreaBit(area[3])
    {
      hide WF, Rep;
      if addr == 0 || size == 0 || size % 16 != 0 {
        return false;
      }
      mem, base, allocedSize := area, addr, 0;
      var len := size / 8;
      var i := 0;
      while i < 9
        modifies heads
        invariant 0 <= i <= 9 && forall j :: 0 <= j < i ==> heads[j] == 0
      {
        heads[i] := 0;
        i := i + 1;
      }
      if len >= 6 {
        heap := InitHeap(len);
        FirstBlock(area, heads);
      } else {
        AllocareaInit(area, 0, len, 0);
        area[2], area[3] := heads[LARGE], 0;
        heads[LARGE] := 2;
      }
      return true;
    }

    /** mpool_alloc, with no growth callback: the abstract allocation, and the new block's
        size added to the counter.  No live payload changes. */
    method Alloc(size: nat) returns (ptr: nat)
      requires Valid() && size <= MAX_REQUEST
      modifies this`allocedSize, this`heap, mem, heads
      ensures Valid() && (heap, ptr) == Ops.Alloc(old(heap), base, Padded(size), 0)
      ensures Earliest(old(heap), base, Padded(size), 0, ptr)
      ensures ptr != 0 ==> ptr in heap.blocks
      ensures allocedSize == if ptr == 0 then old(allocedSize) else Add64(old(allocedSize), 8 * heap.blocks[ptr].w)
      ensures Undisturbed(old(mem[..]), mem[..], old(heap), 0)
    {
      hide WF, Rep, Undisturbed, Cuttable, CutsFresh, Search, Skip, Ops.Alloc, CarveOut, Take, LiveSub, Padded, Earliest;
      var n := Padded(size);
      RequestOk(base, size, 0);
      NoSkip(heap, base, n);
      AllocCorrect(heap, base, n, 0);
      var p := Match(mem, heads, heap, base, n, 0);
      if p == 0 {
        AllocNone(heap, base, n, 0);
        return 0;
      }
      AllocChosen(heap, base, n, 0);
      ghost var m1 := mem[..];
      var w;
      ptr, w := Carve(mem, heads, Take(heap, p), p, 0, n);
      UndisturbedThrough(old(mem[..]), m1, mem[..], heap, Take(heap, p), 0, 0);
      allocedSize := Add64(allocedSize, 8 * w);
      heap := Ops.Alloc(heap, base, n, 0).0;
    }

    /** mpool_aligned_alloc, with no growth callback.  What it returns is a live block of a
        well-formed heap exactly if the block found does not start 16 bytes in front of its
        aligned payload (see Separable). */
    method AlignedAlloc(size: nat, align: nat) returns (ptr: nat)
      requires Valid() && size <= MAX_REQUEST && base + 8 * mem.Length + align <= WORD_MODULUS
      requires align >= 16 ==> size <= MAX_ALIGNED_REQUEST
      modifies this`allocedSize, this`heap, mem, heads
      ensures !PowerOfTwo(align) ==> Valid() && ptr == 0 && heap == old(heap) && allocedSize == old(allocedSize)
      ensures PowerOfTwo(align) ==> Request(base, Padded(size), align)
      ensures PowerOfTwo(align) && old(Separable(heap, base, Padded(size), align)) ==>
                && Valid() && (heap, ptr) == Ops.Alloc(old(heap), base, Padded(size), align)
                && (ptr != 0 ==> ptr in heap.blocks)
                && allocedSize == if ptr == 0 then old(allocedSize) else Add64(old(allocedSize), 8 * heap.blocks[ptr].w)
      ensures PowerOfTwo(align) && ptr != 0 ==>
                (old(Separable(heap, base, Padded(size), align)) <==> Represented(mem[..], ptr))
      ensures PowerOfTwo(align) && ptr == 0 ==> old(Separable(heap, base, Padded(size), align))
      ensures !PowerOfTwo(align) || old(Separable(heap, base, Padded(size), align)) ==>
                Undisturbed(old(mem[..]), mem[..], old(heap), 0)
    {
      hide WF, Undisturbed, Cuttable, CutsFresh, Search, Skip, Ops.Alloc, CarveOut, Take, LiveSub, Padded, Tagged, Fenced, Linked,
           Represented, Comparable;
      SelfUndisturbed(mem[..], heap, 0);
      PowerTest(align);
      if Masks.And(align, Sub64(align, 1)) != 0 {
        return 0;
      }
      PowerOf16(align);
      PowerFits(align);
      RequestOk(base, size, align);
      ghost var n0 := Padded(size);
      if align < 16 {
        RequestOk(base, size, 0);
        SmallAlign(heap, base, n0, align);
        ptr := Alloc(size);
        if ptr != 0 {
          Allocated(old(heap), base, n0, align);
          IsRepresented(mem[..], heads[..], heap, ptr);
        }
        return;
      }
      var n := Padded(size);
      AllocCorrectIf(heap, base, n, align);
      var p := Match(mem, heads, heap, base, n, align);
      if p == 0 {
        AllocNone(heap, base, n, align);
        return 0;
      }
      ghost var m1 := mem[..];
      var w;
      if Skip(base, p, align) == 2 {
        SixteenReady(heap, base, n, align);
        ptr, w := CutSixteen(mem, heads, Take(heap, p), p, n);
        allocedSize := Add64(allocedSize, 8 * w);
        return;
      }
      AllocChosen(heap, base, n, align);
      ptr, w := Carve(mem, heads, Take(heap, p), p, Skip(base, p, align), n);
      UndisturbedThrough(old(mem[..]), m1, mem[..], heap, Take(heap, p), 0, 0);
      allocedSize := Add64(allocedSize, 8 * w);
      heap := Ops.Alloc(heap, base, n, align).0;
      Allocated(old(heap), base, n, align);
      IsRepresented(mem[..], heads[..], heap, ptr);
    }

    /** mpool_free: the null pointer is ignored; a live block is merged with its free
        neighbours and listed, and its size leaves the counter. */
    method Free(ptr: nat)
      requires Valid() && (ptr == 0 || IsLive(heap, ptr))
      modifies this`allocedSize, this`heap, mem, heads
      ensures Valid()
      ensures ptr == 0 ==> heap == old(heap) && allocedSize == old(allocedSize) && mem[..] == old(mem[..])
      ensures ptr != 0 ==> heap == Ops.Free(old(heap), ptr) && allocedSize == Sub64(old(allocedSize), 8 * old(heap).blocks[ptr].w)
      ensures ptr != 0 ==> Undisturbed(old(mem[..]), mem[..], old(heap), ptr)
    {
      hide WF, Undisturbed, Ops.Free, Fenced, Linked;
      if ptr == 0 {
        return;
      }
      NextTag(mem[..], heap, ptr);
      FreeCorrect(heap, ptr);
      allocedSize := Sub64(allocedSize, 8 * BlkSize(mem, ptr));
      Release(mem, heads, heap, ptr);
      heap := Ops.Free(heap, ptr);
    }

    /** mpool_realloc.  `fault` is the copy through the null pointer, which happens when the
        block must move and no free block is large enough; nothing has changed then.  On all
        three paths a successful call keeps the first min(old, new) payload words.  The
        in-place paths leave the counter alone. */
    method Realloc(ptr: nat, newsize: nat) returns (r: nat, fault: bool)
      requires Valid() && newsize <= MAX_REQUEST && (ptr == 0 || IsLive(heap, ptr))
      modifies this`allocedSize, this`heap, mem, heads
      ensures Valid()
      ensures ptr == 0 ==> !fault && (heap, r) == Ops.Alloc(old(heap), base, Padded(newsize), 0)
      ensures ptr != 0 ==> Request(base, Padded(newsize), 0) && (heap, r) == Ops.Realloc(old(heap), base, ptr, Padded(newsize))
      ensures ptr != 0 ==> (fault <==> r == 0) && Undisturbed(old(mem[..]), mem[..], old(heap), ptr)
      ensures ptr != 0 && !fault ==>
                r in heap.blocks && PayloadMoved(old(mem[..]), mem[..], ptr, r, Min(old(heap).blocks[ptr].w, heap.blocks[r].w))
      ensures ptr != 0 && (fault || r == ptr) ==> allocedSize == old(allocedSize)
      ensures ptr != 0 && !fault && r != ptr ==>
                allocedSize == Sub64(Add64(old(allocedSize), 8 * heap.blocks[r].w), 8 * old(heap).blocks[ptr].w)
    {
      hide WF, Laid, Homed, Undisturbed, Ops.Free, Ops.Alloc, Ops.Realloc, Fenced, Linked, Padded, ClassOf, Trim,
           PayloadMoved;
      fault := false;
      if ptr == 0 {
        r := Alloc(newsize);
        return;
      }
      var n := Padded(newsize);
      RequestOk(base, newsize, 0);
      ghost var m := mem[..];
      LiveLaid(heap, ptr);
      NextTag(m, heap, ptr);
      var size := BlkSize(mem, ptr);
      if size >= n {
        ReallocShrink(heap, base, ptr, n);
        TrySplitAndFree(mem, heads, heap, ptr, n, 0);
        heap := Trim(heap, ptr, n);
        Staying(m, mem[..], ptr, heap.blocks[ptr].w);
        return ptr, false;
      }
      var grown := ReallocIntoNext(ptr, n);
      if grown {
        return ptr, false;
      }
      r := ReallocElsewhere(ptr, newsize);
      fault := r == 0;
    }

    // The second path of mpool_realloc: absorb the free successor if that is enough.
    method ReallocIntoNext(ptr: nat, n: nat) returns (grown: bool)
      requires Valid() && Request(base, n, 0) && IsLive(heap, ptr) && heap.blocks[ptr].w < n && Laid(heap)
      modifies this`heap, mem, heads
      ensures Valid() && grown == old(GrowsInPlace(heap, ptr, n))
      ensures !grown ==> heap == old(heap) && mem[..] == old(mem[..]) && heads[..] == old(heads[..])
      ensures grown ==> (heap, ptr) == Ops.Realloc(old(heap), base, ptr, n) && Undisturbed(old(mem[..]), mem[..], old(heap), ptr)
      ensures grown ==> ptr != 0 && ptr in heap.blocks && heap.blocks[ptr].w >= n &&
                        PayloadMoved(old(mem[..]), mem[..], ptr, ptr, old(heap).blocks[ptr].w)
    {
      hide WF, Laid, Homed, Undisturbed, Ops.Realloc, Linked, ClassOf, MergeNext, Trim, LiveSub, PayloadSame,
           PayloadMoved, Absorbable;
      ghost var h := heap;
      ghost var m := mem[..];
      LiveLaid(h, ptr);
      NextWord(m, h, ptr);
      var size := BlkSize(mem, ptr);
      var next := BlkNext(mem, h, ptr);
      if next == 0 {
        return false;
      }
      NextTag(m, h, next);
      if !FreeBit(mem[next - 1]) {
        return false;
      }
      var total := size + 2 + BlkSize(mem, next);
      if total < n {
        return false;
      }
      ReallocGrow(h, base, ptr, n);
      ghost var g := MergeNext(h, ptr);
      BlkMergeNext(mem, heads, h, ptr);
      ghost var m1 := mem[..];
      TrySplitAndFree(mem, heads, g, ptr, n, 0);
      heap := Trim(g, ptr, n);
      GrowUndisturbed(m, m1, mem[..], h, g, ptr, size, heap.blocks[ptr].w);
      return true;
    }

    // The third path of mpool_realloc: allocate, copy, free.
    method ReallocElsewhere(ptr: nat, newsize: nat) returns (r: nat)
      requires Valid() && newsize <= MAX_REQUEST && Request(base, Padded(newsize), 0) && IsLive(heap, ptr) && Laid(heap)
      requires heap.blocks[ptr].w < Padded(newsize) && !GrowsInPlace(heap, ptr, Padded(newsize))
      modifies this`allocedSize, this`heap, mem, heads
      ensures Valid() && (heap, r) == Ops.Realloc(old(heap), base, ptr, Padded(newsize))
      ensures Undisturbed(old(mem[..]), mem[..], old(heap), ptr)
      ensures r == 0 ==> allocedSize == old(allocedSize)
      ensures r != 0 ==> r != ptr && r in heap.blocks && heap.blocks[r].w >= Padded(newsize) &&
                         PayloadMoved(old(mem[..]), mem[..], ptr, r, old(heap).blocks[ptr].w)
      ensures r != 0 ==> allocedSize == Sub64(Add64(old(allocedSize), 8 * heap.blocks[r].w), 8 * old(heap).blocks[ptr].w)
    {
      hide WF, Laid, Homed, Undisturbed, Ops.Realloc, Linked, ClassOf, LiveSub, PayloadMoved, Padded, GrowsInPlace;
      ghost var h := heap;
      ghost var m := mem[..];
      var n := Padded(newsize);
      LiveLaid(h, ptr);
      NextTag(m, h, ptr);
      var size := BlkSize(mem, ptr);
      ReallocMove(h, base, ptr, n, newsize);
      r := Alloc(8 * n);
      ghost var m1, h1 := mem[..], heap;
      UndisturbedZero(m, m1, h, ptr);
      if r == 0 {
        return;
      }
      CopyPayload(mem, heads[..], heap, r, ptr, size);
      ghost var m2 := mem[..];
      Free(ptr);
      MoveUndisturbed(m, m1, m2, mem[..], h, h1, ptr, r, size);
    }
  }

  lemma RequestOk(base: nat, size: nat, align: nat)
    requires base % 16 == 0 && size <= MAX_REQUEST
    requires align < 16 || (align % 16 == 0 && align <= 0x8000_0000_0000_0000 && size <= MAX_ALIGNED_REQUEST)
    ensures Request(base, Padded(size), align)
  {
    PaddedHolds(size);
  }

  lemma AllocCorrectIf(h: Heap, base: nat, n: nat, align: nat)
    requires WF(h, 0) && Request(base, n, align)
    ensures Separable(h, base, n, align) ==> WF(Ops.Alloc(h, base, n, align).0, 0) && Ops.Alloc(h, base, n, align).0.areas == h.areas
    ensures Separable(h, base, n, align) <==> Search(h, base, n, align) == 0 || Skip(base, Search(h, base, n, align), align) != 2
  {
    hide WF, Search, Skip, Ops.Alloc, Fits, OthersKept;
    if Separable(h, base, n, align) {
      AllocCorrect(h, base, n, align);
    }
  }

  lemma Allocated(h: Heap, base: nat, n: nat, align: nat)
    requires WF(h, 0) && Request(base, n, align) && Separable(h, base, n, align)
    ensures var (g, r) := Ops.Alloc(h, base, n, align); WF(g, 0) && (r != 0 ==> IsLive(g, r))
  {
    hide WF, Search, Skip, Ops.Alloc, Fits, OthersKept, Separable, Comparable;
    AllocCorrect(h, base, n, align);
  }

  // The block a search finds 16 bytes short of its payload has room for the cut.
  lemma SixteenReady(h: Heap, base: nat, n: nat, align: nat)
    requires WF(h, 0) && Request(base, n, align) && !Separable(h, base, n, align)
    ensures var p := Search(h, base, n, align);
            p != 0 && p in h.blocks && h.blocks[p].home < |h.lists| && h.blocks[p].w >= 4 &&
            WF(Take(h, p), p) && InHand(Take(h, p), p, p) && Take(h, p).blocks[p].w == h.blocks[p].w
  {
    hide Laid, Listed, ClassOf, Skip, Search;
    SearchComplete(h, base, n, align);
    NineLists(h);
    TakeWF(h, Search(h, base, n, align));
  }

  lemma NoSkip(h: Heap, base: nat, n: nat)
    ensures Separable(h, base, n, 0)
  {
  }

  lemma AllocNone(h: Heap, base: nat, n: nat, align: nat)
    requires WF(h, 0) && Request(base, n, align) && Search(h, base, n, align) == 0
    ensures Ops.Alloc(h, base, n, align) == (h, 0)
  {
  }

  lemma AllocChosen(h: Heap, base: nat, n: nat, align: nat)
    requires WF(h, 0) && Request(base, n, align) && Separable(h, base, n, align) && Search(h, base, n, align) != 0
    ensures var p := Search(h, base, n, align); var off := Skip(base, p, align);
            p in h.blocks && h.blocks[p].home < |h.lists| && LiveSub(h, Take(h, p), 0) &&
            Cuttable(Take(h, p), p, off, n) && CutsFresh(Take(h, p), p, off, n) &&
            Ops.Alloc(h, base, n, align) == (CarveOut(Take(h, p), p, off, n), p + off)
    ensures align < 16 ==> Skip(base, Search(h, base, n, align), align) == 0
  {
    hide WF, ClassOf, Search, Cuttable, CarveOut;
    ChosenCuttable(h, base, n, align);
  }

  lemma {:induction false} SmallAlignFit(h: Heap, base: nat, l: seq<nat>, n: nat, align: nat)
    requires align < 16
    ensures FirstFit(h, base, l, n, align) == FirstFit(h, base, l, n, 0)
  {
    if l != [] {
      SmallAlignFit(h, base, l[1..], n, align);
    }
  }

  lemma {:induction false} SmallAlignSearch(h: Heap, base: nat, id: nat, n: nat, align: nat)
    requires align < 16
    ensures SearchFrom(h, base, id, n, align) == SearchFrom(h, base, id, n, 0)
    decreases |h.lists| - id
  {
    if id < |h.lists| {
      SmallAlignFit(h, base, h.lists[id], n, align);
      SmallAlignSearch(h, base, id + 1, n, align);
    }
  }

  // Alignments below two words are no alignment.
  lemma SmallAlign(h: Heap, base: nat, n: nat, align: nat)
    requires WF(h, 0) && Request(base, n, 0) && align < 16
    ensures Separable(h, base, n, align) && Request(base, n, align)
    ensures Ops.Alloc(h, base, n, align) == Ops.Alloc(h, base, n, 0)
  {
    hide WF, ClassOf, CarveOut;
    SmallAlignSearch(h, base, ClassOf(n), n, align);
  }

  // The first k payload words of p are now those of r.
  ghost predicate PayloadMoved(m0: seq<nat>, m1: seq<nat>, p: nat, r: nat, k: nat) {
    p + k <= |m0| && r + k <= |m1| && m1[r..r + k] == m0[p..p + k]
  }

  lemma LiveLaid(h: Heap, p: nat)
    requires WF(h, 0) && IsLive(h, p)
    ensures Laid(h) && h.blocks[p].home == NOWHERE && InHand(h, p, 0) && |h.lists| == 9 && 0 !in h.blocks
  {
    hide Laid, ClassOf;
    NineLists(h);
  }

  lemma Staying(m0: seq<nat>, m1: seq<nat>, p: nat, w: nat)
    requires PayloadSame(m0, m1, p, w)
    ensures PayloadMoved(m0, m1, p, p, w)
  {
  }

  lemma ReallocShrink(h: Heap, base: nat, p: nat, n: nat)
    requires WF(h, 0) && IsLive(h, p) && Request(base, n, 0) && h.blocks[p].w >= n
    ensures |h.lists| == 9 && Ops.Realloc(h, base, p, n) == (Trim(h, p, n), p) && p != 0
    ensures var g := Trim(h, p, n); WF(g, 0) && g.areas == h.areas && p in g.blocks && g.blocks[p].w <= h.blocks[p].w
  {
    hide Laid, Homed, Listed, ClassOf, Trim;
    LiveLaid(h, p);
    LiveNonzero(h, p);
    TrimLive(h, p, n);
  }

  lemma ReallocGrow(h: Heap, base: nat, p: nat, n: nat)
    requires WF(h, 0) && IsLive(h, p) && Request(base, n, 0) && h.blocks[p].w < n && Laid(h) && GrowsInPlace(h, p, n)
    ensures MergesNext(h, p) && Absorbable(h, p, Next(h, p), p) && p != 0
    ensures var g := MergeNext(h, p);
            WF(g, 0) && IsLive(g, p) && InHand(g, p, 0) && n <= g.blocks[p].w && |g.lists| == 9 && g.areas == h.areas &&
            LiveSub(h, g, p) && Ops.Realloc(h, base, p, n) == (Trim(g, p, n), p)
    ensures var g := Trim(MergeNext(h, p), p, n); WF(g, 0) && g.areas == h.areas && p in g.blocks && g.blocks[p].w >= n
  {
    hide Homed, Listed, ClassOf, Trim, MergeNext, Chained, Apart, AreasOk;
    NextAbsorbable(h, p);
    MergeNextLive(h, p);
    var g := MergeNext(h, p);
    LiveLaid(g, p);
    LiveNonzero(h, p);
    TrimLive(g, p, n);
    forall q | IsLive(h, q) && q != p ensures IsLive(g, q) && g.blocks[q].w == h.blocks[q].w {
      assert SameBlock(h, g, q);
    }
  }

  lemma GrowUndisturbed(m: seq<nat>, m1: seq<nat>, m2: seq<nat>, h: Heap, g: Heap, p: nat, w: nat, w2: nat)
    requires Undisturbed(m, m1, h, 0) && Undisturbed(m1, m2, g, p) && LiveSub(h, g, p)
    requires IsLive(h, p) && p != 0 && w == h.blocks[p].w <= w2 && PayloadSame(m1, m2, p, w2) && 0 !in h.blocks
    ensures Undisturbed(m, m2, h, p) && PayloadMoved(m, m2, p, p, w)
  {
    UndisturbedAt(m, m1, h, 0, p);
    UndisturbedZero(m, m1, h, p);
    UndisturbedThrough(m, m1, m2, h, g, p, p);
  }

  lemma ReallocMove(h: Heap, base: nat, p: nat, n: nat, newsize: nat)
    requires WF(h, 0) && IsLive(h, p) && Request(base, n, 0) && h.blocks[p].w < n && Laid(h) && !GrowsInPlace(h, p, n)
    requires n == Padded(newsize) && newsize <= MAX_REQUEST
    ensures Padded(8 * n) == n && 8 * n <= MAX_REQUEST && p != 0
    ensures var (g, q) := Ops.Alloc(h, base, n, 0);
            if q == 0 then g == h && Ops.Realloc(h, base, p, n) == (h, 0)
            else WF(g, 0) && IsLive(g, p) && IsLive(g, q) && p != q && g.blocks[p].w == h.blocks[p].w && n <= g.blocks[q].w &&
                 !IsLive(h, q) && LiveSub(h, g, 0) && Ops.Realloc(h, base, p, n) == (Ops.Free(g, p), q) &&
                 WF(Ops.Free(g, p), 0) && IsLive(Ops.Free(g, p), q) && Ops.Free(g, p).blocks[q].w == g.blocks[q].w
  {
    hide Homed, Listed, ClassOf, Ops.Alloc, Ops.Free, Sized, Chained, Apart, AreasOk;
    PaddedAgain(newsize);
    LiveNonzero(h, p);
    AllocCorrect(h, base, n, 0);
    var (g, q) := Ops.Alloc(h, base, n, 0);
    if q != 0 {
      assert SameBlock(h, g, p);
      FreeCorrect(g, p);
      assert SameBlock(g, Ops.Free(g, p), q);
      forall x | IsLive(h, x) ensures IsLive(g, x) && g.blocks[x].w == h.blocks[x].w {
        assert SameBlock(h, g, x);
      }
    }
  }

  lemma PaddedAgain(size: nat)
    requires size <= MAX_REQUEST
    ensures Padded(8 * Padded(size)) == Padded(size) && 8 * Padded(size) <= MAX_REQUEST
  {
    PaddedHolds(size);
    if size > 0 {
      var k := (size + 15) / 16;
      assert Padded(size) == 2 * k;
      assert 8 * Padded(size) == 16 * k;
    }
  }

  lemma MoveUndisturbed(m: seq<nat>, m1: seq<nat>, m2: seq<nat>, m3: seq<nat>, h: Heap, g: Heap, p: nat, q: nat, w: nat)
    requires Undisturbed(m, m1, h, 0) && Undisturbed(m1, m2, g, q) && Undisturbed(m2, m3, g, p)
    requires IsLive(h, p) && p != 0 && !IsLive(h, q) && LiveSub(h, g, 0) && 0 !in h.blocks
    requires w == h.blocks[p].w && IsLive(g, q) && p != q && w <= g.blocks[q].w
    requires q + w <= |m2| && p + w <= |m1| && m2[q..q + w] == m1[p..p + w]
    ensures Undisturbed(m, m3, h, p) && PayloadMoved(m, m3, p, q, w)
  {
    UndisturbedAt(m, m1, h, 0, p);
    UndisturbedAt(m2, m3, g, p, q);
    assert m3[q..q + w] == m2[q..q + w] && m1[p..p + w] == m[p..p + w];
    UndisturbedZero(m, m1, h, p);
    LiveSubWeaken(h, g, p);
    UndisturbedThrough(m, m1, m2, h, g, p, q);
    UndisturbedThrough(m, m2, m3, h, g, p, p);
  }
}

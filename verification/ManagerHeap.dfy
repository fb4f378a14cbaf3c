/** What mman.cpp adds to the heap: areas of 4 KiB and 2 MiB that come and go, each sub-area
    with its descriptor in its first block. */
module ManagerHeaps {
  import opened Basics
  import opened Tags
  import opened Heaps
  import opened Ops
  import opened Reps
  import opened FreeLists
  import opened AllocAreas
  import opened Invariants
  import opened Orders
  import Masks

  // Stands for the address of man->main, which lies outside the managed words.
  const MAIN: nat := 1
  // PADDING(sizeof(struct mman_pool)) in words
  const DESC: nat := 4

  /** `main` is the main area, `chain` the sub-areas in the order of the `next` links. */
  datatype Man = Man(heap: Heap, main: nat, chain: seq<nat>)

  // The descriptor pointer in the fences of area a.
  function DescOf(man: Man, a: nat): nat { if a == man.main then MAIN else a + 2 }

  ghost predicate AreaKind(man: Man, a: nat)
    requires a in man.heap.areas
  {
    var area := man.heap.areas[a];
    (area.len == WORDS_4K || area.len == WORDS_2M) && a % area.len == 0 && area.fence == Fence(DescOf(man, a), area.len == WORDS_2M)
  }

  ghost predicate Kinds(man: Man) {
    forall a {:trigger AreaKind(man, a)} :: a in man.heap.areas ==> AreaKind(man, a)
  }

  // The chain lists each sub-area once, and each has its descriptor block.
  ghost predicate Registered(man: Man) {
    && NoDup(man.chain) && man.main !in man.chain && man.main in man.heap.areas
    && (forall a {:trigger a in man.heap.areas} {:trigger a in man.chain} :: a in man.heap.areas <==> a == man.main || a in man.chain)
    && (forall a {:trigger a in man.chain} :: a in man.chain ==> IsLive(man.heap, a + 2) && man.heap.blocks[a + 2].w == DESC)
  }

  // The invariant of the manager's heap over all runs.
  ghost predicate ManOk(man: Man) {
    WF(man.heap, 0) && Coalesced(man.heap) && Flagged(man.heap) && Kinds(man) && Registered(man)
  }

  // A block handed out to a caller, not a descriptor.
  ghost predicate IsUser(man: Man, p: nat) {
    IsLive(man.heap, p) && (man.heap.blocks[p].area != man.main ==> p != man.heap.blocks[p].area + 2)
  }

  // Words of the user blocks of area a.
  ghost function UserWords(man: Man, a: nat): int {
    LiveWords(man.heap, a) - if a == man.main then 0 else DESC
  }

  // ----- finding the descriptor of a block

  // blk_areaptr
  function AreaPtr(p: nat, big: bool): nat {
    if big then p - p % WORDS_2M else p - p % WORDS_4K
  }

  // The masks of blk_areaptr on byte addresses.
  lemma AreaMask(p: nat)
    ensures 8 * AreaPtr(p, false) == Masks.Clear(8 * p, 4096 - 1) && 8 * AreaPtr(p, true) == Masks.Clear(8 * p, 2097152 - 1)
  {
    hide Masks.Clear, Pow2;
    Powers();
    Masks.RoundDown(12, 4096, p / 512, 8 * (p % 512));
    Masks.RoundDown(21, 2097152, p / 262144, 8 * (p % 262144));
  }

  /** Masking a block's address with the area size its SIZE_FLAG names gives its area. */
  lemma AreaPtrRight(man: Man, p: nat)
    requires ManOk(man) && p in man.heap.blocks
    ensures man.heap.blocks[p].area in man.heap.areas
    ensures AreaPtr(p, man.heap.blocks[p].big) == man.heap.blocks[p].area
  {
    hide Homed, Listed, ClassOf, Chained, Apart, AreasOk, Coalesced, Fence;
    var h := man.heap;
    var a := h.blocks[p].area;
    assert BlockOk(h, p) && AreaKind(man, a);
    MaskDown(p, a, h.areas[a].len);
  }

  lemma MaskDown(p: nat, a: nat, len: nat)
    requires (len == WORDS_4K || len == WORDS_2M) && a % len == 0 && a <= p < a + len
    ensures p - p % len == a
  {
    if len == WORDS_4K {
      assert a == 512 * (a / 512);
    } else {
      assert a == 262144 * (a / 262144);
    }
  }

  // ----- mman_reqmem

  // The size of area requested for a block of n words and an alignment in bytes.
  function AreaFor(n: nat, align: nat): nat {
    if 8 * n + align + 56 > 4096 then WORDS_2M else WORDS_4K
  }

  // The two sizes of an area in bytes
  predicate AreaSize(bytes: int) { bytes == 4096 || bytes == 2097152 }

  /** The smaller area size that holds a request of `bytes` bytes, its alignment, the descriptor
      (24 bytes) and four words. */
  ghost predicate LeastArea(size: int, bytes: nat, align: nat) {
    var need := bytes + align + 24 + 4 * 8;
    AreaSize(size) && need <= size && forall s :: AreaSize(s) && need <= s ==> size <= s
  }

  lemma AreaForLeast(n: nat, align: nat)
    requires SmallRequest(n, align)
    ensures LeastArea(8 * AreaFor(n, align), 8 * n, align)
  {
  }

  // The fresh area: its descriptor block, and the rest as a free block that is on no list.
  function Grow(h: Heap, a: nat, len: nat): Heap
    requires len >= 16
  {
    SetFreed(Split(AddArea(h, a, len, a + 2), a + 2, DESC), a + 8)
  }

  lemma GrowWF(h: Heap, a: nat, len: nat)
    requires WF(h, 0) && Vacant(h, a, len) && 16 <= len < MAX_WORDS && len % 2 == 0 && a % 2 == 0
    ensures WF(Grow(h, a, len), a + 8) && InHand(Grow(h, a, len), a + 8, a + 8) && a !in h.areas && a + 2 !in h.blocks && a + 8 !in h.blocks
    ensures WF(AddArea(h, a, len, a + 2), a + 2) && WF(Split(AddArea(h, a, len, a + 2), a + 2, DESC), 0)
  {
    hide Laid, Homed, Listed, ClassOf, Fence;
    AddAreaWF(h, a, len, a + 2);
    AddAreaFresh(h, a, len);
    var g := AddArea(h, a, len, a + 2);
    SplitWF(g, a + 2, DESC, a + 2);
    SplitFresh(g, a + 2);
    SetFreedWF(Split(g, a + 2, DESC), a + 8);
  }

  lemma SplitFresh(g: Heap, p: nat)
    requires WF(g, p) && p in g.blocks && g.blocks[p].w >= 8
    ensures p + 6 !in g.blocks
  {
    hide Homed, Listed, ClassOf;
    assert p + 6 in g.blocks ==> Clear(g, p, p + 6);
  }

  // What Grow adds: a live descriptor and a free rest, nothing else.
  lemma GrowShape(h: Heap, a: nat, len: nat)
    requires len >= 16 && a !in h.areas && a + 2 !in h.blocks && a + 8 !in h.blocks
    ensures var g := Grow(h, a, len);
            && g.areas == h.areas[a := Area(len, Fence(a + 2, len == WORDS_2M))] && g.lists == h.lists
            && g.blocks == h.blocks[a + 2 := Blk(DESC, false, len == WORDS_2M, a, NOWHERE)]
                                   [a + 8 := Blk(len - 10, true, len == WORDS_2M, a, NOWHERE)]
  {
    hide Fence;
  }

  lemma GrowCoalesced(h: Heap, a: nat, len: nat)
    requires Laid(h) && Vacant(h, a, len) && len >= 16 && Coalesced(h) && a !in h.areas && a + 2 !in h.blocks && a + 8 !in h.blocks
    ensures Coalesced(Grow(h, a, len))
  {
    hide Chained, Apart, AreasOk, Grow, Vacant, Fence;
    GrowShape(h, a, len);
    var g := Grow(h, a, len);
    forall x: nat ensures !FreePair(g, x) {
      if x in h.blocks {
        VacantBlocks(h, a, len, x);
        assert !FreePair(h, x);
      }
      if a + len in h.blocks {
        assert BlockOk(h, a + len);
        VacantBlocks(h, a, len, a + len);
      }
    }
  }

  lemma GrowFlagged(h: Heap, a: nat, len: nat)
    requires Sized(h) && len >= 16 && Flagged(h) && a !in h.areas && a + 2 !in h.blocks && a + 8 !in h.blocks
    ensures Flagged(Grow(h, a, len))
  {
    hide Grow, Fence;
    GrowShape(h, a, len);
    var g := Grow(h, a, len);
    forall x: nat | x in g.blocks && g.blocks[x].area in g.areas
      ensures g.blocks[x].big == (g.areas[g.blocks[x].area].len == WORDS_2M) {
      if x in h.blocks {
        assert BlockOk(h, x) && h.blocks[x].big == h.blocks[x].big;
      }
    }
  }

  lemma GrowLive(h: Heap, a: nat, len: nat, b: nat)
    requires Sized(h) && len >= 16 && a !in h.areas && a + 2 !in h.blocks && a + 8 !in h.blocks
    ensures LiveWords(Grow(h, a, len), b) == if b == a then DESC else LiveWords(h, b)
  {
    hide Grow, Fence, Total;
    GrowShape(h, a, len);
    var g := Grow(h, a, len);
    if b == a {
      forall x | x in h.blocks ensures h.blocks[x].area != a {
        assert BlockOk(h, x);
      }
      var none: map<nat, nat> := map[];
      assert LiveFrom(g, a, 0) == none[a + 2 := DESC];
      TotalAdd(none, a + 2, DESC);
      TotalEmpty();
    } else {
      assert LiveFrom(g, b, 0) == LiveFrom(h, b, 0);
    }
  }

  // The blocks that were live before stay so, next to the new descriptor.
  lemma GrowKeeps(h: Heap, a: nat, len: nat, x: nat)
    requires len >= 16 && a !in h.areas && a + 2 !in h.blocks && a + 8 !in h.blocks
    ensures x in h.blocks ==> SameBlock(h, Grow(h, a, len), x)
    ensures IsLive(Grow(h, a, len), x) <==> IsLive(h, x) || x == a + 2
  {
    hide Grow, Fence;
    GrowShape(h, a, len);
  }

  // ----- an allocation of n words

  /** What cb_reqmem promises for a request: nothing (0), or the start of an unused range of
      the requested size, aligned to it. */
  ghost predicate ReplyOk(h: Heap, n: nat, align: nat, reply: nat) {
    reply != 0 ==> Vacant(h, reply, AreaFor(n, align)) && reply % AreaFor(n, align) == 0
  }

  /** The one request a fresh area is too small for: see FreshFits. */
  predicate Overdrawn(n: nat, align: nat) {
    align == 0 && 8 * n == 4032
  }

  /** A new area is asked for, and the request does not fit in it. */
  ghost predicate Outgrown(h: Heap, n: nat, align: nat, reply: nat) {
    Search(h, 0, n, align) == 0 && reply != 0 && Overdrawn(n, align)
  }

  // The largest request mman_alloc does not treat as a large one.
  const MAX_SMALL: nat := 16368

  // An alignment below two words asks for nothing.
  function AlignOf(align: nat): nat { if align < 16 then 0 else align }

  ghost predicate SmallRequest(n: nat, align: nat) {
    2 <= n < 2048 && n % 2 == 0 &&
    align in {0, 16, 32, 64, 128, 256, 512, 1024, 2048, 4096, 8192}
  }

  /** The block of a fresh area is 64 bytes past an area boundary, so its aligned payload is 0
      or at least 64 bytes away.  The reserve mman_reqmem budgets is 56 bytes, but a fresh area
      uses 80: the request fits exactly if it is not a plain one of 4032 bytes. */
  lemma FreshFits(n: nat, align: nat, a: nat)
    requires SmallRequest(n, align) && a % AreaFor(n, align) == 0
    ensures Skip(0, a + 8, align) == (if align <= 64 then 0 else align / 8 - 8)
    ensures n + Skip(0, a + 8, align) <= AreaFor(n, align) - 10 <==> !Overdrawn(n, align)
  {
    var len := AreaFor(n, align);
    var k := a / len;
    assert a == len * k;
    if len == WORDS_4K {
      FreshSkip(512 * k, align);
    } else {
      var j := 256 * k;
      assert a == 1024 * j;
      FreshSkipBig(j, align);
    }
  }

  lemma FreshSkip(a: nat, align: nat)
    requires a % 512 == 0 && align in {0, 16, 32, 64, 128, 256, 512, 1024, 2048, 4096}
    ensures Skip(0, a + 8, align) == (if align <= 64 then 0 else align / 8 - 8)
  {
    var k := a / 512;
    assert a == 512 * k;
    if align == 16 { SkipFrom64(a, align, 256 * k); }
    else if align == 32 { SkipFrom64(a, align, 128 * k); }
    else if align == 64 { SkipFrom64(a, align, 64 * k); }
    else if align == 128 { SkipFrom64(a, align, 32 * k); }
    else if align == 256 { SkipFrom64(a, align, 16 * k); }
    else if align == 512 { SkipFrom64(a, align, 8 * k); }
    else if align == 1024 { SkipFrom64(a, align, 4 * k); }
    else if align == 2048 { SkipFrom64(a, align, 2 * k); }
    else if align == 4096 { SkipFrom64(a, align, k); }
  }

  lemma FreshSkipBig(j: nat, align: nat)
    requires align in {0, 16, 32, 64, 128, 256, 512, 1024, 2048, 4096, 8192}
    ensures Skip(0, 1024 * j + 8, align) == (if align <= 64 then 0 else align / 8 - 8)
  {
    if align == 8192 {
      SkipFrom64(1024 * j, align, j);
    } else {
      FreshSkip(1024 * j, align);
    }
  }

  // The gap from 64 bytes past a multiple of align.
  lemma SkipFrom64(a: nat, align: nat, t: nat)
    requires align in {16, 32, 64, 128, 256, 512, 1024, 2048, 4096, 8192} && 8 * a == align * t
    ensures Skip(0, a + 8, align) == if align <= 64 then 0 else align / 8 - 8
  {
    hide Skip, PadUp;
    UpFrom64(8 * a, align, t);
    SkipIs(a + 8, align);
  }

  lemma SkipIs(p: nat, align: nat)
    requires align >= 16
    ensures 8 * p <= PadUp(8 * p, align) && Skip(0, p, align) == (PadUp(8 * p, align) - 8 * p) / 8
  {
    PadUpBounds(8 * p, align);
  }

  // The first multiple of align from x + 64, for x == align * t.
  lemma UpFrom64(x: nat, align: nat, t: nat)
    requires align in {16, 32, 64, 128, 256, 512, 1024, 2048, 4096, 8192} && x == align * t
    ensures PadUp(x + 64, align) == if align <= 64 then x + 64 else x + align
  {
    var u := if align <= 64 then 64 / align else 1;
    assert align * u == if align <= 64 then 64 else align;
    PadUpAt(x + 64, align, t + u);
  }

  // PADDING_UP is determined by being the next multiple.
  lemma PadUpAt(x: nat, align: nat, k: nat)
    requires align > 0 && x <= align * k < x + align
    ensures PadUp(x, align) == align * k
  {
    var y := x + align - 1;
    QuotientIs(y, align, k, y / align, y % align);
    MulCommutes(align, k);
  }

  lemma QuotientIs(y: nat, m: nat, k: nat, q: nat, r: nat)
    requires y == q * m + r && r < m && m * k <= y < m * k + m
    ensures q == k
  {
    MulCommutes(m, q);
    if q < k {
      MulMonotone(m, q + 1, k);
      MulStep(m, q);
    } else if q > k {
      MulMonotone(m, k + 1, q);
      MulStep(m, k);
    }
  }

  lemma MulStep(m: nat, x: nat)
    ensures m * (x + 1) == m * x + m
  {
  }

  lemma MulMonotone(m: nat, x: nat, y: nat)
    requires x <= y
    ensures m * x <= m * y
  {
    assert m * y == m * x + m * (y - x);
  }

  lemma MulCommutes(x: nat, y: nat)
    ensures x * y == y * x
  {
  }

  // What an allocation asks of its caller and of the callback.
  ghost predicate Askable(man: Man, n: nat, align: nat, reply: nat) {
    ManOk(man) && SmallRequest(n, align) && ReplyOk(man.heap, n, align, reply)
  }

  ghost predicate AllocReady(man: Man, n: nat, align: nat, reply: nat) {
    Askable(man, n, align, reply) && Separable(man.heap, 0, n, align) && !Outgrown(man.heap, n, align, reply)
  }

  lemma SmallIsRequest(n: nat, align: nat)
    requires SmallRequest(n, align)
    ensures Request(0, n, align)
  {
  }

  // The heap after an allocation out of a fresh area at a.
  function AllocFresh(h: Heap, n: nat, align: nat, a: nat): Heap
    requires |h.lists| == 9 && SmallRequest(n, align) && a % AreaFor(n, align) == 0 && !Overdrawn(n, align)
  {
    FreshFits(n, align, a);
    CarveOut(Grow(h, a, AreaFor(n, align)), a + 8, Skip(0, a + 8, align), n)
  }

  // mman_alloc and mman_aligned_alloc below ALLOC_LARGE_BLK_SIZE; `reply` is what
  // cb_reqmem returns if it is called.
  ghost function ManAlloc(man: Man, n: nat, align: nat, reply: nat): (Man, nat)
    requires AllocReady(man, n, align, reply)
  {
    SmallIsRequest(n, align);
    if Search(man.heap, 0, n, align) != 0 then
      (man.(heap := Alloc(man.heap, 0, n, align).0), Alloc(man.heap, 0, n, align).1)
    else if reply == 0 then (man, 0)
    else (Man(AllocFresh(man.heap, n, align, reply), man.main, [reply] + man.chain), reply + 8 + Skip(0, reply + 8, align))
  }

  // k is man with one more user block r of n to n + 7 words.
  ghost predicate UserAdded(man: Man, k: Man, r: nat, n: nat) {
    && k.main == man.main
    && !IsLive(man.heap, r) && IsUser(k, r) && n <= k.heap.blocks[r].w < n + 8
    && (forall x {:trigger IsUser(man, x)} {:trigger IsUser(k, x)} :: x != r ==>
          (IsUser(man, x) <==> IsUser(k, x)) && (IsUser(man, x) ==> SameBlock(man.heap, k.heap, x)))
    && (forall a {:trigger UserWords(k, a)} :: a in k.heap.areas ==>
          UserWords(k, a) == (if a in man.heap.areas then UserWords(man, a) else 0) +
                             (if k.heap.blocks[r].area == a then k.heap.blocks[r].w else 0))
  }

  lemma DescriptorsKept(man: Man, g: Heap, r: nat)
    requires ManOk(man) && g.areas == man.heap.areas && OthersKept(man.heap, g, r) && !IsLive(man.heap, r)
    ensures Registered(man.(heap := g)) && Kinds(man.(heap := g))
  {
    hide WF, Coalesced, Flagged;
    var k := man.(heap := g);
    forall a | a in man.chain ensures IsLive(g, a + 2) && g.blocks[a + 2].w == DESC {
      assert IsLive(man.heap, a + 2);
      assert SameBlock(man.heap, g, a + 2);
    }
    forall a | a in g.areas ensures AreaKind(k, a) {
      assert AreaKind(man, a);
    }
  }

  // An allocation out of the existing areas.
  lemma AllocFound(man: Man, n: nat, align: nat, reply: nat)
    requires AllocReady(man, n, align, reply) && Search(man.heap, 0, n, align) != 0
    ensures var (k, r) := ManAlloc(man, n, align, reply);
            ManOk(k) && k.chain == man.chain && k.heap.areas == man.heap.areas && UserAdded(man, k, r, n) && r != 0 &&
            (align >= 16 ==> 8 * r % align == 0)
  {
    hide WF, Coalesced, Flagged, Kinds, Registered, Search, Skip, Alloc, Separable, OthersKept, LiveWords, ReplyOk,
         Outgrown;
    var h := man.heap;
    SmallIsRequest(n, align);
    AllocCorrect(h, 0, n, align);
    AllocCoalesced(h, 0, n, align);
    AllocFlagged(h, 0, n, align);
    var (g, r) := Alloc(h, 0, n, align);
    AllocNonzero(h, n, align);
    DescriptorsKept(man, g, r);
    HasDescriptor(man, g, r);
    FoundAdded(man, g, r, n);
  }

  lemma AllocNonzero(h: Heap, n: nat, align: nat)
    requires WF(h, 0) && Request(0, n, align) && Search(h, 0, n, align) != 0
    ensures Alloc(h, 0, n, align).1 != 0
  {
    hide WF, Search, CarveOut;
  }

  lemma FoundAdded(man: Man, g: Heap, r: nat, n: nat)
    requires OthersKept(man.heap, g, r) && g.areas == man.heap.areas
    requires !IsLive(man.heap, r) && IsLive(g, r) && n <= g.blocks[r].w < n + 8
    requires g.blocks[r].area != man.main ==> IsLive(man.heap, g.blocks[r].area + 2)
    ensures UserAdded(man, man.(heap := g), r, n)
  {
    hide LiveWords;
    var h, k := man.heap, man.(heap := g);
    var c := g.blocks[r].area;
    forall x: nat | x != r ensures (IsUser(man, x) <==> IsUser(k, x)) && (IsUser(man, x) ==> SameBlock(h, g, x)) {
      assert IsLive(h, x) <==> IsLive(g, x);
    }
    forall a | a in g.areas ensures UserWords(k, a) == UserWords(man, a) + (if c == a then g.blocks[r].w else 0) {
      LiveAdded(h, g, r, a);
    }
  }

  // Every block lies in the main area or in one whose descriptor is live.
  lemma HasDescriptor(man: Man, g: Heap, r: nat)
    requires ManOk(man) && WF(g, 0) && g.areas == man.heap.areas && r in g.blocks
    ensures g.blocks[r].area in man.heap.areas && (g.blocks[r].area != man.main ==> IsLive(man.heap, g.blocks[r].area + 2))
  {
    hide Homed, Listed, ClassOf, Chained, Apart, AreasOk, Coalesced, Flagged, Kinds;
    assert BlockOk(g, r);
    assert g.blocks[r].area in man.heap.areas;
  }

  // The fresh area's block can be carved.
  lemma FreshCuttable(h: Heap, n: nat, align: nat, a: nat)
    requires WF(h, 0) && SmallRequest(n, align) && a % AreaFor(n, align) == 0 && !Overdrawn(n, align)
    requires Vacant(h, a, AreaFor(n, align))
    ensures |h.lists| == 9 && a !in h.areas && a + 2 !in h.blocks && a + 8 !in h.blocks
    ensures var g, off := Grow(h, a, AreaFor(n, align)), Skip(0, a + 8, align);
            Cuttable(g, a + 8, off, n) && CutsFresh(g, a + 8, off, n) && AllocFresh(h, n, align, a) == CarveOut(g, a + 8, off, n)
    ensures align >= 16 ==> 8 * (a + 8 + Skip(0, a + 8, align)) % align == 0
  {
    hide WF, ClassOf, Skip, Vacant, CarveOut, Grow, AreaFor, SmallRequest, Fence, Overdrawn, CutsFresh, Cuttable, InHand;
    var len := AreaFor(n, align);
    FreshPieces(h, n, align, a);
    FreshFits(n, align, a);
    GrowWF(h, a, len);
    FreshBlock(h, a, len);
    MakeCuttable(Grow(h, a, len), a + 8, Skip(0, a + 8, align), n);
    CuttableCuts(Grow(h, a, len), a + 8, Skip(0, a + 8, align), n);
    if align >= 16 {
      SkipAligns(0, a + 8, align);
    }
  }

  lemma FreshBlock(h: Heap, a: nat, len: nat)
    requires len >= 16 && a !in h.areas && a + 2 !in h.blocks && a + 8 !in h.blocks
    ensures a + 8 in Grow(h, a, len).blocks && Grow(h, a, len).blocks[a + 8].free && Grow(h, a, len).blocks[a + 8].w == len - 10
  {
    hide Grow, Fence;
    GrowShape(h, a, len);
  }

  lemma MakeCuttable(g: Heap, p: nat, off: nat, n: nat)
    requires WF(g, p) && InHand(g, p, p) && p in g.blocks && g.blocks[p].free && n + off <= g.blocks[p].w
    requires 2 <= n && n % 2 == 0 && off % 2 == 0 && off != 2
    ensures Cuttable(g, p, off, n)
  {
  }

  lemma FreshPieces(h: Heap, n: nat, align: nat, a: nat)
    requires WF(h, 0) && SmallRequest(n, align) && a % AreaFor(n, align) == 0
    ensures |h.lists| == 9 && a % 2 == 0 && 16 <= AreaFor(n, align) < MAX_WORDS && AreaFor(n, align) % 2 == 0
    ensures 2 <= n && n % 2 == 0 && align % 16 == 0 && (align <= 64 || align >= 128)
  {
    hide Laid, Listed, ClassOf;
    NineLists(h);
    EvenArea(a, AreaFor(n, align));
  }

  lemma EvenArea(a: nat, len: nat)
    requires (len == WORDS_4K || len == WORDS_2M) && a % len == 0
    ensures a % 2 == 0
  {
    var k := a / len;
    assert a == len * k;
    var j := if len == WORDS_4K then 256 * k else 131072 * k;
    assert a == 2 * j;
  }

  // Registering the fresh area.
  lemma FreshRegistered(man: Man, a: nat, len: nat, g: Heap, r: nat)
    requires Kinds(man) && Registered(man) && a !in man.heap.areas && (len == WORDS_4K || len == WORDS_2M) && a % len == 0
    requires g.areas == man.heap.areas[a := Area(len, Fence(a + 2, len == WORDS_2M))]
    requires forall x {:trigger IsLive(man.heap, x)} :: IsLive(man.heap, x) ==> IsLive(g, x) && SameBlock(man.heap, g, x)
    requires IsLive(g, a + 2) && g.blocks[a + 2].w == DESC
    ensures Kinds(Man(g, man.main, [a] + man.chain)) && Registered(Man(g, man.main, [a] + man.chain))
  {
    hide Fence;
    var k := Man(g, man.main, [a] + man.chain);
    forall b | b in g.areas ensures AreaKind(k, b) {
      assert b != a ==> AreaKind(man, b);
    }
    assert NoDup(k.chain) by {
      assert a !in man.chain;
    }
    forall b | b in k.chain ensures IsLive(g, b + 2) && g.blocks[b + 2].w == DESC {
      assert b != a ==> b in man.chain && IsLive(man.heap, b + 2);
    }
  }

  // g is h after an allocation of n words, r, out of a fresh area at a.
  ghost predicate FreshResult(h: Heap, g: Heap, a: nat, len: nat, r: nat, n: nat) {
    && WF(g, 0) && Coalesced(g) && Flagged(g)
    && g.areas == h.areas[a := Area(len, Fence(a + 2, len == WORDS_2M))]
    && !IsLive(h, r) && IsLive(g, r) && n <= g.blocks[r].w < n + 8 && r != a + 2 && g.blocks[r].area == a
    && IsLive(g, a + 2) && g.blocks[a + 2].w == DESC && g.blocks[a + 2].area == a
    && (forall x {:trigger IsLive(h, x)} {:trigger IsLive(g, x)} :: x != r && x != a + 2 ==>
          (IsLive(h, x) <==> IsLive(g, x)) && (IsLive(h, x) ==> SameBlock(h, g, x)))
    && (forall b {:trigger LiveWords(g, b)} :: LiveWords(g, b) == if b == a then DESC + g.blocks[r].w else LiveWords(h, b))
  }

  lemma FreshLive(h: Heap, n: nat, align: nat, a: nat)
    requires |h.lists| == 9 && WF(h, 0) && SmallRequest(n, align) && a % AreaFor(n, align) == 0 && !Overdrawn(n, align)
    requires Vacant(h, a, AreaFor(n, align)) && Coalesced(h) && Flagged(h)
    ensures a !in h.areas && a + 2 !in h.blocks
    ensures FreshResult(h, AllocFresh(h, n, align, a), a, AreaFor(n, align), a + 8 + Skip(0, a + 8, align), n)
  {
    hide Homed, Listed, ClassOf, Skip, Vacant, CarveOut, Grow, Coalesced, Flagged, Carved, Fence, LiveWords,
         Cuttable, AllocFresh, AreaFor, Chained, AreasOk, Apart, Sized;
    var len := AreaFor(n, align);
    AreaForSizes(n, align);
    FreshCuttable(h, n, align, a);
    var h1, off := Grow(h, a, len), Skip(0, a + 8, align);
    var r := a + 8 + off;
    GrowShape(h, a, len);
    GrowCoalesced(h, a, len);
    GrowFlagged(h, a, len);
    CarveOutWF(h1, a + 8, off, n);
    CarveOutCarves(h1, a + 8, off, n);
    var g := CarveOut(h1, a + 8, off, n);
    CuttableApart(h1, a + 8, off, n);
    CarvedCoalesced(h1, a + 8, off, n, g);
    CarvedFlagged(h1, a + 8, off, n, g);
    CarvedLive(h1, a + 8, off, n, g);
    CarvedArea(h1, a + 8, off, n, g);
    forall b ensures LiveWords(g, b) == if b == a then DESC + g.blocks[r].w else LiveWords(h, b) {
      GrowLive(h, a, len, b);
      LiveAdded(h1, g, r, b);
    }
    FreshOthers(h, h1, g, a, len, r);
  }

  lemma AreaForSizes(n: nat, align: nat)
    ensures AreaFor(n, align) == WORDS_4K || AreaFor(n, align) == WORDS_2M
  {
  }

  lemma CuttableApart(h: Heap, p: nat, off: nat, n: nat)
    requires Cuttable(h, p, off, n)
    ensures Apart(h)
  {
  }

  lemma CarvedArea(h: Heap, p: nat, off: nat, n: nat, g: Heap)
    requires p in h.blocks && Carved(h, p, off, n, g)
    ensures p + off in g.blocks && g.blocks[p + off].area == h.blocks[p].area && g.areas == h.areas
  {
  }

  lemma FreshOthers(h: Heap, h1: Heap, g: Heap, a: nat, len: nat, r: nat)
    requires len >= 16 && a !in h.areas && a + 2 !in h.blocks && a + 8 !in h.blocks && h1 == Grow(h, a, len)
    requires OthersKept(h1, g, r) && !IsLive(h1, r) && IsLive(g, r) && r != a + 2
    ensures !IsLive(h, r) && IsLive(g, a + 2) && g.blocks[a + 2].w == DESC && g.blocks[a + 2].area == a
    ensures forall x {:trigger IsLive(h, x)} {:trigger IsLive(g, x)} :: x != r && x != a + 2 ==>
              (IsLive(h, x) <==> IsLive(g, x)) && (IsLive(h, x) ==> SameBlock(h, g, x))
  {
    hide Grow, Fence;
    GrowShape(h, a, len);
    GrowKeeps(h, a, len, r);
    assert IsLive(h1, a + 2);
    forall x: nat | x != r && x != a + 2 ensures (IsLive(h, x) <==> IsLive(g, x)) && (IsLive(h, x) ==> SameBlock(h, g, x)) {
      GrowKeeps(h, a, len, x);
      assert IsLive(h1, x) <==> IsLive(g, x);
    }
  }

  // An allocation out of a fresh area.
  lemma AllocGrown(man: Man, n: nat, align: nat, reply: nat)
    requires AllocReady(man, n, align, reply) && Search(man.heap, 0, n, align) == 0 && reply != 0
    ensures var (k, r) := ManAlloc(man, n, align, reply);
            ManOk(k) && k.chain == [reply] + man.chain && UserAdded(man, k, r, n) && r != 0 &&
            k.heap.areas.Keys == man.heap.areas.Keys + {reply} && (align >= 16 ==> 8 * r % align == 0)
  {
    hide Laid, Homed, Listed, ClassOf, Coalesced, Flagged, Kinds, Registered, Search, Skip, Separable, LiveWords,
         AllocFresh, Fence, AreaFor, Vacant, Cuttable, CutsFresh;
    var h, a := man.heap, reply;
    NineLists(h);
    FreshLive(h, n, align, a);
    FreshCuttable(h, n, align, a);
    var (k, r) := ManAlloc(man, n, align, reply);
    AreaForSizes(n, align);
    FreshRegistered(man, a, AreaFor(n, align), k.heap, r);
    FreshAdded(man, k, a, r, n);
  }

  lemma FreshAdded(man: Man, k: Man, a: nat, r: nat, n: nat)
    requires Registered(man) && k.main == man.main && a !in man.heap.areas && a + 2 !in man.heap.blocks
    requires k.heap.areas.Keys == man.heap.areas.Keys + {a}
    requires !IsLive(man.heap, r) && IsLive(k.heap, r) && n <= k.heap.blocks[r].w < n + 8 && r != a + 2 && k.heap.blocks[r].area == a
    requires a + 2 in k.heap.blocks && k.heap.blocks[a + 2].area == a
    requires forall x {:trigger IsLive(man.heap, x)} {:trigger IsLive(k.heap, x)} :: x != r && x != a + 2 ==>
               (IsLive(man.heap, x) <==> IsLive(k.heap, x)) && (IsLive(man.heap, x) ==> SameBlock(man.heap, k.heap, x))
    requires forall b {:trigger LiveWords(k.heap, b)} ::
               LiveWords(k.heap, b) == if b == a then DESC + k.heap.blocks[r].w else LiveWords(man.heap, b)
    ensures UserAdded(man, k, r, n)
  {
    hide LiveWords;
    forall x: nat | x != r
      ensures (IsUser(man, x) <==> IsUser(k, x)) && (IsUser(man, x) ==> SameBlock(man.heap, k.heap, x)) {
      assert IsLive(man.heap, x) || !IsLive(man.heap, x);
    }
    forall b | b in k.heap.areas
      ensures UserWords(k, b) == (if b in man.heap.areas then UserWords(man, b) else 0) +
                                 (if a == b then k.heap.blocks[r].w else 0) {
      assert LiveWords(k.heap, b) == LiveWords(k.heap, b);
    }
  }

  /** mman_alloc and mman_aligned_alloc keep the manager's invariant; they fail only if no
      listed block fits and the callback has no area; otherwise exactly one user block of the
      requested size, aligned, comes into being, and the words it takes are counted to its
      own area. */
  lemma ManAllocCorrect(man: Man, n: nat, align: nat, reply: nat)
    requires AllocReady(man, n, align, reply)
    ensures var (k, r) := ManAlloc(man, n, align, reply);
            && ManOk(k)
            && (r == 0 <==> reply == 0 && forall q :: q in man.heap.blocks && man.heap.blocks[q].free ==> !Fits(man.heap, 0, q, n, align))
            && (r == 0 ==> k == man)
            && (r != 0 ==> UserAdded(man, k, r, n))
            && (r != 0 && align >= 16 ==> 8 * r % align == 0)
  {
    hide WF, Coalesced, Flagged, Kinds, Registered, Search, Skip, Separable, LiveWords, AllocFresh, Alloc, UserAdded,
         ReplyOk, Outgrown, Fits;
    SearchComplete(man.heap, 0, n, align);
    if Search(man.heap, 0, n, align) != 0 {
      AllocFound(man, n, align, reply);
      FoundFits(man.heap, n, align);
    } else if reply != 0 {
      AllocGrown(man, n, align, reply);
    }
  }

  /** Where the block comes from: the first fitting block of the earliest list, as for the pool,
      while there is one; only otherwise a new area is asked for, which joins the chain in front
      and whose payload starts 64 bytes in, or at the alignment if that is larger. */
  lemma ManAllocPlaced(man: Man, n: nat, align: nat, reply: nat)
    requires AllocReady(man, n, align, reply)
    ensures var (k, r) := ManAlloc(man, n, align, reply);
            var p := Search(man.heap, 0, n, align);
            && Earliest(man.heap, 0, n, align, p)
            && (p != 0 ==> r == p + Skip(0, p, align) && k.chain == man.chain && k.heap.areas == man.heap.areas)
            && (p == 0 && reply == 0 ==> r == 0 && k == man)
            && (p == 0 && reply != 0 ==>
                  && 8 * (r - reply) == (if align > 64 then align else 64) && k.chain == [reply] + man.chain
                  && reply in k.heap.areas
                  && var len := k.heap.areas[reply].len;
                     && LeastArea(8 * len, 8 * n, align)
                     && k.heap.areas == man.heap.areas[reply := Area(len, Fence(reply + 2, len == WORDS_2M))])
  {
    hide Laid, Homed, ClassOf, Coalesced, Flagged, Kinds, Registered, Search, Skip, Separable, LiveWords, AllocFresh, Fence, AreaFor,
         Vacant, LeastArea, Earliest, Alloc, CarveOut, Cuttable, CutsFresh;
    SearchEarliest(man.heap, 0, n, align);
    AreaForLeast(n, align);
    NineLists(man.heap);
    if Search(man.heap, 0, n, align) != 0 {
      AllocFound(man, n, align, reply);
      FoundAt(man.heap, n, align);
    } else if reply != 0 {
      FreshLive(man.heap, n, align, reply);
      FreshFits(n, align, reply);
      AllocGrown(man, n, align, reply);
    }
  }

  lemma FoundAt(h: Heap, n: nat, align: nat)
    requires WF(h, 0) && Request(0, n, align) && Search(h, 0, n, align) != 0
    ensures Alloc(h, 0, n, align).1 == Search(h, 0, n, align) + Skip(0, Search(h, 0, n, align), align)
  {
    hide WF, Search, CarveOut, Skip;
  }

  lemma FoundFits(h: Heap, n: nat, align: nat)
    requires WF(h, 0) && Comparable(n, align) && Search(h, 0, n, align) != 0
    ensures exists q :: q in h.blocks && h.blocks[q].free && Fits(h, 0, q, n, align)
  {
    hide WF, Search, Fits;
    SearchComplete(h, 0, n, align);
    var p := Search(h, 0, n, align);
    assert p in h.blocks && h.blocks[p].free && Fits(h, 0, p, n, align);
  }

  // ----- mman_free

  // The heap without area a and the blocks in it.
  ghost function DropArea(h: Heap, a: nat): Heap {
    h.(areas := h.areas - {a}, blocks := map p | p in h.blocks && h.blocks[p].area != a :: h.blocks[p])
  }

  // mman_delmem is called, and has a callback to call.
  ghost predicate Drops(man: Man, p: nat, hasDelmem: bool)
    requires p in man.heap.blocks
  {
    LastUser(man, p) && hasDelmem
  }

  // mman_free of a block that is not a large one
  ghost function ManFree(man: Man, p: nat, hasDelmem: bool): Man
    requires ManOk(man) && IsUser(man, p)
  {
    var a := man.heap.blocks[p].area;
    if Drops(man, p, hasDelmem) then Man(DropArea(TryMerge(man.heap, p).0, a), man.main, Without(man.chain, a))
    else man.(heap := Free(man.heap, p))
  }

  // k is man without the user block p.
  ghost predicate UserRemoved(man: Man, k: Man, p: nat)
    requires p in man.heap.blocks
  {
    && k.main == man.main && !IsUser(k, p)
    && (forall x {:trigger IsUser(man, x)} {:trigger IsUser(k, x)} :: x != p ==>
          (IsUser(man, x) <==> IsUser(k, x)) && (IsUser(man, x) ==> SameBlock(man.heap, k.heap, x)))
    && (forall a {:trigger UserWords(k, a)} :: a in k.heap.areas ==>
          UserWords(k, a) == UserWords(man, a) - if man.heap.blocks[p].area == a then man.heap.blocks[p].w else 0)
  }

  // The area stays: an ordinary free.
  lemma FreeStays(man: Man, p: nat)
    requires ManOk(man) && IsUser(man, p)
    ensures var k := man.(heap := Free(man.heap, p));
            ManOk(k) && k.heap.areas == man.heap.areas && UserRemoved(man, k, p)
  {
    hide WF, Coalesced, Flagged, Kinds, LiveWords, Free, Registered, OthersKept;
    var h := man.heap;
    FreeCorrect(h, p);
    FreeCoalesced(h, p);
    FreeFlagged(h, p);
    UserNotDescriptor(man, p);
    StaysRegistered(man, Free(h, p), p);
    HasDescriptor(man, h, p);
    StaysRemoved(man, Free(h, p), p);
  }

  lemma UserNotDescriptor(man: Man, p: nat)
    requires ManOk(man) && IsUser(man, p)
    ensures forall a :: a in man.chain ==> a + 2 != p
  {
    hide WF, Coalesced, Flagged, Kinds;
    forall a | a in man.chain ensures a + 2 != p {
      assert a in man.heap.areas;
      FirstOfArea(man.heap, a);
    }
  }

  lemma FirstOfArea(h: Heap, a: nat)
    requires WF(h, 0) && a in h.areas
    ensures a + 2 in h.blocks && h.blocks[a + 2].area == a
  {
    hide Homed, Listed, Sized, Chained, Apart;
    assert AreaOk(h, a);
  }

  lemma StaysRegistered(man: Man, g: Heap, p: nat)
    requires Kinds(man) && Registered(man) && g.areas == man.heap.areas && OthersKept(man.heap, g, p)
    requires forall a :: a in man.chain ==> a + 2 != p
    ensures Kinds(man.(heap := g)) && Registered(man.(heap := g))
  {
    hide Fence;
    var k := man.(heap := g);
    forall a | a in man.chain ensures IsLive(g, a + 2) && g.blocks[a + 2].w == DESC {
      assert IsLive(man.heap, a + 2);
      assert SameBlock(man.heap, g, a + 2);
    }
    forall a | a in g.areas ensures AreaKind(k, a) {
      assert AreaKind(man, a);
    }
  }

  lemma StaysRemoved(man: Man, g: Heap, p: nat)
    requires OthersKept(man.heap, g, p) && g.areas == man.heap.areas && IsUser(man, p) && !IsLive(g, p)
    ensures UserRemoved(man, man.(heap := g), p)
  {
    hide LiveWords;
    var k := man.(heap := g);
    forall x: nat | x != p ensures (IsUser(man, x) <==> IsUser(k, x)) && (IsUser(man, x) ==> SameBlock(man.heap, g, x)) {
      assert IsLive(man.heap, x) <==> IsLive(g, x);
    }
    forall a | a in g.areas ensures UserWords(k, a) == UserWords(man, a) - (if man.heap.blocks[p].area == a then man.heap.blocks[p].w else 0) {
      LiveDropped(man.heap, g, p, a);
    }
  }

  // p is the only user block of its sub-area.
  ghost predicate LastUser(man: Man, p: nat) {
    IsUser(man, p) && man.heap.blocks[p].area != man.main && UserWords(man, man.heap.blocks[p].area) == man.heap.blocks[p].w
  }

  // Sub-area a of man, with its descriptor block.
  ghost predicate SubArea(man: Man, a: nat) {
    a in man.heap.areas && a in man.chain && IsLive(man.heap, a + 2) && man.heap.blocks[a + 2].w == DESC && man.heap.blocks[a + 2].area == a
  }

  lemma UserArea(man: Man, p: nat)
    requires ManOk(man) && IsLive(man.heap, p) && man.heap.blocks[p].area != man.main
    ensures SubArea(man, man.heap.blocks[p].area) && Laid(man.heap)
    ensures man.heap.blocks[p].w >= 2
  {
    hide Homed, Listed, ClassOf, Chained, Apart, Coalesced, Flagged, Kinds;
    var a := man.heap.blocks[p].area;
    assert BlockOk(man.heap, p) && a in man.heap.areas;
    assert AreaOk(man.heap, a);
  }

  // Then the only live blocks there are it and the descriptor.
  lemma OnlyUser(man: Man, p: nat, x: nat)
    requires ManOk(man) && LastUser(man, p)
    requires IsLive(man.heap, x) && man.heap.blocks[x].area == man.heap.blocks[p].area
    ensures x == p || x == man.heap.blocks[p].area + 2
  {
    hide ManOk, LiveWords;
    var a := man.heap.blocks[p].area;
    UserArea(man, p);
    UserArea(man, x);
    if x != p && x != a + 2 {
      ThreeLive(man.heap, a, p, a + 2, x);
    }
  }

  lemma ThreeLive(h: Heap, a: nat, p: nat, q: nat, x: nat)
    requires IsLive(h, p) && IsLive(h, q) && IsLive(h, x) && p != q && p != x && q != x
    requires h.blocks[p].area == h.blocks[q].area == h.blocks[x].area == a
    ensures LiveWords(h, a) >= h.blocks[p].w + h.blocks[q].w + h.blocks[x].w
  {
    hide Total;
    var m := LiveFrom(h, a, 0);
    TotalRemove(m, p);
    TotalRemove(m - {p}, q);
    TotalRemove(m - {p} - {q}, x);
  }

  // ----- the last user block of a sub-area

  /** When the last user block p of a sub-area is freed, merging leaves the area with exactly
      its descriptor block and one merged block q - the words from the descriptor's end to
      the area's end - which is on no list. */
  ghost predicate OnlyDescriptor(man: Man, p: nat, g: Heap, q: nat)
    requires p in man.heap.blocks
  {
    var a := man.heap.blocks[p].area;
    && a in man.heap.areas && man.heap.areas[a].len >= 10 && q == a + 8 && q in g.blocks
    && g.blocks[q] == Blk(man.heap.areas[a].len - 10, false, man.heap.blocks[p].big, a, NOWHERE)
    && (forall x {:trigger x in g.blocks} :: x in g.blocks && g.blocks[x].area == a <==> x == a + 2 || x == q)
    && IsLive(g, a + 2) && SameBlock(man.heap, g, a + 2)
  }

  lemma Emptied(man: Man, p: nat)
    requires ManOk(man) && LastUser(man, p)
    ensures OnlyDescriptor(man, p, TryMerge(man.heap, p).0, TryMerge(man.heap, p).1)
  {
    hide Laid, Homed, ClassOf, Flagged, Kinds, LiveWords, TryMerge, Merged, Coalesced, Registered, Lo, Hi, UserWords;
    UserArea(man, p);
    EmptiedSpan(man, p);
    TryMergeWF(man.heap, p);
    TryMergeMerges(man.heap, p);
    var (g, q) := TryMerge(man.heap, p);
    assert g.blocks[q].home == NOWHERE;
    EmptiedShape(man, p, g);
  }

  // The free neighbours of p reach from the descriptor to the end of the area.
  lemma EmptiedSpan(man: Man, p: nat)
    requires ManOk(man) && LastUser(man, p) && Laid(man.heap) && SubArea(man, man.heap.blocks[p].area)
    ensures Lo(man.heap, p) == man.heap.blocks[p].area + 8 && Hi(man.heap, p) == End(man.heap, man.heap.blocks[p].area)
  {
    hide WF, Laid, Registered, Flagged, Kinds, LiveWords, Lo, Hi, Coalesced;
    var h := man.heap;
    var a := h.blocks[p].area;
    forall x: nat ensures IsLive(h, x) && h.blocks[x].area == a ==> x == p || x == a + 2 {
      if IsLive(h, x) && h.blocks[x].area == a {
        OnlyUser(man, p, x);
      }
    }
    SpanToEnds(h, a, p);
  }

  lemma SpanToEnds(h: Heap, a: nat, p: nat)
    requires Laid(h) && Coalesced(h) && a in h.areas && IsLive(h, p) && h.blocks[p].area == a && p != a + 2
    requires IsLive(h, a + 2) && h.blocks[a + 2].area == a && h.blocks[a + 2].w == DESC
    requires forall x: nat :: IsLive(h, x) && h.blocks[x].area == a ==> x == p || x == a + 2
    ensures Lo(h, p) == a + 8 && Hi(h, p) == End(h, a)
  {
    SpanToStart(h, a, p);
    SpanToEnd(h, a, p);
  }

  lemma SpanToStart(h: Heap, a: nat, p: nat)
    requires Laid(h) && Coalesced(h) && a in h.areas && IsLive(h, p) && h.blocks[p].area == a && p != a + 2
    requires IsLive(h, a + 2) && h.blocks[a + 2].area == a && h.blocks[a + 2].w == DESC
    requires forall x: nat :: IsLive(h, x) && h.blocks[x].area == a ==> x == p || x == a + 2
    ensures Lo(h, p) == a + 8
  {
    var x := a + 8;
    assert BlockOk(h, p) && Clear(h, a + 2, p) && NextOk(h, a + 2);
    assert x in h.blocks && h.blocks[x].area == a;
    if x == p {
      PrevUnique(h, p, a + 2);
    } else {
      assert Clear(h, x, p) && NextOk(h, x);
      assert !FreePair(h, x);
      assert IsLive(h, Next(h, x));
      PrevUnique(h, p, x);
    }
  }

  lemma SpanToEnd(h: Heap, a: nat, p: nat)
    requires Laid(h) && Coalesced(h) && a in h.areas && IsLive(h, p) && h.blocks[p].area == a && p != a + 2
    requires forall x: nat :: IsLive(h, x) && h.blocks[x].area == a ==> x == p || x == a + 2
    ensures Hi(h, p) == End(h, a)
  {
    assert BlockOk(h, p) && NextOk(h, p);
    var y := Next(h, p);
    if y != End(h, a) {
      assert y in h.blocks && h.blocks[y].area == a;
      assert !IsLive(h, y) && !IsLive(h, Next(h, y));
      assert NextOk(h, y) && !FreePair(h, y);
    }
  }

  lemma EmptiedShape(man: Man, p: nat, g: Heap)
    requires Laid(man.heap) && Laid(g) && p in man.heap.blocks && SubArea(man, man.heap.blocks[p].area)
    requires Lo(man.heap, p) == man.heap.blocks[p].area + 8 && Hi(man.heap, p) == End(man.heap, man.heap.blocks[p].area)
    requires Merged(man.heap, p, g, Lo(man.heap, p), Hi(man.heap, p), false, man.heap.blocks[p].big)
    requires man.heap.blocks[p].area + 8 in g.blocks ==> g.blocks[man.heap.blocks[p].area + 8].home == NOWHERE
    ensures OnlyDescriptor(man, p, g, man.heap.blocks[p].area + 8)
  {
    hide Lo, Hi, Chained, AreasOk;
    var h := man.heap;
    var a := h.blocks[p].area;
    assert SameBlock(h, g, a + 2);
    forall x: nat | x in g.blocks && g.blocks[x].area == a ensures x == a + 2 || x == a + 8 {
      assert BlockOk(g, x) && Clear(g, a + 2, x) && Clear(g, a + 8, x);
    }
  }

  // ----- mman_delmem

  lemma DropSized(h: Heap, a: nat)
    requires Sized(h) && Chained(h)
    ensures Sized(DropArea(h, a)) && Chained(DropArea(h, a))
  {
    var g := DropArea(h, a);
    forall p | p in g.blocks ensures BlockOk(g, p) {
      assert BlockOk(h, p);
    }
    forall p | p in g.blocks ensures NextOk(g, p) {
      assert NextOk(h, p);
    }
  }

  lemma DropAreas(h: Heap, a: nat)
    requires Apart(h) && AreasOk(h)
    ensures Apart(DropArea(h, a)) && AreasOk(DropArea(h, a))
  {
    var g := DropArea(h, a);
    forall p, q | p in g.blocks && q in g.blocks ensures Clear(g, p, q) {
      assert Clear(h, p, q);
    }
    forall b | b in g.areas ensures AreaOk(g, b) {
      assert AreaOk(h, b);
    }
    forall b, c | b in g.areas && c in g.areas && b < c ensures End(g, b) <= c {
      assert End(h, b) <= c;
    }
  }

  lemma DropLaid(h: Heap, a: nat)
    requires Laid(h)
    ensures Laid(DropArea(h, a))
  {
    hide Sized, Chained, Apart, AreasOk, DropArea;
    DropSized(h, a);
    DropAreas(h, a);
  }

  /** Dropping an area none of whose blocks is listed leaves a well-formed heap: no list node
      and no tag of it is referred to any more. */
  lemma DropWF(h: Heap, a: nat)
    requires WF(h, 0) && a in h.areas
    requires forall p {:trigger p in h.blocks} :: p in h.blocks && h.blocks[p].area == a ==> h.blocks[p].home == NOWHERE
    ensures WF(DropArea(h, a), 0)
  {
    hide Laid, ClassOf;
    var g := DropArea(h, a);
    DropLaid(h, a);
    assert Homed(g) by {
      forall i, p | 0 <= i < 9 && p in g.lists[i] ensures p in g.blocks && g.blocks[p].home == i {
        assert p in h.lists[i];
        assert p in h.blocks;
      }
      forall p | p in g.blocks && g.blocks[p].home < 9 ensures p in g.lists[g.blocks[p].home] {
        assert p in h.lists[h.blocks[p].home];
      }
    }
    assert Listed(g, 0) by {
      forall p | p in g.blocks ensures g.blocks[p] == h.blocks[p] && p in h.blocks {}
      assert 0 !in g.blocks;
    }
  }

  // The blocks outside the freed one's area are untouched by merging, so the rest is as it was.
  lemma DropKeeps(man: Man, p: nat, g: Heap, x: nat)
    requires p in man.heap.blocks && SubArea(man, man.heap.blocks[p].area) && Laid(man.heap)
    requires Lo(man.heap, p) == man.heap.blocks[p].area + 8 && Hi(man.heap, p) == End(man.heap, man.heap.blocks[p].area)
    requires Merged(man.heap, p, g, Lo(man.heap, p), Hi(man.heap, p), false, man.heap.blocks[p].big)
    ensures var a := man.heap.blocks[p].area;
            x in DropArea(g, a).blocks <==> x in man.heap.blocks && man.heap.blocks[x].area != a
    ensures var a := man.heap.blocks[p].area;
            x in DropArea(g, a).blocks ==> SameBlock(man.heap, DropArea(g, a), x)
  {
    hide Lo, Hi, Chained, Apart;
    var h, a := man.heap, man.heap.blocks[p].area;
    if x in h.blocks && h.blocks[x].area != a {
      assert BlockOk(h, x);
      assert a < h.blocks[x].area ==> End(h, a) <= h.blocks[x].area;
      assert h.blocks[x].area < a ==> End(h, h.blocks[x].area) <= a;
      assert SameBlock(h, g, x);
    }
    if x in g.blocks && g.blocks[x].area != a {
      assert SameBlock(h, g, x);
    }
  }

  // k keeps exactly the blocks of h outside area a.
  ghost predicate Outside(h: Heap, a: nat, g: Heap) {
    g.areas == h.areas - {a} &&
    forall x {:trigger x in g.blocks} {:trigger x in h.blocks} ::
      (x in g.blocks <==> x in h.blocks && h.blocks[x].area != a) && (x in g.blocks ==> SameBlock(h, g, x))
  }

  lemma OutsideKeeps(h: Heap, a: nat, g: Heap)
    requires Coalesced(h) && Flagged(h) && Outside(h, a, g)
    ensures Coalesced(g) && Flagged(g)
  {
    forall x: nat ensures !FreePair(g, x) {
      assert !FreePair(h, x);
      assert x in g.blocks ==> SameBlock(h, g, x);
    }
    forall x: nat | x in g.blocks && g.blocks[x].area in g.areas
      ensures g.blocks[x].big == (g.areas[g.blocks[x].area].len == WORDS_2M) {
      assert SameBlock(h, g, x) && h.blocks[x].big == h.blocks[x].big;
    }
  }

  lemma OutsideRegistered(man: Man, k: Man, a: nat)
    requires Kinds(man) && Registered(man) && AreasOk(man.heap) && a in man.chain
    requires Outside(man.heap, a, k.heap) && k.main == man.main && k.chain == Without(man.chain, a)
    ensures Kinds(k) && Registered(k)
  {
    hide Outside, AreasOk, Fence, IsLive, AreaKind;
    var h, g := man.heap, k.heap;
    OutsideAreas(h, a, g);
    WithoutMembers(man.chain, a);
    forall b | b in g.areas ensures AreaKind(k, b) {
      assert AreaKind(man, b);
      KindKept(man, k, b);
    }
    forall b | b in k.chain ensures IsLive(g, b + 2) && b + 2 in g.blocks && g.blocks[b + 2].w == DESC {
      OutsideDescriptor(man, k, a, b);
    }
  }

  lemma OutsideAreas(h: Heap, a: nat, g: Heap)
    requires Outside(h, a, g)
    ensures g.areas == h.areas - {a}
  {
  }

  lemma KindKept(man: Man, k: Man, b: nat)
    requires b in man.heap.areas && AreaKind(man, b) && b in k.heap.areas && k.heap.areas[b] == man.heap.areas[b] && k.main == man.main
    ensures AreaKind(k, b)
  {
    hide Fence;
  }

  lemma OutsideDescriptor(man: Man, k: Man, a: nat, b: nat)
    requires Registered(man) && AreasOk(man.heap) && b in man.chain && b != a && Outside(man.heap, a, k.heap)
    ensures IsLive(k.heap, b + 2) && b + 2 in k.heap.blocks && k.heap.blocks[b + 2].w == DESC
  {
    assert b in man.heap.areas && AreaOk(man.heap, b);
    assert IsLive(man.heap, b + 2);
    assert SameBlock(man.heap, k.heap, b + 2);
  }

  lemma OutsideRemoved(man: Man, k: Man, p: nat)
    requires IsUser(man, p) && Outside(man.heap, man.heap.blocks[p].area, k.heap) && k.main == man.main
    requires forall x: nat :: IsLive(man.heap, x) && man.heap.blocks[x].area == man.heap.blocks[p].area ==>
                                x == p || x == man.heap.blocks[p].area + 2
    requires man.heap.blocks[p].area != man.main
    ensures UserRemoved(man, k, p)
  {
    hide Total;
    var h, g, a := man.heap, k.heap, man.heap.blocks[p].area;
    forall x: nat | x != p ensures (IsUser(man, x) <==> IsUser(k, x)) && (IsUser(man, x) ==> SameBlock(h, g, x)) {
      assert x in g.blocks || x !in g.blocks;
    }
    forall b | b in g.areas ensures UserWords(k, b) == UserWords(man, b) - (if a == b then h.blocks[p].w else 0) {
      assert LiveFrom(g, b, 0) == LiveFrom(h, b, 0);
    }
  }

  // The area goes: nothing of it is left in the heap, on a list or in the chain.
  lemma FreeDrops(man: Man, p: nat)
    requires ManOk(man) && LastUser(man, p)
    ensures var k := ManFree(man, p, true);
            var a := man.heap.blocks[p].area;
            ManOk(k) && k.heap.areas == man.heap.areas - {a} && a !in k.chain && UserRemoved(man, k, p) &&
            forall x :: x in k.heap.blocks ==> k.heap.blocks[x].area != a
  {
    hide Laid, Homed, Listed, ClassOf, LiveWords, TryMerge, Merged, Coalesced, Flagged, Kinds, Registered, Lo, Hi,
         UserWords, UserRemoved, DropArea, AreaKind, AreasOk;
    var h := man.heap;
    var a := h.blocks[p].area;
    UserArea(man, p);
    EmptiedSpan(man, p);
    TryMergeWF(h, p);
    TryMergeMerges(h, p);
    Emptied(man, p);
    var (g, q) := TryMerge(h, p);
    MergedAreas(h, p, g, Lo(h, p), Hi(h, p), h.blocks[p].big);
    var k := ManFree(man, p, true);
    UnlistedArea(man, p, g, q);
    DropWF(g, a);
    DropFields(g, a);
    forall x: nat ensures (x in k.heap.blocks <==> x in h.blocks && h.blocks[x].area != a) && (x in k.heap.blocks ==> SameBlock(h, k.heap, x)) {
      DropKeeps(man, p, g, x);
    }
    OutsideKeeps(h, a, k.heap);
    LaidAreas(h);
    OutsideRegistered(man, k, a);
    forall x: nat ensures IsLive(h, x) && h.blocks[x].area == a ==> x == p || x == a + 2 {
      if IsLive(h, x) && h.blocks[x].area == a {
        OnlyUser(man, p, x);
      }
    }
    OutsideRemoved(man, k, p);
    assert a !in k.chain by { RegisteredWithout(man, a); }
  }

  lemma MergedAreas(h: Heap, p: nat, g: Heap, lo: nat, hi: nat, big: bool)
    requires p in h.blocks && Merged(h, p, g, lo, hi, false, big)
    ensures g.areas == h.areas
  {
  }

  lemma LaidAreas(h: Heap)
    requires Laid(h)
    ensures AreasOk(h)
  {
  }

  lemma DropFields(g: Heap, a: nat)
    ensures DropArea(g, a).areas == g.areas - {a}
    ensures forall x :: x in DropArea(g, a).blocks ==> DropArea(g, a).blocks[x].area != a
  {
  }

  lemma RegisteredWithout(man: Man, a: nat)
    requires Registered(man)
    ensures a !in Without(man.chain, a)
  {
    WithoutMembers(man.chain, a);
  }

  lemma UnlistedArea(man: Man, p: nat, g: Heap, q: nat)
    requires p in man.heap.blocks && OnlyDescriptor(man, p, g, q) && WF(g, 0)
    ensures forall x {:trigger x in g.blocks} :: x in g.blocks && g.blocks[x].area == man.heap.blocks[p].area ==> g.blocks[x].home == NOWHERE
  {
    hide Laid, Homed, ClassOf;
    var a := man.heap.blocks[p].area;
    assert g.blocks[a + 2].home == NOWHERE;
  }

  /** mman_free keeps the manager's invariant and removes exactly the given user block.  The
      sub-area goes away exactly when its last user block is freed and there is a callback to
      take it back; nothing in the heap, the lists or the chain then refers to it. */
  lemma ManFreeCorrect(man: Man, p: nat, hasDelmem: bool)
    requires ManOk(man) && IsUser(man, p)
    ensures var k := ManFree(man, p, hasDelmem);
            var a := man.heap.blocks[p].area;
            && ManOk(k) && UserRemoved(man, k, p)
            && k.heap.areas == (if Drops(man, p, hasDelmem) then man.heap.areas - {a} else man.heap.areas)
            && (Drops(man, p, hasDelmem) ==> a !in k.chain && forall x :: x in k.heap.blocks ==> k.heap.blocks[x].area != a)
  {
    hide WF, Coalesced, Flagged, Kinds, Registered, Free, TryMerge, DropArea, LastUser, UserRemoved;
    if Drops(man, p, hasDelmem) {
      FreeDrops(man, p);
      DropsSame(man, p, hasDelmem);
    } else {
      FreeStays(man, p);
    }
  }

  /** The lists and the chain after a free: the merged neighbours leave their lists, the merged
      block goes in front of the list of its class unless its area goes away, and then exactly
      that area leaves the chain, the others staying in order. */
  lemma ManFreePlaced(man: Man, p: nat, hasDelmem: bool)
    requires ManOk(man) && IsUser(man, p)
    ensures Laid(man.heap) && p in man.heap.blocks
    ensures var k := ManFree(man, p, hasDelmem);
            var h, q, c := man.heap, Lo(man.heap, p), ClassOf(MergedWords(man.heap, p));
            && k.chain == (if Drops(man, p, hasDelmem) then Without(man.chain, h.blocks[p].area) else man.chain)
            && |k.heap.lists| == |h.lists| == 9
            && forall i {:trigger k.heap.lists[i]} :: 0 <= i < 9 ==>
                 k.heap.lists[i] == Onto(!Drops(man, p, hasDelmem) && i == c, q, Without(Without(h.lists[i], Next(h, p)), q))
  {
    hide Laid, Homed, Listed, ClassOf, Coalesced, Flagged, Kinds, Registered, Free, TryMerge, LastUser, Lo, Next, MergedWords;
    LaidHeap(man.heap);
    WellHomed(man.heap);
    NineLists(man.heap);
    FreedLists(man.heap, p);
    forall i | 0 <= i < 9
      ensures |TryMerge(man.heap, p).0.lists| == 9
      ensures TryMerge(man.heap, p).0.lists[i] == Without(Without(man.heap.lists[i], Next(man.heap, p)), Lo(man.heap, p)) {
      TryMergeLists(man.heap, p, i);
    }
    TryMergeLists(man.heap, p, 0);
  }

  lemma DropsSame(man: Man, p: nat, hasDelmem: bool)
    requires ManOk(man) && IsUser(man, p) && Drops(man, p, hasDelmem)
    ensures ManFree(man, p, hasDelmem) == ManFree(man, p, true) && hasDelmem
  {
    hide WF, Coalesced, Flagged, Kinds, Registered, Free, TryMerge, DropArea, LastUser;
  }
}

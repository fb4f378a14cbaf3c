/** Where the heap's calls stop doing what they are for, on heaps that occur. */
module Limits {
  import opened Basics
  import opened Tags
  import opened Heaps
  import opened Ops
  import opened Reps
  import opened AllocAreas
  import opened Invariants
  import opened MemoryPool
  import opened Runs
  import opened ManagerHeaps
  import opened MultiAreaManager

  // On a fresh pool every search looks at the one block.
  lemma {:induction false} InitSearch(len: nat, base: nat, id: nat, n: nat, align: nat)
    requires len >= 6 && id <= LARGE
    ensures SearchFrom(InitHeap(len), base, id, n, align) == if Matches(len - 4, Skip(base, 2, align), n, align) then 2 else 0
    decreases LARGE - id
  {
    hide Matches, Skip, Fence;
    var h := InitHeap(len);
    var one: seq<nat> := [2];
    InitLists(len);
    if id < LARGE {
      InitSearch(len, base, id + 1, n, align);
    } else {
      assert h.lists[LARGE] == one && one[1..] == [];
      assert FirstFit(h, base, one[1..], n, align) == 0;
      assert SearchFrom(h, base, LARGE + 1, n, align) == 0;
    }
  }

  /** An aligned request of 2^63 bytes or more is negative as a long: the search of a fresh pool
      answers with its one block although that block is far too small, unless the alignment gap
      makes up for it. */
  lemma HugeRequestMatches(len: nat, base: nat, n: nat, align: nat)
    requires 6 <= len < MAX_WORDS && 16 <= align <= 0x8000_0000_0000_0000
    requires 0x8000_0000_0000_0000 <= 8 * n < WORD_MODULUS
    ensures !Fits(InitHeap(len), base, 2, n, align)
    ensures Search(InitHeap(len), base, n, align) ==
            if n + Skip(base, 2, align) <= len - 4 + 2 * MAX_WORDS then 2 else 0
    ensures 8 * n == 0x8000_0000_0000_0000 ==> Search(InitHeap(len), base, n, align) == 2
  {
    hide Skip, ClassOf, Fence;
    SkipBelow(base, 2, align);
    InitSearch(len, base, ClassOf(n), n, align);
  }

  /** A fresh pool at an address that is a multiple of 32 meets the 16-byte gap with its first
      32-aligned request. */
  lemma SixteenReached(len: nat, base: nat, n: nat)
    requires len < MAX_WORDS && base % 32 == 0 && n >= 2 && n + 6 <= len
    ensures Comparable(n, 32) && !Separable(InitHeap(len), base, n, 32)
  {
    hide ClassOf, Fence, Skip, Matches;
    SkipSixteen(base);
    RoomMatches(len - 4, Skip(base, 2, 32), n, 32);
    InitSearch(len, base, ClassOf(n), n, 32);
  }

  lemma SkipSixteen(base: nat)
    requires base % 32 == 0
    ensures Skip(base, 2, 32) == 2
  {
    assert PadUp(base + 16, 32) == base + 32;
  }

  // ----- malloc(128), then realloc to 16 bytes

  // A fresh pool after malloc(128): the block of 16 words, and the rest.
  lemma FirstMalloc(len: nat, base: nat)
    requires 30 <= len < MAX_WORDS && len % 2 == 0 && base % 16 == 0
    ensures WF(InitHeap(len), 0) && Legal(InitHeap(len), base, Malloc(128))
    ensures var (h, p) := Effect(InitHeap(len), base, Malloc(128));
            && WF(h, 0) && p == 2 && h.blocks.Keys == {2, 20} && h.areas == InitHeap(len).areas
            && h.blocks[2].w == 16 && !h.blocks[2].free && h.blocks[2].area == 0
            && h.blocks[20].w == len - 22 && h.blocks[20].free && h.blocks[20].area == 0
  {
    hide ClassOf, Fence, Matches, WF, SearchFrom;
    InitHeapWF(len);
    EffectWF(InitHeap(len), base, Malloc(128));
    RoomMatches(len - 4, 0, 16, 0);
    InitSearch(len, base, ClassOf(16), 16, 0);
  }

  // The live words of an area with one live block p.
  lemma OneLive(h: Heap, p: nat)
    requires IsLive(h, p) && h.blocks[p].area == 0 && forall x :: x in h.blocks && x != p ==> h.blocks[x].free
    ensures LiveWords(h, 0) == h.blocks[p].w
  {
    hide Total;
    var none: map<nat, nat> := map[];
    TotalEmpty();
    TotalAdd(none, p, h.blocks[p].w);
    assert LiveFrom(h, 0, 0) == none[p := h.blocks[p].w];
  }

  /** The two conditions under which a resize fails to keep the heap coalesced and the counter
      right do occur: shrinking a block next to free memory leaves two free neighbours and
      counts 128 bytes for a block of 16. */
  lemma ShrinkBesideFree(len: nat, base: nat)
    requires 30 <= len < MAX_WORDS && len % 2 == 0 && base % 16 == 0
    ensures WF(InitHeap(len), 0) && Legal(InitHeap(len), base, Malloc(128))
    ensures var h := Effect(InitHeap(len), base, Malloc(128)).0;
            && WF(h, 0) && Legal(h, base, Resize(2, 16)) && Coalesced(h)
            && Count(InitHeap(len), h, 2, Malloc(128), 0) == 128 == 8 * LiveWords(h, 0)
    ensures var h := Effect(InitHeap(len), base, Malloc(128)).0;
            var (g, r) := Effect(h, base, Resize(2, 16));
            && FreePair(g, 6) && !Coalesced(g)
            && Count(h, g, r, Resize(2, 16), 128) == 128 && 8 * LiveWords(g, 0) == 16
  {
    hide ClassOf, Fence, WF, Ops.Alloc, LiveWords, InitHeap, Put;
    FirstMalloc(len, base);
    var h := Effect(InitHeap(len), base, Malloc(128)).0;
    OneLive(h, 2);
    ReallocShrink(h, base, 2, 2);
    var g := Trim(h, 2, 2);
    ShrunkBlocks(h, len);
    OneLive(g, 2);
    assert FreePair(g, 6);
  }

  lemma ShrunkBlocks(h: Heap, len: nat)
    requires |h.lists| == 9 && len >= 30 && h.blocks.Keys == {2, 20}
    requires h.blocks[2].w == 16 && !h.blocks[2].free && h.blocks[2].area == 0
    requires h.blocks[20].w == len - 22 && h.blocks[20].free && h.blocks[20].area == 0
    ensures Coalesced(h)
    ensures var g := Trim(h, 2, 2);
            && g.blocks.Keys == {2, 6, 20} && g.blocks[2].w == 2 && !g.blocks[2].free && g.blocks[2].area == 0
            && g.blocks[6].w == 12 && g.blocks[6].free && g.blocks[20] == h.blocks[20]
  {
    hide ClassOf;
    forall x: nat ensures !FreePair(h, x) {
    }
  }

  /** A block that must move while no free block is large enough: after malloc(128), growing it
      to the size of the whole area finds neither room behind it nor anywhere else, so that
      mpool_realloc copies through the null pointer. */
  lemma NullCopyReached(len: nat, base: nat)
    requires 30 <= len < MAX_WORDS && len % 2 == 0 && base % 16 == 0
    ensures WF(InitHeap(len), 0) && Legal(InitHeap(len), base, Malloc(128))
    ensures var (h, p) := Effect(InitHeap(len), base, Malloc(128));
            && WF(h, 0) && IsLive(h, p) && Padded(8 * len) == len && Request(base, len, 0)
            && Ops.Realloc(h, base, p, len) == (h, 0)
  {
    hide ClassOf, Fence, WF, Ops.Alloc, InitHeap, Effect, Legal, Comparable;
    FirstMalloc(len, base);
    var h := Effect(InitHeap(len), base, Malloc(128)).0;
    RequestOk(base, 8 * len, 0);
    LiveLaid(h, 2);
    ReallocCorrect(h, base, 2, len);
    assert !GrowsInPlace(h, 2, len);
  }

  // ----- the manager after mman_init

  /** A fresh manager meets the 16-byte gap with its first 32-aligned request, wherever its main
      area lies. */
  lemma ManagerSixteenReached(a: nat, len: nat, n: nat)
    requires (len == WORDS_4K || len == WORDS_2M) && a % len == 0 && 2 <= n && n % 2 == 0 && n + 6 <= len
    ensures ManOk(InitMan(a, len)) && !Separable(InitMan(a, len).heap, 0, n, 32)
  {
    hide ManOk, WF, InitMan, Search, Skip, PadUp;
    InitManOk(a, len);
    InitManBlock(a, len);
    InitManHeap(a, len);
    AreaQuarter(a, len);
    SkipIs(a + 2, 32);
    PadUpAt(8 * (a + 2), 32, a / 4 + 1);
    SearchComplete(InitMan(a, len).heap, 0, n, 32);
    assert Fits(InitMan(a, len).heap, 0, a + 2, n, 32);
  }

  lemma AreaQuarter(a: nat, len: nat)
    requires (len == WORDS_4K || len == WORDS_2M) && a % len == 0
    ensures a == 4 * (a / 4)
  {
    var k := a / len;
    assert a == len * k;
    if len == WORDS_4K {
      assert a == 4 * (128 * k);
    } else {
      assert a == 4 * (65536 * k);
    }
  }

  /** mman_init on 4 KiB, mman_alloc(32), mman_alloc(4032): nothing listed holds the last
      request, and the area the callback answers it with is too small. */
  lemma OverdrawnReached(a: nat)
    requires a % WORDS_4K == 0
    ensures Padded(32) == 4 && AllocReady(InitMan(a, WORDS_4K), 4, 0, 0)
    ensures var k := ManAlloc(InitMan(a, WORDS_4K), 4, 0, 0).0;
            && ManOk(k) && Padded(4032) == 504 && SmallRequest(504, 0)
            && forall reply :: reply != 0 ==> Outgrown(k.heap, 504, 0, reply)
  {
    hide ManOk, WF, InitMan, Search, ManAlloc, ClassOf;
    var man := InitMan(a, WORDS_4K);
    InitManOk(a, WORDS_4K);
    InitManHeap(a, WORDS_4K);
    InitManBlock(a, WORDS_4K);
    SearchComplete(man.heap, 0, 4, 0);
    assert Fits(man.heap, 0, a + 2, 4, 0);
    ManAllocCorrect(man, 4, 0, 0);
    FirstTaken(man, a);
    var k := ManAlloc(man, 4, 0, 0).0;
    OkWF(k);
    SearchComplete(k.heap, 0, 504, 0);
  }

  lemma OkWF(man: Man)
    requires ManOk(man)
    ensures WF(man.heap, 0)
  {
    hide WF, Coalesced, Flagged, Kinds, Registered;
  }

  // The free block left of the main area after the first 32 bytes.
  lemma FirstTaken(man: Man, a: nat)
    requires AllocReady(man, 4, 0, 0) && Search(man.heap, 0, 4, 0) == a + 2
    requires man.heap.blocks.Keys == {a + 2} && man.heap.blocks[a + 2].w == WORDS_4K - 4
    ensures var g := ManAlloc(man, 4, 0, 0).0.heap;
            forall q :: q in g.blocks && g.blocks[q].free ==> g.blocks[q].w < 504
  {
    hide WF, Coalesced, Flagged, Kinds, Registered, Search, ClassOf, CarveOut, Cuttable;
    var h := man.heap;
    ChosenCuttable(h, 0, 4, 0);
    AllocIsCarve(h, 4, 0);
    CarveOutCarves(Take(h, a + 2), a + 2, 0, 4);
    var g := ManAlloc(man, 4, 0, 0).0.heap;
    forall q | q in g.blocks && g.blocks[q].free ensures g.blocks[q].w < 504 {
      assert q != a + 2 && q != a + 8 ==> SameBlock(Take(h, a + 2), g, q);
    }
  }
}

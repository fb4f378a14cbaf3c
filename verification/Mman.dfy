/** mman.cpp: the multi-area manager, over one array of words that holds every area it is
    ever given.  Addresses are word indexes, so an area is found by masking. */
module MultiAreaManager {
  import opened Basics
  import opened Tags
  import opened Heaps
  import opened Ops
  import opened Reps
  import opened Blocks
  import opened FreeLists
  import opened Carving
  import opened AllocAreas
  import opened Invariants
  import opened ManagerHeaps
  import opened MemoryPool
  import opened Encoding
  import Masks

  // The first part of mman_reqmem: fences, descriptor block, and the rest as a free block.
  method FreshArea(mem: array<nat>, ghost heads: seq<nat>, ghost h: Heap, a: nat, len: nat) returns (p: nat)
    requires WF(h, 0) && Rep(mem[..], heads, h) && Vacant(h, a, len) && a + len <= mem.Length
    requires 16 <= len < MAX_WORDS && len % 2 == 0 && a % 2 == 0
    modifies mem
    ensures p == a + 8 && Rep(mem[..], heads, Grow(h, a, len))
    ensures Undisturbed(old(mem[..]), mem[..], h, 0)
  {
    hide WF, Laid, Homed, Rep, Undisturbed, Vacant, Grow, AddArea, Split, SetFreed, ClassOf, AreaWords, LiveSub;
    ghost var m := mem[..];
    ghost var h1, h2 := GrowPlan(h, a, len);
    AllocareaInit(mem, a, len, a + 2);
    ghost var m1 := mem[..];
    AddAreaRep(m, m1, heads, h, a, len, a + 2);
    p := BlkSplit(mem, heads, h1, a + 2, DESC);
    ghost var m2 := mem[..];
    UndisturbedThrough(m, m1, m2, h, h1, 0, a + 2);
    var w := Hand(mem, heads, h2, a + 2);
    ghost var m3 := mem[..];
    UndisturbedThrough(m, m2, m3, h, h2, 0, 0);
    MarkFreed(mem, heads, h2, p);
    UndisturbedThrough(m, m3, mem[..], h, h2, 0, 0);
  }

  // What an allocation returns is a live block.
  lemma ManAllocLive(man: Man, n: nat, align: nat, reply: nat)
    requires AllocReady(man, n, align, reply)
    ensures var (k, r) := ManAlloc(man, n, align, reply); WF(k.heap, 0) && (r != 0 ==> IsLive(k.heap, r))
  {
    hide WF, Coalesced, Flagged, Kinds, Registered, AllocReady, ManAlloc, Fits;
    ManAllocCorrect(man, n, align, reply);
  }

  // The heaps FreshArea passes through.
  lemma GrowPlan(h: Heap, a: nat, len: nat) returns (h1: Heap, h2: Heap)
    requires WF(h, 0) && Vacant(h, a, len) && 16 <= len < MAX_WORDS && len % 2 == 0 && a % 2 == 0
    ensures Laid(h) && Homed(h) && a !in h.areas && a + 2 !in h.blocks && a + 8 !in h.blocks && 0 !in h.blocks
    ensures h1 == AddArea(h, a, len, a + 2) && Laid(h1) && Homed(h1) && LiveSub(h, h1, 0)
    ensures a + 2 in h1.blocks && h1.blocks[a + 2].home == NOWHERE && h1.blocks[a + 2].w == len - 4 && a + 8 !in h1.blocks
    ensures h2 == Split(h1, a + 2, DESC) && Laid(h2) && Homed(h2) && LiveSub(h, h2, 0)
    ensures IsLive(h2, a + 2) && h2.blocks[a + 2].home == NOWHERE && IsLive(h2, a + 8) && h2.blocks[a + 8].home == NOWHERE
    ensures SetAlloced(h2, a + 2) == h2 && Grow(h, a, len) == SetFreed(h2, a + 8)
  {
    hide Laid, ClassOf, Fence;
    GrowWF(h, a, len);
    h1 := AddArea(h, a, len, a + 2);
    h2 := Split(h1, a + 2, DESC);
  }

  // No block of the large list with p in front passes the test of the search.
  ghost predicate NoneChosen(h: Heap, p: nat, n: nat, align: nat)
    requires |h.lists| == 9
  {
    forall q {:trigger Chosen(h, 0, q, n, align)} :: q == p || q in h.lists[LARGE] ==> !Chosen(h, 0, q, n, align)
  }

  // Node k of the large list with p in front.
  lemma LargeNode(m: seq<nat>, heads: seq<nat>, h: Heap, p: nat, l: seq<nat>, k: nat)
    requires WF(h, p) && Rep(m, heads, h) && InHand(h, p, p) && p != 0 && p < |m| && m[p] == heads[LARGE]
    requires l == [p] + h.lists[LARGE] && k < |l|
    ensures l[k] in h.blocks && l[k] != 0 && h.blocks[l[k]].w < MAX_WORDS && 1 <= l[k] < |m| && SizeOf(m[l[k] - 1]) == h.blocks[l[k]].w
    ensures m[l[k]] == (if k + 1 < |l| then l[k + 1] else 0) && (k + 1 < |l| ==> l[k + 1] != 0)
  {
    hide Laid, ClassOf, Fenced;
    var r := h.lists[LARGE];
    assert Chain(m, heads[LARGE], r);
    if k > 0 {
      assert LinkOk(m, r, k - 1) && r[k - 1] in r;
    }
    if k + 1 < |l| {
      assert r[k] in r;
    }
    NextTag(m, h, l[k]);
    BlockBounded(h, l[k]);
  }

  /** freelist_put on the large list and the freelist_match that follows it: if the fresh block,
      now at the front, is large enough, it is taken at once; if neither it nor any other block
      is, the answer is null. */
  method ListAndMatch(mem: array<nat>, heads: array<nat>, ghost h: Heap, p: nat, n: nat, align: nat) returns (q: nat)
    requires mem != heads && WF(h, p) && Rep(mem[..], heads[..], h) && InHand(h, p, p) && p != 0
    requires |h.lists| == 9 && (n + Skip(0, p, align) <= h.blocks[p].w || NoneChosen(h, p, n, align))
    modifies mem, heads
    ensures n + Skip(0, p, align) <= h.blocks[p].w ==> q == p && Rep(mem[..], heads[..], h) && Undisturbed(old(mem[..]), mem[..], h, p)
    ensures n + Skip(0, p, align) > h.blocks[p].w ==> q == 0
  {
    hide WF, Laid, Homed, Rep, Undisturbed, Tagged, Fenced, Linked, Skip, Matches;
    ghost var m, hs, room := mem[..], heads[..], n + Skip(0, p, align) <= h.blocks[p].w;
    NineHeads(m, hs, h);
    PutTakeRep(m, hs, h, p, LARGE);
    mem[p] := heads[LARGE];
    mem[p + 1] := 0;
    heads[LARGE] := p;
    if mem[p] != 0 {
      mem[mem[p] + 1] := p;
    }
    ghost var m1, l := mem[..], [p] + h.lists[LARGE];
    assert m1 == PutWords(m, hs[LARGE], p);
    q := heads[LARGE];
    ghost var k: nat := 0;
    while q != 0
      invariant mem[..] == m1 && heads[..] == hs[LARGE := p]
      invariant k <= |l| && q == (if k < |l| then l[k] else 0) && (k < |l| ==> l[k] != 0) && (k > 0 ==> !room)
      decreases |l| - k
    {
      LargeNode(m1, hs, h, p, l, k);
      var size := BlkSize(mem, q);
      if room && k == 0 {
        RoomMatches(size, Skip(0, q, align), n, align);
      }
      var fits := Matches(size, Skip(0, q, align), n, align);
      assert fits == Chosen(h, 0, q, n, align);
      if fits {
        assert k == 0;
        heads[LARGE] := mem[q];
        assert heads[..] == hs;
        return;
      }
      q := mem[q];
      k := k + 1;
    }
  }

  lemma NineHeads(m: seq<nat>, heads: seq<nat>, h: Heap)
    requires Rep(m, heads, h)
    ensures |heads| == 9
  {
  }

  // ----- descriptors

  // blk_poolptr
  function BlkPoolPtr(mem: array<nat>, p: nat): nat
    requires 1 <= p < mem.Length
    reads mem
  {
    SizeOf(mem[AreaPtr(p, SizeBit(mem[p - 1]))])
  }

  /** The masked pointer always finds the descriptor of the area the block lies in. */
  lemma PoolPtrRight(m: seq<nat>, heads: seq<nat>, man: Man, p: nat)
    requires ManOk(man) && Rep(m, heads, man.heap) && p in man.heap.blocks
    ensures 1 <= p < |m| && man.heap.blocks[p].area < |m|
    ensures AreaPtr(p, SizeBit(m[p - 1])) == man.heap.blocks[p].area
    ensures SizeOf(m[man.heap.blocks[p].area]) == DescOf(man, man.heap.blocks[p].area)
  {
    hide WF, Coalesced, Flagged, Registered, Fence, Linked;
    var h := man.heap;
    var a := h.blocks[p].area;
    AreaPtrRight(man, p);
    assert TagOk(m, h, p) && FenceOk(m, h, a) && AreaKind(man, a);
    TagBits(h.blocks[p]);
    FenceBits(DescOf(man, a), h.areas[a].len == WORDS_2M);
  }

  // Pointer to the descriptor of the i-th sub-area, null past the end.
  function DescAt(chain: seq<nat>, i: nat): nat {
    if i < |chain| then chain[i] + 2 else 0
  }

  // The descriptor of chain[i]: its area, the bytes counted to it, and the next descriptor.
  ghost predicate DescriptorOk(m: seq<nat>, chain: seq<nat>, counts: map<nat, int>, i: nat)
    requires i < |chain|
  {
    var a := chain[i];
    a in counts && a + 5 < |m| && m[a + 2] == a && m[a + 3] == 8 * counts[a] && m[a + 4] == DescAt(chain, i + 1)
  }

  ghost predicate Descriptors(m: seq<nat>, chain: seq<nat>, counts: map<nat, int>) {
    forall i {:trigger DescriptorOk(m, chain, counts, i)} :: 0 <= i < |chain| ==> DescriptorOk(m, chain, counts, i)
  }

  // Words of user blocks by area.
  ghost function Counts(man: Man): map<nat, int> {
    map a | a in man.heap.areas :: UserWords(man, a)
  }

  ghost function LiveByArea(h: Heap): map<nat, nat> {
    map a | a in h.areas :: LiveWords(h, a)
  }

  ghost function LenByArea(h: Heap): map<nat, nat> {
    map a | a in h.areas :: h.areas[a].len
  }

  // No operation on other blocks disturbs the descriptors.
  lemma DescriptorsCarry(m0: seq<nat>, m1: seq<nat>, man: Man, counts: map<nat, int>, x: nat)
    requires Registered(man) && Descriptors(m0, man.chain, counts) && Undisturbed(m0, m1, man.heap, x)
    requires forall a :: a in man.chain ==> a + 2 != x
    ensures Descriptors(m1, man.chain, counts)
  {
    forall i | 0 <= i < |man.chain| ensures DescriptorOk(m1, man.chain, counts, i) {
      var a := man.chain[i];
      assert a in man.chain && IsLive(man.heap, a + 2);
      assert DescriptorOk(m0, man.chain, counts, i);
      assert PayloadSame(m0, m1, a + 2, man.heap.blocks[a + 2].w);
    }
  }

  // Descriptors of different areas do not share words.
  lemma DescriptorsApart(man: Man, a: nat, b: nat)
    requires Laid(man.heap) && Registered(man) && a in man.chain && b in man.chain && a != b
    ensures a + 6 <= b || b + 6 <= a
  {
    hide Sized, Heaps.Chained, AreasOk;
    assert IsLive(man.heap, a + 2) && IsLive(man.heap, b + 2);
    assert Clear(man.heap, a + 2, b + 2) && Clear(man.heap, b + 2, a + 2);
  }

  // Changing one counter word changes one count.
  lemma CountWord(m: seq<nat>, man: Man, counts: map<nat, int>, a: nat, v: nat)
    requires Laid(man.heap) && Registered(man) && Descriptors(m, man.chain, counts) && a in man.chain && a + 5 < |m|
    requires a in counts
    ensures v % 8 == 0 ==> Descriptors(m[a + 3 := v], man.chain, counts[a := v / 8])
  {
    hide Laid;
    if v % 8 == 0 {
      var m1, counts1 := m[a + 3 := v], counts[a := v / 8];
      forall i | 0 <= i < |man.chain| ensures DescriptorOk(m1, man.chain, counts1, i) {
        assert DescriptorOk(m, man.chain, counts, i);
        var b := man.chain[i];
        if b != a {
          assert b in man.chain;
          DescriptorsApart(man, a, b);
        }
      }
    }
  }

  // Writing the three words of a new descriptor makes it the first of the chain.
  lemma NewDescriptor(m: seq<nat>, man: Man, counts: map<nat, int>, a: nat, h: Heap)
    requires Laid(h) && Registered(man) && Descriptors(m, man.chain, counts) && a !in man.chain && a + 5 < |m|
    requires IsLive(h, a + 2) && h.blocks[a + 2].w == DESC
    requires forall b {:trigger b in man.chain} :: b in man.chain ==> IsLive(h, b + 2) && h.blocks[b + 2].w == DESC
    ensures var m1 := m[a + 2 := a][a + 3 := 0][a + 4 := DescAt(man.chain, 0)];
            Descriptors(m1, [a] + man.chain, counts[a := 0])
  {
    hide Sized, Heaps.Chained, AreasOk;
    var m1, chain1, counts1 := m[a + 2 := a][a + 3 := 0][a + 4 := DescAt(man.chain, 0)], [a] + man.chain, counts[a := 0];
    forall i | 0 <= i < |chain1| ensures DescriptorOk(m1, chain1, counts1, i) {
      if i > 0 {
        assert DescriptorOk(m, man.chain, counts, i - 1);
        var b := man.chain[i - 1];
        assert b in man.chain;
        assert Clear(h, a + 2, b + 2) && Clear(h, b + 2, a + 2);
      }
    }
  }

  // The counts after one more user block.
  lemma CountsAfter(man: Man, k: Man, r: nat, n: nat, counts: map<nat, int>)
    requires UserAdded(man, k, r, n) && k.heap.blocks[r].area in k.heap.areas
    requires counts.Keys == k.heap.areas.Keys
    requires forall a :: a in counts ==> counts[a] == if a in man.heap.areas then UserWords(man, a) else 0
    ensures var c := k.heap.blocks[r].area; Counts(k) == counts[c := counts[c] + k.heap.blocks[r].w]
  {
    hide LiveWords;
    forall a | a in k.heap.areas ensures Counts(k)[a] == counts[a] + if k.heap.blocks[r].area == a then k.heap.blocks[r].w else 0 {
      assert UserWords(k, a) == UserWords(k, a);
    }
  }

  lemma FreshCounts(man: Man, k: Man, r: nat, n: nat, a: nat, len: nat)
    requires UserAdded(man, k, r, n) && k.heap.blocks[r].area == a && a !in man.heap.areas
    requires k.heap.areas == man.heap.areas[a := Area(len, Fence(a + 2, len == WORDS_2M))]
    ensures Counts(k) == Counts(man)[a := 0][a := k.heap.blocks[r].w]
  {
    hide UserWords, UserAdded, Fence;
    CountsAfter(man, k, r, n, Counts(man)[a := 0]);
  }

  class Manager {
    const heads: array<nat>
    var mem: array<nat>
    var mainAlloced: nat
    var mainNext: nat
    var size: nat
    var allocedSize: nat
    var hasDelmem: bool
    ghost var man: Man

    constructor ()
      ensures fresh(heads) && heads.Length == 9
    {
      heads := new nat[9];
      mem := new nat[0];
      mainAlloced, mainNext, size, allocedSize, hasDelmem := 0, 0, 0, 0, false;
      man := Man(Heap(map[], map[], []), 0, []);
    }

    /** mman_init with the main area at word a (0 for NULL) of `memory`. */
    method Init(memory: array<nat>, a: nat, bytes: nat) returns (ok: bool)
      requires memory != heads && heads.Length == 9
      requires a != 0 && (bytes == 8 * WORDS_2M || bytes == 8 * WORDS_4K) ==> a % (bytes / 8) == 0 && a + bytes / 8 <= memory.Length
      modifies this, memory, heads
      ensures ok <==> a != 0 && (bytes == 8 * WORDS_2M || bytes == 8 * WORDS_4K)
      ensures ok ==> Valid() && mem == memory && man == InitMan(a, bytes / 8) && size == bytes && allocedSize == 0 && !hasDelmem
    {
      hide ManOk, WF, Rep, Descriptors, Total, LiveWords, InitMan;
      if a == 0 || (bytes != 8 * WORDS_2M && bytes != 8 * WORDS_4K) {
        return false;
      }
      var len := bytes / 8;
      mem, mainAlloced, mainNext, size, allocedSize, hasDelmem := memory, 0, 0, bytes, 0, false;
      var i := 0;
      while i < 9
        modifies heads
        invariant 0 <= i <= 9 && forall j :: 0 <= j < i ==> heads[j] == 0
      {
        heads[i] := 0;
        i := i + 1;
      }
      FirstArea(memory, heads, a, len);
      man := InitMan(a, len);
      InitManOk(a, len);
      NoDescriptors(memory[..], man);
      return true;
    }

    // mman_setcb, as far as cb_delmem goes
    method SetDelmem(present: bool)
      requires Valid()
      modifies this`hasDelmem
      ensures Valid() && hasDelmem == present
    {
      hasDelmem := present;
    }

    // Tags, lists and descriptor words represent man.
    ghost predicate Represents(counts: map<nat, int>)
      reads this, mem, heads
    {
      && mem != heads && heads.Length == 9
      && Rep(mem[..], heads[..], man.heap) && Descriptors(mem[..], man.chain, counts)
      && mainNext == DescAt(man.chain, 0) && man.main in counts && mainAlloced == 8 * counts[man.main]
    }

    ghost predicate Valid()
      reads this, mem, heads
    {
      && ManOk(man) && Represents(Counts(man))
      && size == 8 * Total(LenByArea(man.heap))
      && allocedSize + 8 * DESC * |man.chain| == 8 * Total(LiveByArea(man.heap))
    }

    // pool->alloced_size += size, man->alloced_size += size
    method CountUp(q: nat, w: nat, ghost counts: map<nat, int>)
      requires ManOk(man) && Represents(counts) && IsLive(man.heap, q)
      requires man.heap.blocks[q].area in counts
      modifies this`mainAlloced, this`allocedSize, mem
      ensures allocedSize == old(allocedSize) + 8 * w
      ensures var c := man.heap.blocks[q].area; Represents(counts[c := counts[c] + w])
      ensures Undisturbed(old(mem[..]), mem[..], man.heap, if man.heap.blocks[q].area == man.main then 0 else man.heap.blocks[q].area + 2)
    {
      hide WF, Coalesced, Flagged, Kinds, Rep, Undisturbed, Descriptors, Registered, AreaPtr, Fence;
      ghost var m := mem[..];
      ghost var c := man.heap.blocks[q].area;
      PoolPtrRight(m, heads[..], man, q);
      SelfUndisturbedRep(m, heads[..], man.heap, man.heap, 0) by { LiveSubSelf(man.heap, 0); }
      var pool := BlkPoolPtr(mem, q);
      if pool == MAIN {
        mainAlloced := mainAlloced + 8 * w;
        DescriptorsRecount(m, man, counts, counts[c := counts[c] + w]);
      } else {
        ghost var v := CountReady(m, heads[..], man, counts, q, w);
        mem[pool + 1] := mem[pool + 1] + 8 * w;
        assert mem[..] == m[c + 3 := v];
      }
      allocedSize := allocedSize + 8 * w;
    }

    // The callback's memory is part of the managed words.
    ghost predicate Inside(n: nat, align: nat, reply: nat)
      reads this`mem
    {
      reply != 0 ==> reply + AreaFor(n, align) <= mem.Length
    }

    ghost predicate Room(n: nat, align: nat, reply: nat)
      reads this
    {
      Askable(man, n, align, reply) && Inside(n, align, reply)
    }

    // The block p found by the search has been taken off its list: cut it and count it.
    method UseFound(p: nat, n: nat, align: nat, reply: nat) returns (ptr: nat)
      requires ManOk(man) && AllocReady(man, n, align, reply) && p == Search(man.heap, 0, n, align) && p != 0
      requires mem != heads && heads.Length == 9 && p in man.heap.blocks && man.heap.blocks[p].home < |man.heap.lists|
      requires Rep(mem[..], heads[..], Take(man.heap, p)) && Descriptors(mem[..], man.chain, Counts(man))
      requires mainNext == DescAt(man.chain, 0) && mainAlloced == 8 * UserWords(man, man.main)
      requires size == 8 * Total(LenByArea(man.heap))
      requires allocedSize + 8 * DESC * |man.chain| == 8 * Total(LiveByArea(man.heap))
      modifies this`man, this`mainAlloced, this`allocedSize, mem, heads
      ensures Valid() && (man, ptr) == ManAlloc(old(man), n, align, reply)
      ensures UsersSame(old(mem[..]), mem[..], old(man), 0)
    {
      hide WF, Coalesced, Flagged, Kinds, Rep, Undisturbed, Descriptors, Registered, ManAlloc, UserAdded, Search,
           Skip, Cuttable, CutsFresh, CarveOut, AllocReady, Total, LiveWords, UserWords, UsersSame;
      ghost var m, man0 := mem[..], man;
      var off := Skip(0, p, align);
      ghost var h0 := Take(man.heap, p);
      ghost var k := FoundPlan(man, n, align, reply, p, off);
      var w;
      ptr, w := Carve(mem, heads, h0, p, off, n);
      ghost var m1 := mem[..];
      FoundCarry(m, m1, man0, h0);
      man := k;
      CountUp(ptr, w, Counts(man0));
      CountsAfterFound(man0, k, ptr, n);
      FoundTotals(man0, k, ptr, n);
      CountUsers(m, m1, mem[..], man0, k, ptr, n);
    }

    /** mman_reqmem and the search that follows it: a new area at `reply`, registered in front
        of the chain, whose free block serves the request unless it is too small. */
    method UseFresh(n: nat, align: nat, reply: nat) returns (ptr: nat, fault: bool)
      requires Valid() && Room(n, align, reply) && Search(man.heap, 0, n, align) == 0 && reply != 0
      modifies this`man, this`mainAlloced, this`mainNext, this`size, this`allocedSize, mem, heads
      ensures fault <==> Overdrawn(n, align)
      ensures fault ==> ptr == 0
      ensures !fault ==> old(AllocReady(man, n, align, reply)) && Valid() && (man, ptr) == ManAlloc(old(man), n, align, reply)
      ensures !fault ==> UsersSame(old(mem[..]), mem[..], old(man), 0)
      ensures LeastArea(size - old(size), 8 * n, align)
    {
      hide ManOk, WF, Rep, Undisturbed, Descriptors, ManAlloc, UserAdded, Search, Skip, Cuttable, CutsFresh,
           CarveOut, Total, LiveByArea, LenByArea, Counts, UsersSame, Vacant, Grow, AreaFor, Registered,
           Laid, Homed, InHand, Overdrawn, NoneChosen, ReplyOk, SmallRequest, LeastArea, AddArea, Split, SetFreed, Fence,
           UserWords, IsLive, AllocReady, Askable, Separable, Outgrown, LiveWords, Total, PayloadSame, Tagged, Fenced, Linked;
      ghost var m, man0 := mem[..], man;
      var len := AreaFor(n, align);
      var off := Skip(0, reply + 8, align);
      ghost var g := FreshGround(man, n, align, reply, len, off);
      var p := FreshArea(mem, heads[..], man.heap, reply, len);
      size := size + 8 * len;
      ghost var m1 := mem[..];
      mem[reply + 2] := reply;
      mem[reply + 3] := 0;
      mem[reply + 4] := mainNext;
      mainNext := reply + 2;
      FreshDescriptor(m, m1, mem[..], heads[..], man0, g, reply, len, [reply] + man0.chain);
      ghost var m2 := mem[..];
      p := ListAndMatch(mem, heads, g, p, n, align);
      if p == 0 {
        return 0, true;
      }
      ghost var m3 := mem[..];
      FreshReady(man0, n, align, reply);
      ghost var k := FreshPlan(man0, n, align, reply, len, off);
      var w;
      ptr, w := Carve(mem, heads, g, p, off, n);
      FreshCarry(m, m2, m3, mem[..], man0, g, reply, len, k, ptr, n);
      ghost var m4 := mem[..];
      man := k;
      CountUp(ptr, w, Counts(man0)[reply := 0]);
      FreshCounts(man0, k, ptr, n, reply, len);
      FreshTotals(man0, k, ptr, n, reply, len);
      CountUsers(m, m4, mem[..], man0, k, ptr, n);
      fault := false;
    }

    // pool->alloced_size -= size, man->alloced_size -= size
    method CountDown(q: nat, w: nat, ghost counts: map<nat, int>)
      requires ManOk(man) && Represents(counts) && IsLive(man.heap, q)
      requires man.heap.blocks[q].area in counts && counts[man.heap.blocks[q].area] >= w && allocedSize >= 8 * w
      modifies this`mainAlloced, this`allocedSize, mem
      ensures allocedSize == old(allocedSize) - 8 * w
      ensures var c := man.heap.blocks[q].area; Represents(counts[c := counts[c] - w])
      ensures Undisturbed(old(mem[..]), mem[..], man.heap, if man.heap.blocks[q].area == man.main then 0 else man.heap.blocks[q].area + 2)
    {
      hide WF, Coalesced, Flagged, Kinds, Rep, Undisturbed, Descriptors, Registered, AreaPtr, Fence;
      ghost var m := mem[..];
      ghost var c := man.heap.blocks[q].area;
      PoolPtrRight(m, heads[..], man, q);
      SelfUndisturbedRep(m, heads[..], man.heap, man.heap, 0) by { LiveSubSelf(man.heap, 0); }
      var pool := BlkPoolPtr(mem, q);
      if pool == MAIN {
        mainAlloced := mainAlloced - 8 * w;
        DescriptorsRecount(m, man, counts, counts[c := counts[c] - w]);
      } else {
        ghost var back: int := w;
        ghost var v := CountReady(m, heads[..], man, counts, q, -back);
        mem[pool + 1] := mem[pool + 1] - 8 * w;
        assert mem[..] == m[c + 3 := v];
      }
      allocedSize := allocedSize - 8 * w;
    }

    // prev->next, where prev is &man->main or a descriptor
    function NextPool(prev: nat): nat
      requires prev + 2 < mem.Length
      reads this, mem
    {
      if prev == MAIN then mainNext else mem[prev + 2]
    }

    /** The loop and the unlinking of mman_delmem: afterwards the chain is the old one without
        the area of the descriptor `pool`. */
    method Unlink(pool: nat, ghost counts: map<nat, int>) returns (found: bool, ghost x: nat)
      requires WF(man.heap, 0) && Registered(man) && Represents(counts) && pool >= 2 && pool - 2 in man.chain
      modifies this`man, this`mainNext, mem
      ensures found && man == old(man).(chain := Without(old(man).chain, pool - 2)) && Represents(counts)
      ensures pool < mem.Length && mem[pool] == pool - 2
      ensures Undisturbed(old(mem[..]), mem[..], man.heap, x) && (x == 0 || (x >= 2 && x - 2 in old(man).chain))
    {
      hide WF, Laid, Rep, Undisturbed;
      ghost var m, man0 := mem[..], man;
      ghost var a := pool - 2;
      ghost var j :| 0 <= j < |man.chain| && man.chain[j] == a;
      ghost var i := -1;
      SelfUndisturbedRep(m, heads[..], man.heap, man.heap, 0) by { LiveSubSelf(man.heap, 0); }
      assert DescriptorOk(m, man.chain, counts, j);
      var prev := MAIN;
      while prev != 0 && NextPool(prev) != pool
        invariant -1 <= i < j && prev == (if i < 0 then MAIN else man.chain[i] + 2) && prev + 2 < mem.Length
        invariant NextPool(prev) == DescAt(man.chain, i + 1)
        decreases j - i
      {
        prev := NextPool(prev);
        i := i + 1;
        assert DescriptorOk(m, man.chain, counts, i);
      }
      assert i + 1 == j;
      var next := mem[pool + 2];
      UnlinkWords(m, heads[..], man0, counts, j);
      if prev == MAIN {
        mainNext := next;
      } else {
        mem[prev + 2] := next;
      }
      man := man.(chain := Without(man.chain, a));
      return true, if prev == MAIN then 0 else prev;
    }

    /** The search, and a new area if nothing fits: the common body of the allocation calls.
        `fault` is the use of the null pointer that the second search answers with when the new
        area is too small.  Otherwise what is returned is a live block of a well-formed heap
        exactly if the block found does not start 16 bytes in front of its aligned payload. */
    method AllocWords(n: nat, align: nat, reply: nat) returns (ptr: nat, fault: bool)
      requires Valid() && Room(n, align, reply)
      modifies this`man, this`mainAlloced, this`mainNext, this`size, this`allocedSize, mem, heads
      ensures fault <==> old(Outgrown(man.heap, n, align, reply))
      ensures old(AllocReady(man, n, align, reply)) ==>
                && Valid() && (man, ptr) == ManAlloc(old(man), n, align, reply)
                && UsersSame(old(mem[..]), mem[..], old(man), 0)
      ensures ptr != 0 ==> (old(Separable(man.heap, 0, n, align)) <==> Represented(mem[..], ptr))
      ensures ptr == 0 ==> old(Separable(man.heap, 0, n, align))
      ensures if old(Search(man.heap, 0, n, align)) == 0 && reply != 0 then LeastArea(size - old(size), 8 * n, align)
              else size == old(size)
    {
      hide LeastArea, WF, Coalesced, Flagged, Kinds, Undisturbed, Descriptors, Registered, Search, Skip, Total, LiveWords,
           UsersSame, Tagged, Fenced, Linked, AllocFresh, Ops.Alloc, Represented, UserAdded, Fits, Overdrawn;
      ghost var m := mem[..];
      SelfUsers(m, heads[..], man);
      SmallIsRequest(n, align);
      AllocCorrectIf(man.heap, 0, n, align);
      var p := Match(mem, heads, man.heap, 0, n, align);
      fault := false;
      if p != 0 {
        if Skip(0, p, align) == 2 {
          SixteenReady(man.heap, 0, n, align);
          // The size counted is 0: no counter changes, whichever descriptor the masked pointer
          // of the destroyed tag leads to.
          var w;
          ptr, w := CutSixteen(mem, heads, Take(man.heap, p), p, n);
          return;
        }
        ghost var m1 := mem[..];
        MatchCarry(m, m1, man);
        ptr := UseFound(p, n, align, reply);
        UsersTrans(m, m1, mem[..], old(man));
      } else if reply == 0 {
        ptr := 0;
      } else {
        ptr, fault := UseFresh(n, align, reply);
      }
      if ptr != 0 {
        ManAllocLive(old(man), n, align, reply);
        IsRepresented(mem[..], heads[..], man.heap, ptr);
      }
    }

    /** mman_alloc for requests below 16 KiB; `reply` is what cb_reqmem returns if it is
        called. */
    method Alloc(bytes: nat, reply: nat) returns (ptr: nat, fault: bool)
      requires Valid() && bytes <= MAX_SMALL && Room(Padded(bytes), 0, reply)
      modifies this`man, this`mainAlloced, this`mainNext, this`size, this`allocedSize, mem, heads
      ensures fault <==> old(Outgrown(man.heap, Padded(bytes), 0, reply))
      ensures !fault ==>
                && old(AllocReady(man, Padded(bytes), 0, reply))
                && Valid() && (man, ptr) == ManAlloc(old(man), Padded(bytes), 0, reply)
                && UsersSame(old(mem[..]), mem[..], old(man), 0)
      ensures if old(Search(man.heap, 0, Padded(bytes), 0)) == 0 && reply != 0 then LeastArea(size - old(size), 8 * Padded(bytes), 0)
              else size == old(size)
    {
      hide ManOk, LeastArea, Search, UsersSame, ReplyOk, Represented;
      NoSkip(man.heap, 0, Padded(bytes));
      ptr, fault := AllocWords(Padded(bytes), 0, reply);
    }

    /** mman_aligned_alloc for requests and alignments below 16 KiB. */
    method AlignedAlloc(bytes: nat, align: nat, reply: nat) returns (ptr: nat, fault: bool)
      requires Valid() && bytes <= MAX_SMALL && align < 16384
      requires PowerOfTwo(align) ==> Room(Padded(bytes), AlignOf(align), reply)
      modifies this`man, this`mainAlloced, this`mainNext, this`size, this`allocedSize, mem, heads
      ensures !PowerOfTwo(align) ==>
                Valid() && man == old(man) && ptr == 0 && !fault && UsersSame(old(mem[..]), mem[..], old(man), 0)
      ensures PowerOfTwo(align) ==>
                var n, al := Padded(bytes), AlignOf(align);
                && (fault <==> old(Outgrown(man.heap, n, al, reply)))
                && (old(AllocReady(man, n, al, reply)) ==>
                      && Valid() && (man, ptr) == ManAlloc(old(man), n, al, reply)
                      && UsersSame(old(mem[..]), mem[..], old(man), 0))
                && (ptr != 0 ==> (old(Separable(man.heap, 0, n, al)) <==> Represented(mem[..], ptr)))
                && (ptr == 0 ==> old(Separable(man.heap, 0, n, al)))
                && if old(Search(man.heap, 0, n, al)) == 0 && reply != 0 then LeastArea(size - old(size), 8 * n, al) else size == old(size)
    {
      hide ManOk, Represented, UsersSame, Separable, Outgrown, LeastArea, Search, AllocReady, ManAlloc, ReplyOk, SmallRequest,
           Rep, Descriptors, Total, LiveWords, PowerOfTwo, Padded, Counts, DescAt, UserWords;
      SelfUsers(mem[..], heads[..], man);
      PowerTest(align);
      if Masks.And(align, Sub64(align, 1)) != 0 {
        return 0, false;
      }
      if align < 16 {
        NoSkip(man.heap, 0, Padded(bytes));
        ptr, fault := AllocWords(Padded(bytes), 0, reply);
        return;
      }
      ptr, fault := AllocWords(Padded(bytes), align, reply);
    }

    // The common state of both ends of mman_free: p is counted out and merged into q, which is
    // neither free nor listed.
    ghost predicate Merging(man0: Man, p: nat, g: Heap, q: nat)
      reads this, mem, heads
      requires ManOk(man0) && IsUser(man0, p)
    {
      && (g, q) == TryMerge(man0.heap, p) && man == man0.(heap := g)
      && Represents(CountsWithout(man0, p))
      && size == 8 * Total(LenByArea(man0.heap))
      && allocedSize + 8 * DESC * |man0.chain| + 8 * man0.heap.blocks[p].w == 8 * Total(LiveByArea(man0.heap))
    }

    // mman_delmem, with its callback set: the emptied area leaves the chain and the heap.
    method GiveBack(pool: nat, ghost man0: Man, ghost p: nat, ghost g: Heap, ghost q: nat)
      requires ManOk(man0) && IsUser(man0, p) && Merging(man0, p, g, q) && LastUser(man0, p)
      requires pool == man0.heap.blocks[p].area + 2
      modifies this`man, this`mainNext, this`size, mem
      ensures Valid() && man == ManFree(man0, p, true)
      ensures UsersSame(old(mem[..]), mem[..], man0, p)
    {
      hide ManOk, WF, Rep, Undisturbed, Total, LiveWords, UserWords, UsersSame, TryMerge, LastUser, DropArea,
           Descriptors, Registered, Laid;
      ghost var m := mem[..];
      ghost var a := pool - 2;
      ghost var counts := CountsWithout(man0, p);
      DropPlan(m, heads[..], man0, p, g, q);
      var found, x := Unlink(pool, counts);
      ghost var m1 := mem[..];
      AreaFlagWord(m1, heads[..], man0, g, a);
      var bytes := if SizeBit(mem[mem[pool]]) then 8 * WORDS_2M else 8 * WORDS_4K;
      size := size - bytes;
      man := ManFree(man0, p, true);
      DropRep(m1, heads[..], man0, p, g, q, man);
      DropCounts(m1, man0, man, p, counts);
      DropTotals(man0, man, p);
      DropUsers(m, m1, man0, p, g, q, x);
    }

    // do_free: the merged block goes on the list of its class.
    method KeepArea(q: nat, ghost man0: Man, ghost p: nat, ghost g: Heap)
      requires ManOk(man0) && IsUser(man0, p) && Merging(man0, p, g, q)
      requires !Drops(man0, p, hasDelmem)
      modifies this`man, mem, heads
      ensures Valid() && man == ManFree(man0, p, hasDelmem)
      ensures UsersSame(old(mem[..]), mem[..], man0, p)
    {
      hide ManOk, WF, Rep, Undisturbed, Total, LiveWords, UserWords, UsersSame, TryMerge, DropArea, Descriptors,
           Registered, Ops.Free, LiveSub, Drops;
      ghost var m := mem[..];
      ghost var counts := CountsWithout(man0, p);
      KeepPlan(man0, p, g, q, hasDelmem);
      DoFree(mem, heads, g, q);
      KeepCarry(m, mem[..], man0, p, g, q, counts);
      man := ManFree(man0, p, hasDelmem);
      KeepCounts(mem[..], man0, man, p, counts);
      KeepTotals(man0, man, p);
    }

    /** mman_free: the null pointer is ignored; with no large blocks around the search for
        one finds nothing.  The block is counted out of its area and merged; if it was the
        last user block of a sub-area and there is a callback, the area is handed back,
        otherwise the merged block is listed.  No other user block's payload changes. */
    method Free(ptr: nat)
      requires Valid() && (ptr == 0 || IsUser(man, ptr))
      modifies this`man, this`mainAlloced, this`mainNext, this`size, this`allocedSize, mem, heads
      ensures Valid()
      ensures ptr == 0 ==> man == old(man) && mem[..] == old(mem[..])
      ensures ptr != 0 ==> man == ManFree(old(man), ptr, hasDelmem) && UsersSame(old(mem[..]), mem[..], old(man), ptr)
    {
      hide ManOk, WF, Rep, Undisturbed, Total, LiveWords, UserWords, UsersSame, TryMerge, DropArea, Descriptors,
           Registered, LiveSub, AreaPtr, Fence, Counts, ManFree, Drops, LastUser, CountsWithout;
      if ptr == 0 {
        return;
      }
      ghost var man0, m := man, mem[..];
      FreeReady(m, heads[..], man0, ptr, allocedSize);
      var w := BlkSize(mem, ptr);
      var pool := BlkPoolPtr(mem, ptr);
      CountDown(ptr, w, Counts(man0));
      ghost var m1 := mem[..];
      var q := BlkTryMerge(mem, heads, man.heap, ptr);
      ghost var g := TryMerge(man0.heap, ptr).0;
      ghost var m2 := mem[..];
      man := man0.(heap := g);
      MergeCarry(m1, m2, man0, ptr, g);
      MergeUsers(m, m1, m2, man0, ptr);
      if pool != MAIN {
        PoolCounter(m2, man0, ptr, hasDelmem);
        if mem[pool + 1] == 0 && hasDelmem {
          GiveBack(pool, man0, ptr, g, q);
          UsersSameTrans(m, m2, mem[..], man0, ptr);
          return;
        }
      } else {
        MainStays(man0, ptr, hasDelmem);
      }
      KeepArea(q, man0, ptr, g);
      UsersSameTrans(m, m2, mem[..], man0, ptr);
    }
  }

  // Counts of the main area are not kept in a descriptor word.
  lemma DescriptorsRecount(m: seq<nat>, man: Man, counts: map<nat, int>, counts1: map<nat, int>)
    requires Registered(man) && Descriptors(m, man.chain, counts)
    requires forall a :: a in counts && a != man.main ==> a in counts1 && counts1[a] == counts[a]
    ensures Descriptors(m, man.chain, counts1)
  {
    forall i | 0 <= i < |man.chain| ensures DescriptorOk(m, man.chain, counts1, i) {
      assert man.chain[i] in man.chain;
      assert DescriptorOk(m, man.chain, counts, i);
    }
  }

  lemma CountReady(m: seq<nat>, heads: seq<nat>, man: Man, counts: map<nat, int>, q: nat, w: int) returns (v: nat)
    requires ManOk(man) && Rep(m, heads, man.heap) && Descriptors(m, man.chain, counts) && IsLive(man.heap, q)
    requires man.heap.blocks[q].area in counts && DescOf(man, man.heap.blocks[q].area) != MAIN
    requires w >= 0 || counts[man.heap.blocks[q].area] + w >= 0
    ensures var c := man.heap.blocks[q].area;
            && c != man.main && c + 5 < |m| && m[c + 3] == 8 * counts[c] && v == 8 * (counts[c] + w)
            && Rep(m[c + 3 := v], heads, man.heap)
            && Descriptors(m[c + 3 := v], man.chain, counts[c := counts[c] + w])
            && Undisturbed(m, m[c + 3 := v], man.heap, c + 2)
  {
    hide Laid, Homed, Listed, ClassOf, Coalesced, Flagged, Kinds, Rep, Undisturbed;
    var h := man.heap;
    var c := h.blocks[q].area;
    UserArea(man, q);
    var i :| 0 <= i < |man.chain| && man.chain[i] == c;
    assert DescriptorOk(m, man.chain, counts, i);
    v := m[c + 3] + 8 * w;
    CountWord(m, man, counts, c, v);
    HomeOfLive(h, c + 2);
    PayloadRep(m, m[c + 3 := v], heads, h, c + 2);
  }

  // The payload of no user block other than x has changed.
  ghost predicate UsersSame(m0: seq<nat>, m1: seq<nat>, man: Man, x: nat) {
    |m1| == |m0| &&
    forall q {:trigger PayloadSame(m0, m1, q, man.heap.blocks[q].w)} ::
      IsUser(man, q) && q != x ==> PayloadSame(m0, m1, q, man.heap.blocks[q].w)
  }

  lemma FoundPlan(man: Man, n: nat, align: nat, reply: nat, p: nat, off: nat) returns (k: Man)
    requires ManOk(man) && AllocReady(man, n, align, reply) && p == Search(man.heap, 0, n, align) && p != 0
    requires p in man.heap.blocks && man.heap.blocks[p].home < |man.heap.lists| && off == Skip(0, p, align)
    ensures Cuttable(Take(man.heap, p), p, off, n) && CutsFresh(Take(man.heap, p), p, off, n)
    ensures k == man.(heap := CarveOut(Take(man.heap, p), p, off, n)) && ManAlloc(man, n, align, reply) == (k, p + off)
    ensures ManOk(k) && UserAdded(man, k, p + off, n) && IsLive(k.heap, p + off) && k.heap.areas == man.heap.areas
    ensures k.heap.blocks[p + off].area in man.heap.areas && man.main in man.heap.areas
    ensures UserWords(man, man.main) == Counts(man)[man.main]
  {
    hide WF, Coalesced, Flagged, Kinds, Search, Skip, CarveOut, Cuttable, LiveWords, Separable;
    SmallIsRequest(n, align);
    ChosenCuttable(man.heap, 0, n, align);
    AllocFound(man, n, align, reply);
    AllocIsCarve(man.heap, n, align);
    k := ManAlloc(man, n, align, reply).0;
    HasDescriptor(man, k.heap, p + off);
  }

  lemma AllocIsCarve(h: Heap, n: nat, align: nat)
    requires WF(h, 0) && Request(0, n, align) && Search(h, 0, n, align) != 0
    requires var p := Search(h, 0, n, align);
             p in h.blocks && h.blocks[p].home < |h.lists| &&
             Cuttable(Take(h, p), p, Skip(0, p, align), n) && CutsFresh(Take(h, p), p, Skip(0, p, align), n)
    ensures var p := Search(h, 0, n, align);
            Alloc(h, 0, n, align) == (CarveOut(Take(h, p), p, Skip(0, p, align), n), p + Skip(0, p, align))
  {
    hide WF, ClassOf, Search, Cuttable, CarveOut, Skip;
  }

  lemma FoundCarry(m: seq<nat>, m1: seq<nat>, man: Man, h0: Heap)
    requires ManOk(man) && Descriptors(m, man.chain, Counts(man)) && Undisturbed(m, m1, h0, 0)
    requires exists p :: p in man.heap.blocks && man.heap.blocks[p].home < |man.heap.lists| && h0 == Take(man.heap, p)
    ensures Descriptors(m1, man.chain, Counts(man)) && Undisturbed(m, m1, man.heap, 0)
  {
    hide WF, Coalesced, Flagged, Kinds, Descriptors, Counts;
    forall q | q in man.heap.blocks && !man.heap.blocks[q].free && q != 0 ensures PayloadSame(m, m1, q, man.heap.blocks[q].w) {
      assert PayloadSame(m, m1, q, h0.blocks[q].w);
    }
    DescriptorsCarry(m, m1, man, Counts(man), 0);
  }

  lemma CountsAfterFound(man: Man, k: Man, r: nat, n: nat)
    requires UserAdded(man, k, r, n) && k.heap.areas == man.heap.areas && k.heap.blocks[r].area in k.heap.areas
    ensures var c := k.heap.blocks[r].area; Counts(k) == Counts(man)[c := Counts(man)[c] + k.heap.blocks[r].w]
  {
    CountsAfter(man, k, r, n, Counts(man));
  }

  lemma TotalUpdate(m: map<nat, nat>, k: nat, v: nat)
    requires k in m
    ensures Total(m[k := v]) + m[k] == Total(m) + v
  {
    hide Total;
    TotalRemove(m, k);
    TotalRemove(m[k := v], k);
    assert m[k := v] - {k} == m - {k};
  }

  lemma FoundTotals(man: Man, k: Man, r: nat, n: nat)
    requires UserAdded(man, k, r, n) && k.heap.areas == man.heap.areas && k.heap.blocks[r].area in k.heap.areas
    ensures Total(LenByArea(k.heap)) == Total(LenByArea(man.heap))
    ensures Total(LiveByArea(k.heap)) == Total(LiveByArea(man.heap)) + k.heap.blocks[r].w
  {
    hide Total, LiveWords;
    var c, w := k.heap.blocks[r].area, k.heap.blocks[r].w;
    var m := LiveByArea(man.heap);
    forall a | a in k.heap.areas ensures LiveWords(k.heap, a) == LiveWords(man.heap, a) + if a == c then w else 0 {
      assert UserWords(k, a) == UserWords(man, a) + if a == c then w else 0;
    }
    assert LiveByArea(k.heap) == m[c := m[c] + w];
    TotalUpdate(m, c, m[c] + w);
    assert LenByArea(k.heap) == LenByArea(man.heap);
  }

  // Counting only writes descriptor words, so user payloads stay.
  lemma CountUsers(m: seq<nat>, m1: seq<nat>, m2: seq<nat>, man: Man, k: Man, r: nat, n: nat)
    requires Undisturbed(m, m1, man.heap, 0) && UserAdded(man, k, r, n)
    requires Undisturbed(m1, m2, k.heap, if k.heap.blocks[r].area == k.main then 0 else k.heap.blocks[r].area + 2)
    requires ManOk(k) && ManOk(man)
    ensures UsersSame(m, m2, man, 0)
  {
    hide ManOk, UserWords;
    if k.heap.blocks[r].area != k.main {
      UserArea(k, r);
    }
    forall q | IsUser(man, q) && q != 0 ensures PayloadSame(m, m2, q, man.heap.blocks[q].w) {
      assert PayloadSame(m, m1, q, man.heap.blocks[q].w);
      assert IsUser(k, q) && SameBlock(man.heap, k.heap, q);
      UserNotDescriptor(k, q);
      assert PayloadSame(m1, m2, q, k.heap.blocks[q].w);
    }
  }

  lemma FreshReady(man: Man, n: nat, align: nat, reply: nat)
    requires Askable(man, n, align, reply) && Search(man.heap, 0, n, align) == 0 && !Overdrawn(n, align)
    ensures AllocReady(man, n, align, reply)
  {
    hide Search, ManOk, Overdrawn;
  }

  // The new area and its block, and when the block holds the request.
  lemma FreshGround(man: Man, n: nat, align: nat, reply: nat, len: nat, off: nat) returns (g: Heap)
    requires Askable(man, n, align, reply) && reply != 0 && len == AreaFor(n, align) && off == Skip(0, reply + 8, align)
    ensures 16 <= len < MAX_WORDS && len % 2 == 0 && reply % 2 == 0 && WF(man.heap, 0) && Vacant(man.heap, reply, len)
    ensures g == Grow(man.heap, reply, len) && WF(g, reply + 8) && InHand(g, reply + 8, reply + 8) && |g.lists| == 9
    ensures reply !in man.heap.areas && reply + 2 !in man.heap.blocks && reply + 8 !in man.heap.blocks
    ensures Registered(man) && 0 !in man.heap.blocks && LeastArea(8 * len, 8 * n, align)
    ensures n + off <= g.blocks[reply + 8].w <==> !Overdrawn(n, align)
    ensures Search(man.heap, 0, n, align) == 0 && Overdrawn(n, align) ==> NoneChosen(g, reply + 8, n, align)
  {
    hide Laid, Homed, ClassOf, Coalesced, Flagged, Kinds, Search, Skip, Fence, AreaFor, Vacant, Grow, NoneChosen, LeastArea;
    NineLists(man.heap);
    AreaForSizes(n, align);
    AreaForLeast(n, align);
    EvenArea(reply, len);
    GrowWF(man.heap, reply, len);
    GrowShape(man.heap, reply, len);
    FreshFits(n, align, reply);
    g := Grow(man.heap, reply, len);
    if Search(man.heap, 0, n, align) == 0 && Overdrawn(n, align) {
      FreshMiss(man.heap, g, reply + 8, n, align);
    }
  }

  lemma FreshMiss(h: Heap, g: Heap, p: nat, n: nat, align: nat)
    requires WF(h, 0) && Search(h, 0, n, align) == 0 && g.lists == h.lists && |g.lists| == 9
    requires p in g.blocks && g.blocks[p].w < n && align == 0
    requires forall q {:trigger q in h.blocks} :: q in h.blocks ==> q in g.blocks && g.blocks[q] == h.blocks[q]
    ensures NoneChosen(g, p, n, align)
  {
    hide Laid, Listed, ClassOf, SearchFrom;
    SearchFromSound(h, 0, ClassOf(n), n, align);
    forall q | q == p || q in g.lists[LARGE] ensures !Chosen(g, 0, q, n, align) {
      if q != p {
        assert q in h.lists[LARGE] && q in h.blocks;
        assert !Chosen(h, 0, q, n, align);
      }
    }
  }

  lemma FreshPlan(man: Man, n: nat, align: nat, reply: nat, len: nat, off: nat) returns (k: Man)
    requires ManOk(man) && AllocReady(man, n, align, reply) && Search(man.heap, 0, n, align) == 0 && reply != 0
    requires len == AreaFor(n, align) && off == Skip(0, reply + 8, align)
    ensures 16 <= len && |man.heap.lists| == 9
    ensures var g := Grow(man.heap, reply, len);
            && Cuttable(g, reply + 8, off, n) && CutsFresh(g, reply + 8, off, n)
            && k == Man(CarveOut(g, reply + 8, off, n), man.main, [reply] + man.chain)
    ensures ManAlloc(man, n, align, reply) == (k, reply + 8 + off)
    ensures ManOk(k) && UserAdded(man, k, reply + 8 + off, n) && IsLive(k.heap, reply + 8 + off)
    ensures k.heap.areas == man.heap.areas[reply := Area(len, Fence(reply + 2, len == WORDS_2M))] && reply !in man.heap.areas
    ensures k.heap.blocks[reply + 8 + off].area == reply && reply != man.main && man.main in man.heap.areas
    ensures UserWords(man, man.main) == Counts(man)[man.main]
  {
    hide Laid, Homed, ClassOf, Coalesced, Flagged, Kinds, Search, Skip, Separable, LiveWords, AllocFresh, Fence,
         AreaFor, Vacant, Cuttable, CutsFresh, CarveOut, Grow;
    NineLists(man.heap);
    AreaForSizes(n, align);
    FreshCuttable(man.heap, n, align, reply);
    FreshLive(man.heap, n, align, reply);
    AllocGrown(man, n, align, reply);
    k := ManAlloc(man, n, align, reply).0;
  }

  // The new descriptor's words.
  lemma FreshDescriptor(m: seq<nat>, m1: seq<nat>, m2: seq<nat>, heads: seq<nat>, man: Man, g: Heap, a: nat, len: nat, chain: seq<nat>)
    requires WF(man.heap, 0) && Registered(man) && Descriptors(m, man.chain, Counts(man)) && Undisturbed(m, m1, man.heap, 0)
    requires len >= 16 && a !in man.heap.areas && a + 2 !in man.heap.blocks && a + 8 !in man.heap.blocks
    requires g == Grow(man.heap, a, len) && WF(g, a + 8) && Rep(m1, heads, g) && a + 5 < |m1|
    requires m2 == m1[a + 2 := a][a + 3 := 0][a + 4 := DescAt(man.chain, 0)] && chain == [a] + man.chain
    ensures Rep(m2, heads, g) && Descriptors(m2, chain, Counts(man)[a := 0]) && Undisturbed(m, m2, man.heap, 0)
  {
    hide Homed, Listed, ClassOf, Sized, Heaps.Chained, Apart, AreasOk, Grow, Fence, Rep, LiveWords, Descriptors,
         Counts, Undisturbed;
    NineLists(g);
    GrowShape(man.heap, a, len);
    NotDescriptor(man, 0);
    DescriptorsCarry(m, m1, man, Counts(man), 0);
    assert a !in man.chain;
    forall b | b in man.chain ensures IsLive(g, b + 2) && g.blocks[b + 2].w == DESC {
      assert IsLive(man.heap, b + 2);
    }
    NewDescriptor(m1, man, Counts(man), a, g);
    PayloadRep(m1, m2, heads, g, a + 2);
    GrowLiveSub(man.heap, a, len);
    UndisturbedThrough(m, m1, m2, man.heap, g, 0, a + 2);
  }

  lemma NotDescriptor(man: Man, x: nat)
    requires x < 2
    ensures forall a :: a in man.chain ==> a + 2 != x
  {
  }

  lemma GrowLiveSub(h: Heap, a: nat, len: nat)
    requires len >= 16 && a !in h.areas && a + 2 !in h.blocks && a + 8 !in h.blocks
    ensures LiveSub(h, Grow(h, a, len), 0)
  {
    hide Grow, Fence;
    GrowShape(h, a, len);
  }

  // From the registered area to the carved block.
  lemma FreshCarry(m: seq<nat>, m2: seq<nat>, m3: seq<nat>, m4: seq<nat>, man: Man, g: Heap, a: nat, len: nat, k: Man, r: nat, n: nat)
    requires ManOk(k) && k.chain == [a] + man.chain && len >= 16
    requires a !in man.heap.areas && a + 2 !in man.heap.blocks && a + 8 !in man.heap.blocks
    requires g == Grow(man.heap, a, len) && Descriptors(m2, k.chain, Counts(man)[a := 0]) && Registered(man)
    requires Undisturbed(m, m2, man.heap, 0) && Undisturbed(m2, m3, g, a + 8) && Undisturbed(m3, m4, g, 0)
    ensures Descriptors(m4, k.chain, Counts(man)[a := 0]) && Undisturbed(m, m4, man.heap, 0)
  {
    hide WF, Coalesced, Flagged, Kinds, Grow, Fence, Counts, Descriptors, LiveWords;
    GrowShape(man.heap, a, len);
    var j := man.(heap := g, chain := k.chain);
    assert Undisturbed(m2, m4, g, 0) by {
      UndisturbedWeaken(m2, m3, g, a + 8, 0);
      UndisturbedTrans(m2, m3, m4, g, 0);
    }
    ChainCarry(m2, m4, g, k.chain, Counts(man)[a := 0]);
    GrowLiveSub(man.heap, a, len);
    UndisturbedThrough(m, m2, m4, man.heap, g, 0, 0);
  }

  lemma ChainCarry(m0: seq<nat>, m1: seq<nat>, g: Heap, chain: seq<nat>, counts: map<nat, int>)
    requires Descriptors(m0, chain, counts) && Undisturbed(m0, m1, g, 0)
    requires forall a {:trigger a in chain} :: a in chain ==> IsLive(g, a + 2) && g.blocks[a + 2].w == DESC
    ensures Descriptors(m1, chain, counts)
  {
    forall i | 0 <= i < |chain| ensures DescriptorOk(m1, chain, counts, i) {
      var a := chain[i];
      assert a in chain && DescriptorOk(m0, chain, counts, i);
      assert PayloadSame(m0, m1, a + 2, g.blocks[a + 2].w);
    }
  }

  lemma FreshTotals(man: Man, k: Man, r: nat, n: nat, a: nat, len: nat)
    requires UserAdded(man, k, r, n) && k.heap.blocks[r].area == a && a != man.main && a !in man.heap.areas
    requires k.heap.areas == man.heap.areas[a := Area(len, Fence(a + 2, len == WORDS_2M))]
    ensures Total(LenByArea(k.heap)) == Total(LenByArea(man.heap)) + len
    ensures Total(LiveByArea(k.heap)) == Total(LiveByArea(man.heap)) + DESC + k.heap.blocks[r].w
  {
    hide Total, LiveWords, Fence;
    var w := k.heap.blocks[r].w;
    forall b | b in k.heap.areas ensures LiveWords(k.heap, b) == if b == a then DESC + w else LiveWords(man.heap, b) {
      assert UserWords(k, b) == (if b in man.heap.areas then UserWords(man, b) else 0) + if b == a then w else 0;
    }
    assert LiveByArea(k.heap) == LiveByArea(man.heap)[a := DESC + w];
    TotalAdd(LiveByArea(man.heap), a, DESC + w);
    assert LenByArea(k.heap) == LenByArea(man.heap)[a := len];
    TotalAdd(LenByArea(man.heap), a, len);
  }

  lemma UnlinkWords(m: seq<nat>, heads: seq<nat>, man: Man, counts: map<nat, int>, j: nat)
    requires WF(man.heap, 0) && Registered(man) && Rep(m, heads, man.heap) && Descriptors(m, man.chain, counts) && j < |man.chain|
    ensures man.chain[j] + 5 < |m| && m[man.chain[j] + 4] == DescAt(man.chain, j + 1) && m[man.chain[j] + 2] == man.chain[j]
    ensures j > 0 ==> man.chain[j - 1] + 4 != man.chain[j] + 2
    ensures var chain1 := Without(man.chain, man.chain[j]);
            DescAt(chain1, 0) == (if j == 0 then DescAt(man.chain, 1) else DescAt(man.chain, 0)) &&
            if j == 0 then Descriptors(m, chain1, counts)
            else man.chain[j - 1] + 5 < |m| &&
                 var m1 := m[man.chain[j - 1] + 4 := DescAt(man.chain, j + 1)];
                 Descriptors(m1, chain1, counts) && Rep(m1, heads, man.heap) && Undisturbed(m, m1, man.heap, man.chain[j - 1] + 2)
  {
    hide Listed, Homed, Sized, Heaps.Chained, Apart, AreasOk, Rep, Undisturbed, ClassOf;
    var l := man.chain;
    assert DescriptorOk(m, l, counts, j);
    WithoutAt(l, j);
    var chain1 := l[..j] + l[j + 1..];
    var m1 := m;
    if j > 0 {
      assert DescriptorOk(m, l, counts, j - 1);
      assert l[j - 1] in l && IsLive(man.heap, l[j - 1] + 2);
      assert l[j] in l;
      DescriptorsApart(man, l[j - 1], l[j]);
      m1 := m[l[j - 1] + 4 := DescAt(l, j + 1)];
      HomeOfLive(man.heap, l[j - 1] + 2);
      PayloadRep(m, m1, heads, man.heap, l[j - 1] + 2);
    }
    forall i | 0 <= i < |chain1| ensures DescriptorOk(m1, chain1, counts, i) {
      UnlinkedAt(m, man, counts, j, i);
    }
  }

  // Descriptor i of the chain without its j-th one.
  lemma UnlinkedAt(m: seq<nat>, man: Man, counts: map<nat, int>, j: nat, i: nat)
    requires Laid(man.heap) && Registered(man) && Descriptors(m, man.chain, counts) && j < |man.chain| && i < |man.chain| - 1
    ensures j > 0 ==> man.chain[j - 1] + 5 < |m|
    ensures var m1 := if j == 0 then m else m[man.chain[j - 1] + 4 := DescAt(man.chain, j + 1)];
            DescriptorOk(m1, man.chain[..j] + man.chain[j + 1..], counts, i)
  {
    hide Laid;
    var l := man.chain;
    var i0 := if i < j then i else i + 1;
    assert DescriptorOk(m, l, counts, i0);
    if j > 0 {
      assert DescriptorOk(m, l, counts, j - 1);
      if i0 != j - 1 {
        assert l[i0] in l && l[j - 1] in l && l[i0] != l[j - 1];
        DescriptorsApart(man, l[i0], l[j - 1]);
      }
    }
  }

  lemma SelfUsers(m: seq<nat>, heads: seq<nat>, man: Man)
    requires Rep(m, heads, man.heap)
    ensures UsersSame(m, m, man, 0)
  {
    forall q | IsUser(man, q) ensures PayloadSame(m, m, q, man.heap.blocks[q].w) {
      assert TagOk(m, man.heap, q);
    }
  }

  lemma UsersTrans(m0: seq<nat>, m1: seq<nat>, m2: seq<nat>, man: Man)
    requires Undisturbed(m0, m1, man.heap, 0) && UsersSame(m1, m2, man, 0)
    ensures UsersSame(m0, m2, man, 0)
  {
    forall q | IsUser(man, q) && q != 0 ensures PayloadSame(m0, m2, q, man.heap.blocks[q].w) {
      assert PayloadSame(m0, m1, q, man.heap.blocks[q].w) && PayloadSame(m1, m2, q, man.heap.blocks[q].w);
    }
  }

  lemma MatchCarry(m: seq<nat>, m1: seq<nat>, man: Man)
    requires ManOk(man) && Descriptors(m, man.chain, Counts(man)) && Undisturbed(m, m1, man.heap, 0)
    ensures Descriptors(m1, man.chain, Counts(man)) && |man.heap.lists| == 9 && man.main in man.heap.areas
  {
    hide Laid, Listed, ClassOf, Coalesced, Flagged, Kinds, Descriptors, Counts;
    NineLists(man.heap);
    DescriptorsCarry(m, m1, man, Counts(man), 0);
  }

  // ----- freeing

  ghost function CountsWithout(man: Man, p: nat): map<nat, int>
    requires p in man.heap.blocks
  {
    var a := man.heap.blocks[p].area;
    if a in Counts(man) then Counts(man)[a := Counts(man)[a] - man.heap.blocks[p].w] else Counts(man)
  }

  lemma DropPlan(m: seq<nat>, heads: seq<nat>, man: Man, p: nat, g: Heap, q: nat)
    requires ManOk(man) && LastUser(man, p) && (g, q) == TryMerge(man.heap, p) && Rep(m, heads, g)
    ensures var a := man.heap.blocks[p].area;
            && WF(g, 0) && g.areas == man.heap.areas && Registered(man.(heap := g)) && a in man.chain && a in man.heap.areas && a != man.main
            && SubArea(man, a) && SubArea(man.(heap := g), a) && ManOk(ManFree(man, p, true)) && UserRemoved(man, ManFree(man, p, true), p)
            && ManFree(man, p, true) == Man(DropArea(g, a), man.main, Without(man.chain, a))
            && ManFree(man, p, true).heap.areas == man.heap.areas - {a} && Registered(man) && Registered(ManFree(man, p, true))
            && UserWords(man, a) == man.heap.blocks[p].w
            && man.heap.areas[a].len <= Total(LenByArea(man.heap))
            && OnlyDescriptor(man, p, g, q)
  {
    hide Laid, Homed, Listed, ClassOf, Coalesced, Flagged, Kinds, TryMerge, DropArea, Total, LiveWords, Merged,
         UserRemoved, OnlyDescriptor;
    var a := man.heap.blocks[p].area;
    UserArea(man, p);
    TryMergeWF(man.heap, p);
    TryMergeMerges(man.heap, p);
    MergedAreas(man.heap, p, g, Lo(man.heap, p), Hi(man.heap, p), man.heap.blocks[p].big);
    MergedRegistered(man, p, g);
    FreeDrops(man, p);
    Emptied(man, p);
    TotalRemove(LenByArea(man.heap), a);
    MergedSubArea(man, p, g, q);
  }

  lemma MergedSubArea(man: Man, p: nat, g: Heap, q: nat)
    requires p in man.heap.blocks && SubArea(man, man.heap.blocks[p].area) && OnlyDescriptor(man, p, g, q) && g.areas == man.heap.areas
    ensures SubArea(man.(heap := g), man.heap.blocks[p].area)
  {
  }

  // Merging a user block leaves every descriptor block.
  lemma MergedRegistered(man: Man, p: nat, g: Heap)
    requires ManOk(man) && IsUser(man, p) && g == TryMerge(man.heap, p).0
    ensures Registered(man.(heap := g)) && LiveSub(man.heap, g, p)
    ensures forall a :: a in man.chain ==> a + 2 != p
  {
    hide Laid, Homed, Listed, ClassOf, Coalesced, Flagged, Kinds, TryMerge, Merged;
    UserNotDescriptor(man, p);
    TryMergeMerges(man.heap, p);
    LaidOf(man.heap);
    SpanFree(man.heap, p);
    MergedAreas(man.heap, p, g, Lo(man.heap, p), Hi(man.heap, p), man.heap.blocks[p].big);
    MergedLiveSub(man.heap, p, g, Lo(man.heap, p), Hi(man.heap, p), man.heap.blocks[p].big);
    forall a | a in man.chain ensures IsLive(g, a + 2) && g.blocks[a + 2].w == DESC {
      assert IsLive(man.heap, a + 2);
    }
  }

  lemma LaidOf(h: Heap)
    requires WF(h, 0)
    ensures Laid(h)
  {
  }

  // allocarea_size reads SIZE_FLAG from the fence.
  lemma AreaFlagWord(m: seq<nat>, heads: seq<nat>, man: Man, g: Heap, a: nat)
    requires ManOk(man) && a in man.heap.areas && g.areas == man.heap.areas && Rep(m, heads, g)
    ensures a < |m| && man.heap.areas[a].len == if SizeBit(m[a]) then WORDS_2M else WORDS_4K
  {
    hide WF, Coalesced, Flagged, Registered, Fence, Tagged, Linked;
    assert AreaKind(man, a) && FenceOk(m, g, a);
    FenceBits(DescOf(man, a), man.heap.areas[a].len == WORDS_2M);
  }

  // Dropping an area drops its tags and fences from what the words represent.
  lemma DropRep(m: seq<nat>, heads: seq<nat>, man: Man, p: nat, g: Heap, q: nat, k: Man)
    requires p in man.heap.blocks && Rep(m, heads, g) && k.heap == DropArea(g, man.heap.blocks[p].area)
    ensures Rep(m, heads, k.heap)
  {
    hide Linked;
    forall x | x in k.heap.blocks ensures TagOk(m, k.heap, x) {
      assert TagOk(m, g, x);
    }
    forall b | b in k.heap.areas ensures FenceOk(m, k.heap, b) {
      assert FenceOk(m, g, b);
    }
  }

  lemma DropCounts(m: seq<nat>, man: Man, k: Man, p: nat, counts: map<nat, int>)
    requires p in man.heap.blocks && UserRemoved(man, k, p) && counts == CountsWithout(man, p)
    requires Descriptors(m, k.chain, counts) && Registered(k) && man.heap.blocks[p].area !in k.heap.areas
    requires k.heap.areas.Keys <= man.heap.areas.Keys
    ensures Descriptors(m, k.chain, Counts(k)) && counts[k.main] == UserWords(k, k.main)
  {
    hide UserWords;
    forall i | 0 <= i < |k.chain| ensures DescriptorOk(m, k.chain, Counts(k), i) {
      var a := k.chain[i];
      assert a in k.chain && a in k.heap.areas;
      assert DescriptorOk(m, k.chain, counts, i);
      assert UserWords(k, a) == UserWords(man, a);
    }
    assert UserWords(k, k.main) == UserWords(man, k.main);
  }

  lemma DropTotals(man: Man, k: Man, p: nat)
    requires p in man.heap.blocks && UserRemoved(man, k, p) && Registered(man) && Registered(k)
    requires var a := man.heap.blocks[p].area;
             a in man.heap.areas && k.heap.areas == man.heap.areas - {a} && a != man.main && k.chain == Without(man.chain, a) && a in man.chain &&
             UserWords(man, a) == man.heap.blocks[p].w
    ensures var a := man.heap.blocks[p].area;
            && Total(LenByArea(k.heap)) + man.heap.areas[a].len == Total(LenByArea(man.heap))
            && Total(LiveByArea(k.heap)) + man.heap.blocks[p].w + DESC == Total(LiveByArea(man.heap))
            && |k.chain| == |man.chain| - 1
  {
    hide Total, LiveWords;
    var a := man.heap.blocks[p].area;
    TotalRemove(LenByArea(man.heap), a);
    assert LenByArea(k.heap) == LenByArea(man.heap) - {a};
    forall b | b in k.heap.areas ensures LiveWords(k.heap, b) == LiveWords(man.heap, b) {
      assert UserWords(k, b) == UserWords(man, b) - 0;
    }
    TotalRemove(LiveByArea(man.heap), a);
    assert LiveByArea(k.heap) == LiveByArea(man.heap) - {a};
    var i :| 0 <= i < |man.chain| && man.chain[i] == a;
    WithoutAt(man.chain, i);
  }

  lemma DropUsers(m: seq<nat>, m1: seq<nat>, man: Man, p: nat, g: Heap, q: nat, x: nat)
    requires ManOk(man) && IsUser(man, p) && g == TryMerge(man.heap, p).0
    requires Undisturbed(m, m1, g, x) && (x == 0 || (x >= 2 && x - 2 in man.chain))
    ensures UsersSame(m, m1, man, p)
  {
    hide ManOk, TryMerge, Undisturbed, IsUser;
    MergedRegistered(man, p, g);
    UsersAcross(m, m1, man, p, g, x);
  }

  lemma UsersAcross(m: seq<nat>, m1: seq<nat>, man: Man, p: nat, g: Heap, x: nat)
    requires ManOk(man) && LiveSub(man.heap, g, p) && Undisturbed(m, m1, g, x) && (x == 0 || (x >= 2 && x - 2 in man.chain))
    ensures UsersSame(m, m1, man, p)
  {
    hide ManOk;
    forall y | IsUser(man, y) && y != p ensures PayloadSame(m, m1, y, man.heap.blocks[y].w) {
      UserNotDescriptor(man, y);
      UserNonzero(man, y);
      assert PayloadSame(m, m1, y, g.blocks[y].w);
    }
  }

  lemma UserNonzero(man: Man, y: nat)
    requires ManOk(man) && IsUser(man, y)
    ensures y != 0
  {
    hide Laid, Homed, ClassOf, Coalesced, Flagged, Kinds, Registered;
  }

  lemma KeepPlan(man: Man, p: nat, g: Heap, q: nat, del: bool)
    requires ManOk(man) && IsUser(man, p) && (g, q) == TryMerge(man.heap, p) && !Drops(man, p, del)
    ensures WF(g, 0) && IsLive(g, q) && |g.lists| == 9 && ManFree(man, p, del) == man.(heap := Put(g, q))
    ensures ManOk(ManFree(man, p, del)) && UserRemoved(man, ManFree(man, p, del), p) && ManFree(man, p, del).heap.areas == man.heap.areas
    ensures man.heap.blocks[p].area in man.heap.areas && man.main in man.heap.areas && Registered(man)
  {
    hide Laid, Homed, Listed, ClassOf, Coalesced, Flagged, Kinds, TryMerge, LastUser, UserRemoved;
    TryMergeWF(man.heap, p);
    NineLists(g);
    FreeStays(man, p);
    HasDescriptor(man, man.heap, p);
  }

  lemma KeepCarry(m: seq<nat>, m1: seq<nat>, man: Man, p: nat, g: Heap, q: nat, counts: map<nat, int>)
    requires ManOk(man) && IsUser(man, p) && (g, q) == TryMerge(man.heap, p)
    requires Descriptors(m, man.chain, counts) && Undisturbed(m, m1, g, q)
    ensures Descriptors(m1, man.chain, counts) && UsersSame(m, m1, man, p)
  {
    hide ManOk, WF, TryMerge, Descriptors, LiveWords;
    MergedRegistered(man, p, g);
    MergeTarget(man, p, g, q);
    var man1 := man.(heap := g);
    DescriptorsCarry(m, m1, man1, counts, q);
    forall y | IsUser(man, y) && y != p ensures PayloadSame(m, m1, y, man.heap.blocks[y].w) {
      assert IsLive(g, y) && y != q;
      assert PayloadSame(m, m1, y, g.blocks[y].w);
    }
  }

  // The merged block starts at the freed one or at a block that was free.
  lemma MergeTarget(man: Man, p: nat, g: Heap, q: nat)
    requires ManOk(man) && IsUser(man, p) && (g, q) == TryMerge(man.heap, p)
    ensures q == p || !IsLive(man.heap, q)
    ensures forall a :: a in man.chain ==> a + 2 != q
  {
    hide Laid, Homed, Listed, ClassOf, Coalesced, Flagged, Kinds, TryMerge;
    var g1, q1 := FreePlan(man.heap, p);
    UserNotDescriptor(man, p);
    forall a | a in man.chain ensures a + 2 != q {
      assert IsLive(man.heap, a + 2);
    }
  }

  lemma KeepCounts(m: seq<nat>, man: Man, k: Man, p: nat, counts: map<nat, int>)
    requires p in man.heap.blocks && UserRemoved(man, k, p) && counts == CountsWithout(man, p)
    requires Descriptors(m, k.chain, counts) && k.heap.areas == man.heap.areas && man.heap.blocks[p].area in man.heap.areas
    requires man.main in man.heap.areas
    ensures counts == Counts(k) && counts[man.main] == UserWords(k, k.main)
  {
    hide UserWords;
    forall a | a in k.heap.areas ensures counts[a] == Counts(k)[a] {
      assert UserWords(k, a) == UserWords(man, a) - if man.heap.blocks[p].area == a then man.heap.blocks[p].w else 0;
    }
  }

  lemma KeepTotals(man: Man, k: Man, p: nat)
    requires p in man.heap.blocks && UserRemoved(man, k, p) && k.heap.areas == man.heap.areas
    requires man.heap.blocks[p].area in man.heap.areas
    ensures Total(LenByArea(k.heap)) == Total(LenByArea(man.heap))
    ensures Total(LiveByArea(k.heap)) + man.heap.blocks[p].w == Total(LiveByArea(man.heap))
  {
    hide Total, LiveWords;
    var c, w := man.heap.blocks[p].area, man.heap.blocks[p].w;
    forall a | a in k.heap.areas ensures LiveWords(man.heap, a) == LiveWords(k.heap, a) + if a == c then w else 0 {
      assert UserWords(k, a) == UserWords(man, a) - if a == c then w else 0;
    }
    var m := LiveByArea(k.heap);
    assert LiveByArea(man.heap) == m[c := m[c] + w];
    TotalUpdate(m, c, m[c] + w);
    assert LenByArea(k.heap) == LenByArea(man.heap);
  }

  // The counters cover the block that is about to be freed.
  lemma FreeReady(m: seq<nat>, heads: seq<nat>, man: Man, p: nat, alloced: nat)
    requires ManOk(man) && IsUser(man, p) && Rep(m, heads, man.heap)
    requires alloced + 8 * DESC * |man.chain| == 8 * Total(LiveByArea(man.heap))
    ensures WF(man.heap, 0) && IsLive(man.heap, p) && 1 <= p < |m| && SizeOf(m[p - 1]) == man.heap.blocks[p].w
    ensures AreaPtr(p, SizeBit(m[p - 1])) < |m|
    ensures SizeOf(m[AreaPtr(p, SizeBit(m[p - 1]))]) == DescOf(man, man.heap.blocks[p].area)
    ensures man.heap.blocks[p].area in Counts(man) && Counts(man)[man.heap.blocks[p].area] >= man.heap.blocks[p].w
    ensures CountsWithout(man, p) ==
              Counts(man)[man.heap.blocks[p].area := Counts(man)[man.heap.blocks[p].area] - man.heap.blocks[p].w]
    ensures alloced >= 8 * man.heap.blocks[p].w
  {
    hide WF, Coalesced, Flagged, Kinds, Fenced, Linked, LiveWords, Total, AreaPtr, Registered;
    PoolPtrRight(m, heads, man, p);
    NextTag(m, man.heap, p);
    HasDescriptor(man, man.heap, p);
    UserCovered(man, p);
    AllCovered(man, p);
  }

  lemma UserCovered(man: Man, p: nat)
    requires ManOk(man) && IsUser(man, p)
    ensures UserWords(man, man.heap.blocks[p].area) >= man.heap.blocks[p].w
  {
    hide ManOk, Total;
    var h, a := man.heap, man.heap.blocks[p].area;
    var m := LiveFrom(h, a, 0);
    TotalRemove(m, p);
    if a != man.main {
      UserArea(man, p);
      TotalRemove(m - {p}, a + 2);
    }
  }

  lemma DescriptorCovered(man: Man, a: nat)
    requires ManOk(man) && a in man.chain
    ensures LiveWords(man.heap, a) >= DESC && a in man.heap.areas
  {
    hide Total, Laid, Homed, Listed, ClassOf, Coalesced, Flagged, Kinds;
    assert IsLive(man.heap, a + 2);
    ChainArea(man, a);
    TotalRemove(LiveFrom(man.heap, a, 0), a + 2);
  }

  lemma ChainArea(man: Man, a: nat)
    requires ManOk(man) && a in man.chain
    ensures a in man.heap.areas && IsLive(man.heap, a + 2) && man.heap.blocks[a + 2].area == a
  {
    hide Homed, Listed, ClassOf, Coalesced, Flagged, Kinds, Sized, Heaps.Chained, Apart;
    assert a in man.heap.areas && AreaOk(man.heap, a);
  }

  lemma AllCovered(man: Man, p: nat)
    requires ManOk(man) && IsUser(man, p)
    ensures Total(LiveByArea(man.heap)) >= DESC * |man.chain| + man.heap.blocks[p].w
  {
    hide ManOk, Total, LiveWords;
    var m, c := LiveByArea(man.heap), man.heap.blocks[p].area;
    HasDescriptorOk(man, p);
    UserCovered(man, p);
    ChainDistinct(man);
    forall a | a in man.chain ensures a in m && m[a] >= DESC + (if a == c then man.heap.blocks[p].w else 0) {
      DescriptorCovered(man, a);
    }
    ChainTotal(m, man.chain, c, man.heap.blocks[p].w);
  }

  lemma HasDescriptorOk(man: Man, p: nat)
    requires ManOk(man) && IsUser(man, p)
    ensures man.heap.blocks[p].area in man.heap.areas
  {
    hide WF, Coalesced, Flagged, Kinds, Registered;
    HasDescriptor(man, man.heap, p);
  }

  lemma ChainDistinct(man: Man)
    requires ManOk(man)
    ensures NoDup(man.chain) && man.main !in man.chain
  {
    hide WF, Coalesced, Flagged, Kinds;
  }

  lemma {:induction false} ChainTotal(m: map<nat, nat>, l: seq<nat>, c: nat, w: nat)
    requires NoDup(l) && c in m && (forall a :: a in l ==> a in m && m[a] >= DESC + (if a == c then w else 0)) && m[c] >= w
    ensures Total(m) >= DESC * |l| + w
    decreases |l|
  {
    hide Total;
    if l == [] {
      TotalRemove(m, c);
    } else {
      var a, r := l[0], l[1..];
      assert a in l && a !in r;
      assert forall b :: b in r ==> b in l;
      TotalRemove(m, a);
      if a == c {
        DescTotal(m - {a}, r);
      } else {
        ChainTotal(m - {a}, r, c, w);
      }
    }
  }

  lemma {:induction false} DescTotal(m: map<nat, nat>, l: seq<nat>)
    requires NoDup(l) && forall a :: a in l ==> a in m && m[a] >= DESC
    ensures Total(m) >= DESC * |l|
    decreases |l|
  {
    hide Total;
    if l != [] {
      var a, r := l[0], l[1..];
      assert a in l && a !in r;
      assert forall b :: b in r ==> b in l;
      TotalRemove(m, a);
      DescTotal(m - {a}, r);
    }
  }

  lemma MergeCarry(m1: seq<nat>, m2: seq<nat>, man: Man, p: nat, g: Heap)
    requires ManOk(man) && IsUser(man, p) && g == TryMerge(man.heap, p).0
    requires Descriptors(m1, man.chain, CountsWithout(man, p)) && Undisturbed(m1, m2, man.heap, p)
    ensures Descriptors(m2, man.chain, CountsWithout(man, p))
  {
    hide WF, Coalesced, Flagged, Kinds, Descriptors, CountsWithout, TryMerge;
    UserNotDescriptor(man, p);
    DescriptorsCarry(m1, m2, man, CountsWithout(man, p), p);
  }

  lemma MergeUsers(m: seq<nat>, m1: seq<nat>, m2: seq<nat>, man: Man, p: nat)
    requires ManOk(man) && IsUser(man, p)
    requires Undisturbed(m, m1, man.heap, if man.heap.blocks[p].area == man.main then 0 else man.heap.blocks[p].area + 2)
    requires Undisturbed(m1, m2, man.heap, p)
    ensures UsersSame(m, m2, man, p)
  {
    hide ManOk;
    if man.heap.blocks[p].area != man.main {
      UserArea(man, p);
    }
    forall y | IsUser(man, y) && y != p ensures PayloadSame(m, m2, y, man.heap.blocks[y].w) {
      UserNotDescriptor(man, y);
      UserNonzero(man, y);
      assert PayloadSame(m, m1, y, man.heap.blocks[y].w) && PayloadSame(m1, m2, y, man.heap.blocks[y].w);
    }
  }

  lemma UsersSameTrans(m0: seq<nat>, m1: seq<nat>, m2: seq<nat>, man: Man, x: nat)
    requires UsersSame(m0, m1, man, x) && UsersSame(m1, m2, man, x)
    ensures UsersSame(m0, m2, man, x)
  {
    forall q | IsUser(man, q) && q != x ensures PayloadSame(m0, m2, q, man.heap.blocks[q].w) {
      assert PayloadSame(m0, m1, q, man.heap.blocks[q].w) && PayloadSame(m1, m2, q, man.heap.blocks[q].w);
    }
  }

  // The descriptor's counter is 0 exactly when the freed block was the last user block.
  lemma PoolCounter(m: seq<nat>, man: Man, p: nat, del: bool)
    requires ManOk(man) && IsUser(man, p) && Descriptors(m, man.chain, CountsWithout(man, p))
    requires DescOf(man, man.heap.blocks[p].area) != MAIN
    ensures var a := man.heap.blocks[p].area;
            a + 5 < |m| && (m[a + 3] == 0 <==> LastUser(man, p)) && (Drops(man, p, del) <==> LastUser(man, p) && del)
  {
    hide ManOk, UserWords;
    var a := man.heap.blocks[p].area;
    UserArea(man, p);
    var i :| 0 <= i < |man.chain| && man.chain[i] == a;
    assert DescriptorOk(m, man.chain, CountsWithout(man, p), i);
  }

  lemma MainStays(man: Man, p: nat, del: bool)
    requires ManOk(man) && IsUser(man, p) && DescOf(man, man.heap.blocks[p].area) == MAIN
    ensures !Drops(man, p, del)
  {
    hide ManOk, UserWords;
  }

  // ----- the manager after mman_init

  function InitMan(a: nat, len: nat): Man
    requires len >= 6
  {
    Man(Enlist(AddArea(EMPTY, a, len, MAIN), a + 2, LARGE), a, [])
  }

  lemma InitManHeap(a: nat, len: nat)
    requires (len == WORDS_4K || len == WORDS_2M) && a % len == 0
    ensures a % 2 == 0 && Vacant(EMPTY, a, len) && WF(AddArea(EMPTY, a, len, MAIN), a + 2) && WF(InitMan(a, len).heap, 0)
  {
    hide ClassOf, Fence;
    EvenArea(a, len);
    InitHeapWF(6);
    AddAreaWF(EMPTY, a, len, MAIN);
    EnlistLargeWF(AddArea(EMPTY, a, len, MAIN), a + 2);
  }

  lemma InitManBlock(a: nat, len: nat)
    requires len >= 6
    ensures var h := InitMan(a, len).heap;
            && h.areas == map[a := Area(len, Fence(MAIN, len == WORDS_2M))] && h.blocks.Keys == {a + 2}
            && h.blocks[a + 2] == Blk(len - 4, true, len == WORDS_2M, a, LARGE)
            && h.lists == EMPTY.lists[LARGE := [a + 2]]
  {
    hide Fence;
    var one: seq<nat> := [a + 2];
    assert one + EMPTY.lists[LARGE] == one;
  }

  method FirstArea(mem: array<nat>, heads: array<nat>, a: nat, len: nat)
    requires mem != heads && (len == WORDS_4K || len == WORDS_2M) && a % len == 0 && a + len <= mem.Length
    requires heads.Length == 9 && forall j :: 0 <= j < 9 ==> heads[j] == 0
    modifies mem, heads
    ensures Rep(mem[..], heads[..], InitMan(a, len).heap)
  {
    hide WF, Rep, ClassOf, Fence, AreaWords, Undisturbed, Vacant;
    ghost var m := mem[..];
    InitManHeap(a, len);
    EmptyRep(m, heads[..]);
    EmptyLaid();
    AllocareaInit(mem, a, len, MAIN);
    AddAreaRep(m, mem[..], heads[..], EMPTY, a, len, MAIN);
    FreelistPut(mem, heads, AddArea(EMPTY, a, len, MAIN), LARGE, a + 2);
  }

  lemma InitManOk(a: nat, len: nat)
    requires (len == WORDS_4K || len == WORDS_2M) && a % len == 0
    ensures var man := InitMan(a, len);
            && ManOk(man) && man.chain == [] && man.main == a && Counts(man) == map[a := 0]
            && Total(LenByArea(man.heap)) == len && Total(LiveByArea(man.heap)) == 0
  {
    hide WF, ClassOf, Fence, Total;
    InitManHeap(a, len);
    var man := InitMan(a, len);
    var none: map<nat, nat> := map[];
    TotalEmpty();
    assert LiveFrom(man.heap, a, 0) == none;
    assert LenByArea(man.heap) == none[a := len];
    TotalAdd(none, a, len);
    assert LiveByArea(man.heap) == none[a := 0];
    TotalAdd(none, a, 0);
    assert Coalesced(man.heap);
    assert Flagged(man.heap);
    assert AreaKind(man, a);
  }

  lemma NoDescriptors(m: seq<nat>, man: Man)
    requires man.chain == []
    ensures Descriptors(m, man.chain, Counts(man))
  {
  }
}

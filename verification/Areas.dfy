/** area.hpp: a new allocation area is two fences around one free block. */
module AllocAreas {
  import opened Tags
  import opened Heaps
  import opened Reps
  import opened Blocks

  // The fence word: the descriptor's pointer, AREA_FLAG, and SIZE_FLAG for a 2 MiB area.
  function Fence(pdata: nat, big: bool): nat {
    8 * pdata + AREA_FLAG + (if big then SIZE_FLAG else 0)
  }

  const WORDS_2M: nat := 262144
  const WORDS_4K: nat := 512

  // The heap with a further area [a, a + len) that is one free block, not yet listed.
  function AddArea(h: Heap, a: nat, len: nat, pdata: nat): Heap
    requires len >= 4
  {
    var big := len == WORDS_2M;
    h.(areas := h.areas[a := Area(len, Fence(pdata, big))],
       blocks := h.blocks[a + 2 := Blk(len - 4, true, big, a, NOWHERE)])
  }

  // [a, a + len) is disjoint from every area of h.
  ghost predicate Vacant(h: Heap, a: nat, len: nat) {
    forall b :: b in h.areas ==> End(h, b) <= a || a + len <= b
  }

  lemma FenceBits(pdata: nat, big: bool)
    ensures AreaBit(Fence(pdata, big)) && SizeBit(Fence(pdata, big)) == big && SizeOf(Fence(pdata, big)) == pdata
  {
    var x := Fence(pdata, big);
    assert x / 2 == 4 * pdata + (if big then 3 else 1) && (4 * pdata) % 2 == 0;
    assert x / 4 == 2 * pdata + if big then 1 else 0;
  }

  // Blocks of other areas stay clear of a vacant range.
  lemma VacantBlocks(h: Heap, a: nat, len: nat, p: nat)
    requires Laid(h) && Vacant(h, a, len) && p in h.blocks && len >= 6
    ensures Next(h, p) <= a || a + len <= p - 2
  {
    hide Chained, Apart, AreasOk;
    assert BlockOk(h, p);
  }

  lemma AddAreaFresh(h: Heap, a: nat, len: nat)
    requires Laid(h) && Vacant(h, a, len) && len >= 6
    ensures a !in h.areas && a + 2 !in h.blocks
  {
    hide Chained, Apart;
    assert a in h.areas ==> AreaOk(h, a);
    if a + 2 in h.blocks {
      VacantBlocks(h, a, len, a + 2);
    }
  }

  lemma AddAreaChained(h: Heap, a: nat, len: nat, pdata: nat)
    requires Sized(h) && Chained(h) && a !in h.areas && a + 2 !in h.blocks && len >= 6 && Sized(AddArea(h, a, len, pdata))
    ensures Chained(AddArea(h, a, len, pdata))
  {
    var g := AddArea(h, a, len, pdata);
    forall p | p in g.blocks ensures NextOk(g, p) {
      assert p in h.blocks ==> NextOk(h, p);
    }
  }

  lemma AddAreaApart(h: Heap, a: nat, len: nat, pdata: nat)
    requires Laid(h) && Vacant(h, a, len) && len >= 6
    ensures Apart(AddArea(h, a, len, pdata))
  {
    hide Sized, Chained, AreasOk, Vacant, Fence;
    var g := AddArea(h, a, len, pdata);
    forall p, q | p in g.blocks && q in g.blocks ensures Clear(g, p, q) {
      if p in h.blocks {
        VacantBlocks(h, a, len, p);
      }
      if q in h.blocks {
        VacantBlocks(h, a, len, q);
      }
      assert p in h.blocks && q in h.blocks ==> Clear(h, p, q);
    }
  }

  lemma AddAreaAreas(h: Heap, a: nat, len: nat, pdata: nat)
    requires AreasOk(h) && Vacant(h, a, len) && a + 2 !in h.blocks && 6 <= len < MAX_WORDS
    ensures AreasOk(AddArea(h, a, len, pdata))
  {
    var g := AddArea(h, a, len, pdata);
    FenceBits(pdata, len == WORDS_2M);
    hide Fence;
    forall b | b in g.areas ensures AreaOk(g, b) {
      assert b in h.areas && b != a ==> AreaOk(h, b);
    }
  }

  lemma AddAreaLaid(h: Heap, a: nat, len: nat, pdata: nat)
    requires Laid(h) && Vacant(h, a, len) && 6 <= len < MAX_WORDS && len % 2 == 0 && a % 2 == 0
    ensures Laid(AddArea(h, a, len, pdata)) && a !in h.areas && a + 2 !in h.blocks
  {
    hide Chained, Apart, AreasOk, Fence;
    AddAreaFresh(h, a, len);
    var g := AddArea(h, a, len, pdata);
    assert Sized(g) by {
      forall p | p in g.blocks ensures BlockOk(g, p) {
        assert p in h.blocks ==> BlockOk(h, p);
      }
    }
    AddAreaChained(h, a, len, pdata);
    AddAreaApart(h, a, len, pdata);
    AddAreaAreas(h, a, len, pdata);
  }

  lemma AddAreaWF(h: Heap, a: nat, len: nat, pdata: nat)
    requires WF(h, 0) && Vacant(h, a, len) && 6 <= len < MAX_WORDS && len % 2 == 0 && a % 2 == 0
    ensures WF(AddArea(h, a, len, pdata), a + 2)
  {
    hide Laid, ClassOf;
    var g := AddArea(h, a, len, pdata);
    AddAreaLaid(h, a, len, pdata);
    assert Homed(g) by {
      forall q | q in g.blocks && g.blocks[q].home < 9 ensures q in g.lists[g.blocks[q].home] {
        assert q in h.lists[h.blocks[q].home];
      }
    }
    assert Listed(g, a + 2) by {
      forall q | q in g.blocks && q != a + 2 ensures g.blocks[q] == h.blocks[q] {}
      assert 0 !in g.blocks;
    }
  }

  lemma EnlistLargeWF(h: Heap, p: nat)
    requires WF(h, p) && p in h.blocks && h.blocks[p].home == NOWHERE && h.blocks[p].free
    requires h.blocks[p].area in h.areas && IsFirst(h, p) && IsLast(h, p)
    ensures WF(Enlist(h, p, LARGE), 0)
  {
    hide Laid, ClassOf;
    var g := Enlist(h, p, LARGE);
    SameShapeLaid(h, g);
    assert p !in h.lists[LARGE];
    assert Homed(g) by {
      forall q | q in g.blocks && g.blocks[q].home < 9 ensures q in g.lists[g.blocks[q].home] {
        assert q != p ==> q in h.lists[h.blocks[q].home];
      }
    }
  }

  // The words of the new area.
  ghost predicate AreaWords(m0: seq<nat>, m1: seq<nat>, a: nat, len: nat, pdata: nat) {
    && len >= 6 && a + len <= |m0| == |m1|
    && m1[a] == m1[a + len - 1] == Fence(pdata, len == WORDS_2M)
    && m1[a + 1] == m1[a + len - 2] == Tag(Blk(len - 4, true, len == WORDS_2M, a, NOWHERE))
    && forall i {:trigger m1[i]} :: 0 <= i < |m0| && !(a <= i < a + len) ==> m1[i] == m0[i]
  }

  // Tags, payload and link words of the blocks of other areas are untouched.
  lemma AddAreaKeeps(m0: seq<nat>, m1: seq<nat>, h: Heap, a: nat, len: nat, pdata: nat, x: nat)
    requires Laid(h) && Tagged(m0, h) && Vacant(h, a, len) && AreaWords(m0, m1, a, len, pdata) && x in h.blocks
    ensures x + h.blocks[x].w < |m1| && m1[x] == m0[x] && m1[x + 1] == m0[x + 1]
    ensures TagOk(m1, h, x) && PayloadSame(m0, m1, x, h.blocks[x].w)
  {
    hide Tag, Fence, Chained, Apart, AreasOk, Vacant;
    assert TagOk(m0, h, x) && BlockOk(h, x);
    VacantBlocks(h, a, len, x);
  }

  lemma AddAreaFenced(m0: seq<nat>, m1: seq<nat>, h: Heap, a: nat, len: nat, pdata: nat)
    requires Fenced(m0, h) && Vacant(h, a, len) && AreaWords(m0, m1, a, len, pdata) && a !in h.areas
    ensures Fenced(m1, AddArea(h, a, len, pdata))
  {
    hide Tag, Fence;
    var g := AddArea(h, a, len, pdata);
    forall b | b in g.areas ensures FenceOk(m1, g, b) {
      assert b in h.areas ==> FenceOk(m0, h, b);
    }
  }

  /** A fresh area joins the heap without touching the words of the others. */
  lemma AddAreaRep(m0: seq<nat>, m1: seq<nat>, heads: seq<nat>, h: Heap, a: nat, len: nat, pdata: nat)
    requires Laid(h) && Homed(h) && Rep(m0, heads, h) && Vacant(h, a, len) && AreaWords(m0, m1, a, len, pdata)
    requires a !in h.areas && a + 2 !in h.blocks
    ensures Rep(m1, heads, AddArea(h, a, len, pdata)) && Undisturbed(m0, m1, h, 0)
  {
    hide Tag, Fence, Laid, Vacant, Tagged, Fenced;
    var g := AddArea(h, a, len, pdata);
    forall x | x in h.blocks ensures TagOk(m1, h, x) && PayloadSame(m0, m1, x, h.blocks[x].w) &&
                                     x + 1 < |m1| && m1[x] == m0[x] && m1[x + 1] == m0[x + 1] {
      AddAreaKeeps(m0, m1, h, a, len, pdata, x);
      TwoWords(h, x);
    }
    AddAreaTagged(m1, h, g, a, len, pdata);
    AddAreaFenced(m0, m1, h, a, len, pdata);
    forall i | 0 <= i < 9 ensures Chain(m1, heads[i], h.lists[i]) {
      assert Chain(m0, heads[i], h.lists[i]);
      forall k | 0 <= k < |h.lists[i]| ensures h.lists[i][k] in h.blocks {
        assert h.lists[i][k] in h.lists[i];
      }
      ChainFrame(m0, m1, heads[i], h.lists[i]);
    }
  }

  lemma TwoWords(h: Heap, x: nat)
    requires Laid(h) && x in h.blocks
    ensures h.blocks[x].w >= 2
  {
    hide Chained, Apart, AreasOk;
    assert BlockOk(h, x);
  }

  lemma AddAreaTagged(m1: seq<nat>, h: Heap, g: Heap, a: nat, len: nat, pdata: nat)
    requires len >= 6 && g == AddArea(h, a, len, pdata) && a + 2 !in h.blocks && a + len <= |m1|
    requires m1[a + 1] == m1[a + len - 2] == Tag(Blk(len - 4, true, len == WORDS_2M, a, NOWHERE))
    requires forall x {:trigger TagOk(m1, h, x)} :: x in h.blocks ==> TagOk(m1, h, x)
    ensures Tagged(m1, g)
  {
    hide Tag, Fence;
    forall x | x in g.blocks ensures TagOk(m1, g, x) {
      assert x in h.blocks ==> TagOk(m1, h, x);
    }
  }

  // allocarea_init
  method AllocareaInit(mem: array<nat>, a: nat, len: nat, pdata: nat)
    requires 4 <= len && a + len <= mem.Length
    modifies mem
    ensures len >= 6 ==> AreaWords(old(mem[..]), mem[..], a, len, pdata)
    ensures forall i :: 0 <= i < mem.Length && !(a <= i < a + len) ==> mem[i] == old(mem[i])
  {
    var sizeFlag := if len == WORDS_2M then SIZE_FLAG else 0;
    var data := 8 * pdata + AREA_FLAG + sizeFlag;
    mem[a], mem[a + len - 1] := data, data;
    var p, size := a + 2, len - 4;
    BlkSetSize(mem, p, size);
    BlkSetFreed(mem, p, size);
    if sizeFlag != 0 {
      BlkSetArea2M(mem, p, size);
    } else {
      BlkSetArea4k(mem, p, size);
    }
    TagBits(Blk(size, false, false, a, NOWHERE));
    TagBits(Blk(size, true, false, a, NOWHERE));
  }
}

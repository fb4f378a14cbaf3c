/** The abstract heap: areas of words tiled by blocks, and nine free lists of blocks.

    A block is named by the index p of its first payload word; its head tag is word p - 1 and
    its tail tag word p + w.  An area of `len` words starting at a has a fence word at each
    end, so its first block is a + 2. */
module Heaps {
  import opened Basics
  import opened Tags

  datatype Area = Area(len: nat, fence: nat)

  datatype Heap = Heap(areas: map<nat, Area>, blocks: map<nat, Blk>, lists: seq<seq<nat>>)

  // First payload word of the block that would follow p.
  function Next(h: Heap, p: nat): nat
    requires p in h.blocks
  {
    p + h.blocks[p].w + 2
  }

  function End(h: Heap, a: nat): nat
    requires a in h.areas
  {
    a + h.areas[a].len
  }

  // Areas are smaller than 2^63 bytes, so that sizes are the same read as signed numbers.
  const MAX_WORDS: nat := 0x1000_0000_0000_0000

  // ----- geometry

  ghost predicate BlockOk(h: Heap, p: nat)
    requires p in h.blocks
  {
    var b := h.blocks[p];
    b.w >= 2 && b.w % 2 == 0 && p % 2 == 0 && b.area in h.areas && b.area + 2 <= p && Next(h, p) <= End(h, b.area)
  }

  // The space behind p belongs to the next block of the area, unless p is the last one.
  ghost predicate NextOk(h: Heap, p: nat)
    requires p in h.blocks && h.blocks[p].area in h.areas
  {
    Next(h, p) == End(h, h.blocks[p].area) ||
    (Next(h, p) in h.blocks && h.blocks[Next(h, p)].area == h.blocks[p].area)
  }

  ghost predicate AreaOk(h: Heap, a: nat)
    requires a in h.areas
  {
    a + 2 in h.blocks && h.blocks[a + 2].area == a && AreaBit(h.areas[a].fence) && h.areas[a].len < MAX_WORDS
  }

  ghost predicate Sized(h: Heap) {
    forall p :: p in h.blocks ==> BlockOk(h, p)
  }

  ghost predicate Chained(h: Heap)
    requires Sized(h)
  {
    forall p {:trigger NextOk(h, p)} :: p in h.blocks ==> NextOk(h, p)
  }

  ghost predicate Clear(h: Heap, p: nat, q: nat)
    requires p in h.blocks && q in h.blocks
  {
    p < q ==> Next(h, p) <= q
  }

  ghost predicate Apart(h: Heap) {
    forall p, q {:trigger Clear(h, p, q)} :: p in h.blocks && q in h.blocks ==> Clear(h, p, q)
  }

  ghost predicate AreasOk(h: Heap) {
    && (forall a {:trigger AreaOk(h, a)} :: a in h.areas ==> AreaOk(h, a))
    && (forall a, b :: a in h.areas && b in h.areas && a < b ==> End(h, a) <= b)
  }

  /** Blocks tile every area exactly: each area starts with a block, each block is followed by
      a block or by the end of its area, and no two blocks or areas overlap. */
  ghost predicate Laid(h: Heap) {
    Sized(h) && Chained(h) && Apart(h) && AreasOk(h)
  }

  lemma BlockBounded(h: Heap, p: nat)
    requires Laid(h) && p in h.blocks
    ensures h.blocks[p].w < MAX_WORDS
  {
    hide Chained, Apart;
    assert BlockOk(h, p) && AreaOk(h, h.blocks[p].area);
  }

  ghost predicate IsLast(h: Heap, p: nat)
    requires p in h.blocks && h.blocks[p].area in h.areas
  {
    Next(h, p) == End(h, h.blocks[p].area)
  }

  ghost predicate IsFirst(h: Heap, p: nat)
    requires p in h.blocks
  {
    p == h.blocks[p].area + 2
  }

  // ----- lists

  // Each block is on the list its `home` names, once, and on no other.
  ghost predicate Homed(h: Heap) {
    && |h.lists| == 9
    && (forall i :: 0 <= i < 9 ==> NoDup(h.lists[i]))
    && (forall i, p {:trigger p in h.lists[i]} :: 0 <= i < 9 && p in h.lists[i] ==> p in h.blocks && h.blocks[p].home == i)
    && (forall p {:trigger h.blocks[p].home} :: p in h.blocks && h.blocks[p].home < 9 ==> p in h.lists[h.blocks[p].home])
  }

  /** The blocks with FREE_FLAG, other than `hand`, are exactly the listed ones.  A listed
      block is on the list of its class; only a block that is its whole area may be on the
      large list instead, which is where initialization puts it. */
  ghost predicate Listed(h: Heap, hand: nat) {
    0 !in h.blocks &&
    forall p {:trigger h.blocks[p].home} :: p in h.blocks ==>
      && h.blocks[p].home <= NOWHERE
      && (h.blocks[p].home < 9 <==> h.blocks[p].free && p != hand)
      && (h.blocks[p].home < 9 ==>
            h.blocks[p].home == ClassOf(h.blocks[p].w) ||
            (h.blocks[p].home == LARGE && h.blocks[p].area in h.areas && IsFirst(h, p) && IsLast(h, p)))
  }

  // `hand` is the block an operation has taken off the lists; 0 stands for none.
  ghost predicate WF(h: Heap, hand: nat) {
    Laid(h) && Homed(h) && Listed(h, hand)
  }

  lemma NineLists(h: Heap)
    requires Homed(h)
    ensures |h.lists| == 9
  {
  }

  // ----- the steps the operations are made of

  // The list without its entry p.
  function Without(l: seq<nat>, p: nat): (r: seq<nat>)
  {
    if l == [] then [] else if l[0] == p then l[1..] else [l[0]] + Without(l[1..], p)
  }

  // freelist_detach, freelists_detach
  function Take(h: Heap, p: nat): Heap
    requires p in h.blocks && h.blocks[p].home < |h.lists|
  {
    var id := h.blocks[p].home;
    h.(blocks := h.blocks[p := h.blocks[p].(home := NOWHERE)],
       lists := h.lists[id := Without(h.lists[id], p)])
  }

  // blk_setfreed
  function SetFreed(h: Heap, p: nat): Heap
    requires p in h.blocks
  {
    h.(blocks := h.blocks[p := h.blocks[p].(free := true)])
  }

  // freelist_put, freelists_put: p becomes the first node of list id.
  function Enlist(h: Heap, p: nat, id: nat): Heap
    requires p in h.blocks && id < |h.lists|
  {
    h.(blocks := h.blocks[p := h.blocks[p].(home := id)], lists := h.lists[id := [p] + h.lists[id]])
  }

  // do_free
  function Put(h: Heap, p: nat): Heap
    requires p in h.blocks && |h.lists| == 9
  {
    Enlist(SetFreed(h, p), p, ClassOf(h.blocks[p].w))
  }

  // blk_setalloced
  function SetAlloced(h: Heap, p: nat): Heap
    requires p in h.blocks
  {
    h.(blocks := h.blocks[p := h.blocks[p].(free := false)])
  }

  // blk_split: cut p after s payload words; both halves lose FREE_FLAG and keep SIZE_FLAG.
  function Split(h: Heap, p: nat, s: nat): Heap
    requires p in h.blocks && s + 2 <= h.blocks[p].w
  {
    var b := h.blocks[p];
    h.(blocks := h.blocks[p := Blk(s, false, b.big, b.area, NOWHERE)]
                         [p + s + 2 := Blk(b.w - s - 2, false, b.big, b.area, NOWHERE)])
  }

  // blk_setsize over p and its successor: one block, all flags cleared.
  function Join(h: Heap, p: nat): Heap
    requires p in h.blocks && Next(h, p) in h.blocks
  {
    var n := Next(h, p);
    h.(blocks := (h.blocks - {n})[p := Blk(h.blocks[p].w + h.blocks[n].w + 2, false, false, h.blocks[p].area, NOWHERE)])
  }

  function SetArea2M(h: Heap, p: nat): Heap
    requires p in h.blocks
  {
    h.(blocks := h.blocks[p := h.blocks[p].(big := true)])
  }

  // ----- each step keeps the tiling

  // Changing flags or lists does not change the geometry.
  lemma SameShapeLaid(h: Heap, g: Heap)
    requires Laid(h) && g.areas == h.areas && g.blocks.Keys == h.blocks.Keys
    requires forall p :: p in h.blocks ==> g.blocks[p].w == h.blocks[p].w && g.blocks[p].area == h.blocks[p].area
    ensures Laid(g)
  {
    forall p | p in g.blocks ensures NextOk(g, p) {
      assert NextOk(h, p);
    }
    forall p, q | p in g.blocks && q in g.blocks ensures Clear(g, p, q) {
      assert Clear(h, p, q);
    }
    forall a | a in g.areas ensures AreaOk(g, a) {
      assert AreaOk(h, a);
    }
  }

  lemma SplitSized(h: Heap, p: nat, s: nat)
    requires Sized(h) && p in h.blocks && s >= 2 && s % 2 == 0 && s + 4 <= h.blocks[p].w
    ensures Sized(Split(h, p, s))
  {
    var g, r := Split(h, p, s), p + s + 2;
    forall x | x in g.blocks ensures BlockOk(g, x) {
      assert BlockOk(h, if x == r then p else x);
    }
  }

  lemma SplitChained(h: Heap, p: nat, s: nat)
    requires Sized(h) && Chained(h) && p in h.blocks && s >= 2 && s % 2 == 0 && s + 4 <= h.blocks[p].w
    requires p + s + 2 !in h.blocks && Sized(Split(h, p, s))
    ensures Chained(Split(h, p, s))
  {
    var g, r := Split(h, p, s), p + s + 2;
    forall q | q in g.blocks ensures NextOk(g, q) {
      assert NextOk(h, if q == r then p else q);
    }
  }

  lemma SplitApart(h: Heap, p: nat, s: nat)
    requires Apart(h) && p in h.blocks && s + 2 <= h.blocks[p].w
    ensures Apart(Split(h, p, s))
  {
    var g, r := Split(h, p, s), p + s + 2;
    forall x, y | x in g.blocks && y in g.blocks ensures Clear(g, x, y) {
      assert x in h.blocks ==> Clear(h, x, p) && Clear(h, p, x);
      assert y in h.blocks ==> Clear(h, p, y);
      assert x in h.blocks && y in h.blocks ==> Clear(h, x, y);
    }
  }

  lemma SplitAreas(h: Heap, p: nat, s: nat)
    requires AreasOk(h) && p in h.blocks && s + 2 <= h.blocks[p].w
    requires p + s + 2 !in h.blocks
    ensures AreasOk(Split(h, p, s))
  {
    var g := Split(h, p, s);
    forall a | a in g.areas ensures AreaOk(g, a) {
      assert AreaOk(h, a);
    }
    forall a, b | a in g.areas && b in g.areas && a < b ensures End(g, a) <= b {
      assert End(h, a) <= b;
    }
  }

  lemma SplitLaid(h: Heap, p: nat, s: nat)
    requires Laid(h) && p in h.blocks && s >= 2 && s % 2 == 0 && s + 4 <= h.blocks[p].w
    ensures Laid(Split(h, p, s)) && p + s + 2 !in h.blocks
  {
    assert p + s + 2 in h.blocks ==> Clear(h, p, p + s + 2);
    SplitSized(h, p, s);
    SplitChained(h, p, s);
    SplitApart(h, p, s);
    SplitAreas(h, p, s);
  }

  // p has a successor n in its own area.
  ghost predicate Joinable(h: Heap, p: nat) {
    p in h.blocks && Next(h, p) in h.blocks && h.blocks[Next(h, p)].area == h.blocks[p].area
  }

  lemma JoinSized(h: Heap, p: nat)
    requires Sized(h) && Joinable(h, p)
    ensures Sized(Join(h, p))
  {
    var g, n := Join(h, p), Next(h, p);
    assert BlockOk(h, n);
    forall x | x in g.blocks ensures BlockOk(g, x) {
      assert BlockOk(h, x);
    }
  }

  lemma JoinChained(h: Heap, p: nat)
    requires Sized(h) && Chained(h) && Apart(h) && Joinable(h, p) && Sized(Join(h, p))
    ensures Chained(Join(h, p))
  {
    var g, n := Join(h, p), Next(h, p);
    assert NextOk(h, n);
    forall q | q in g.blocks ensures NextOk(g, q) {
      assert NextOk(h, q) && Clear(h, p, q) && Clear(h, q, p);
    }
  }

  lemma JoinApart(h: Heap, p: nat)
    requires Apart(h) && Joinable(h, p)
    ensures Apart(Join(h, p))
  {
    var g, n := Join(h, p), Next(h, p);
    forall x, y | x in g.blocks && y in g.blocks ensures Clear(g, x, y) {
      assert Clear(h, x, y) && Clear(h, n, y) && Clear(h, p, y);
    }
  }

  lemma JoinAreas(h: Heap, p: nat)
    requires Sized(h) && AreasOk(h) && Joinable(h, p)
    ensures AreasOk(Join(h, p))
  {
    var g := Join(h, p);
    assert BlockOk(h, p);
    forall a | a in g.areas ensures AreaOk(g, a) {
      assert AreaOk(h, a);
    }
    forall a, b | a in g.areas && b in g.areas && a < b ensures End(g, a) <= b {
      assert End(h, a) <= b;
    }
  }

  lemma JoinLaid(h: Heap, p: nat)
    requires Laid(h) && Joinable(h, p)
    ensures Laid(Join(h, p))
  {
    JoinSized(h, p);
    JoinChained(h, p);
    JoinApart(h, p);
    JoinAreas(h, p);
  }

  // ----- each step keeps the lists

  lemma {:induction false} WithoutMembers(l: seq<nat>, p: nat)
    requires NoDup(l)
    ensures forall x :: x in Without(l, p) <==> x in l && x != p
    ensures NoDup(Without(l, p))
  {
    if l != [] {
      WithoutMembers(l[1..], p);
      assert l == [l[0]] + l[1..];
      if l[0] != p {
        var r := Without(l[1..], p);
        assert l[0] !in l[1..];
        assert Without(l, p) == [l[0]] + r;
      }
    }
  }

  lemma {:induction false} WithoutAt(l: seq<nat>, k: nat)
    requires NoDup(l) && k < |l|
    ensures Without(l, l[k]) == l[..k] + l[k + 1..]
  {
    if k > 0 {
      WithoutAt(l[1..], k - 1);
      assert l[1..][k - 1] == l[k] != l[0];
      assert l[1..][..k - 1] == l[1..k] && l[1..][k..] == l[k + 1..];
      assert [l[0]] + l[1..k] == l[..k];
    }
  }

  lemma TakeWF(h: Heap, p: nat)
    requires WF(h, 0) && p in h.blocks && h.blocks[p].home < 9
    ensures WF(Take(h, p), p)
  {
    hide Laid, ClassOf;
    var g, id := Take(h, p), h.blocks[p].home;
    SameShapeLaid(h, g);
    WithoutMembers(h.lists[id], p);
    assert Homed(g) by {
      forall q | q in g.blocks && g.blocks[q].home < 9 ensures q in g.lists[g.blocks[q].home] {
        assert q in h.lists[h.blocks[q].home];
      }
    }
    forall q | q in g.blocks && q != p ensures g.blocks[q] == h.blocks[q] {}
    assert Listed(g, p);
  }

  lemma PutWF(h: Heap, p: nat)
    requires WF(h, 0) && p in h.blocks && !h.blocks[p].free
    ensures WF(Put(h, p), 0)
  {
    hide Laid, ClassOf;
    var g, id := Put(h, p), ClassOf(h.blocks[p].w);
    SameShapeLaid(h, g);
    assert p !in h.lists[id] by {
      assert h.blocks[p].home == h.blocks[p].home;
    }
    assert Homed(g) by {
      forall q | q in g.blocks && g.blocks[q].home < 9 ensures q in g.lists[g.blocks[q].home] {
        assert q != p ==> q in h.lists[h.blocks[q].home];
      }
    }
  }

  // p may be cut: it is on no list, and it is the block in hand if there is one.
  ghost predicate InHand(h: Heap, p: nat, hand: nat) {
    p in h.blocks && h.blocks[p].home == NOWHERE && (hand == 0 || hand == p)
  }

  lemma SplitWF(h: Heap, p: nat, s: nat, hand: nat)
    requires WF(h, hand) && InHand(h, p, hand)
    requires s >= 2 && s % 2 == 0 && s + 4 <= h.blocks[p].w
    ensures WF(Split(h, p, s), 0)
  {
    hide Laid, ClassOf;
    var g := Split(h, p, s);
    SplitLaid(h, p, s);
    assert Homed(g) by {
      forall q | q in g.blocks && g.blocks[q].home < 9 ensures q in g.lists[g.blocks[q].home] {
        assert q in h.lists[h.blocks[q].home];
      }
    }
    assert Listed(g, 0) by {
      forall q | q in g.blocks && q != p && q != p + s + 2 ensures g.blocks[q] == h.blocks[q] {}
    }
  }

  lemma JoinWF(h: Heap, p: nat, hand: nat)
    requires WF(h, hand) && Joinable(h, p) && (hand == p || hand == Next(h, p))
    requires h.blocks[p].home == h.blocks[Next(h, p)].home == NOWHERE
    ensures WF(Join(h, p), 0)
  {
    hide Laid, ClassOf;
    var g := Join(h, p);
    JoinLaid(h, p);
    assert Homed(g) by {
      forall q | q in g.blocks && g.blocks[q].home < 9 ensures q in g.lists[g.blocks[q].home] {
        assert q in h.lists[h.blocks[q].home];
      }
    }
    assert Listed(g, 0) by {
      forall q | q in g.blocks && q != p ensures g.blocks[q] == h.blocks[q] {}
    }
  }

  lemma SetAllocedWF(h: Heap, p: nat, hand: nat)
    requires WF(h, hand) && InHand(h, p, hand)
    ensures WF(SetAlloced(h, p), 0)
  {
    hide Laid, ClassOf;
    var g := SetAlloced(h, p);
    SameShapeLaid(h, g);
    assert Homed(g) by {
      forall q | q in g.blocks && g.blocks[q].home < 9 ensures q in g.lists[g.blocks[q].home] {
        assert q in h.lists[h.blocks[q].home];
      }
    }
  }

  lemma SetArea2MWF(h: Heap, p: nat)
    requires WF(h, 0) && p in h.blocks
    ensures WF(SetArea2M(h, p), 0)
  {
    hide Laid, ClassOf;
    var g := SetArea2M(h, p);
    SameShapeLaid(h, g);
    assert Homed(g) by {
      forall q | q in g.blocks && g.blocks[q].home < 9 ensures q in g.lists[g.blocks[q].home] {
        assert q in h.lists[h.blocks[q].home];
      }
    }
  }

  // ----- the predecessor of a block

  // The block of p's area, from q on, whose successor is p.
  function PrevFrom(h: Heap, q: nat, p: nat): (r: nat)
    requires Laid(h) && p in h.blocks && q in h.blocks && q < p && h.blocks[q].area == h.blocks[p].area
    ensures r in h.blocks && Next(h, r) == p && h.blocks[r].area == h.blocks[p].area
    decreases p - q
  {
    assert NextOk(h, q) && Clear(h, q, p);
    if Next(h, q) == p then q else PrevFrom(h, Next(h, q), p)
  }

  function Prev(h: Heap, p: nat): (r: nat)
    requires Laid(h) && p in h.blocks && !IsFirst(h, p)
    ensures r in h.blocks && Next(h, r) == p && h.blocks[r].area == h.blocks[p].area
  {
    assert AreaOk(h, h.blocks[p].area);
    PrevFrom(h, h.blocks[p].area + 2, p)
  }

  lemma PrevUnique(h: Heap, p: nat, q: nat)
    requires Laid(h) && p in h.blocks && q in h.blocks && Next(h, q) == p && h.blocks[q].area == h.blocks[p].area
    ensures !IsFirst(h, p) && q == Prev(h, p)
  {
    var r := Prev(h, p);
    assert Clear(h, q, r) && Clear(h, r, q);
  }
}

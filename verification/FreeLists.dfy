/** freelist.hpp, and the static helpers of pool.cpp and mman.cpp on top of it.  `heads` is
    the array of the eight size-class lists followed by the large list. */
module FreeLists {
  import opened Tags
  import opened Heaps
  import opened Ops
  import opened Reps
  import opened Blocks

  // freelist_put, freelists_put
  method FreelistPut(mem: array<nat>, heads: array<nat>, ghost h: Heap, id: nat, p: nat)
    requires mem != heads && WF(h, p) && Rep(mem[..], heads[..], h)
    requires p in h.blocks && h.blocks[p].home == NOWHERE && id < 9
    modifies mem, heads
    ensures Rep(mem[..], heads[..], Enlist(h, p, id))
    ensures Undisturbed(old(mem[..]), mem[..], h, p)
  {
    ghost var m, hs := mem[..], heads[..];
    EnlistRep(m, hs, h, p, id);
    hide WF, Rep, Undisturbed;
    mem[p] := heads[id];
    mem[p + 1] := 0;
    heads[id] := p;
    if mem[p] != 0 {
      mem[mem[p] + 1] := p;
    }
    assert mem[..] == PutWords(m, hs[id], p);
  }

  // freelist_detach, freelists_detach
  method FreelistDetach(mem: array<nat>, heads: array<nat>, ghost h: Heap, id: nat, p: nat)
    requires mem != heads && WF(h, 0) && Rep(mem[..], heads[..], h)
    requires p in h.blocks && h.blocks[p].home == id < 9
    modifies mem, heads
    ensures Rep(mem[..], heads[..], Take(h, p))
    ensures Undisturbed(old(mem[..]), mem[..], h, 0)
  {
    ghost var m, hs := mem[..], heads[..];
    TakeRep(m, hs, h, p, id);
    assert Undisturbed(m, m, h, 0) by {
      forall q | q in h.blocks ensures q + h.blocks[q].w <= |m| {
        assert TagOk(m, h, q);
      }
    }
    hide WF, Rep, Undisturbed;
    if heads[id] == p {
      heads[id] := mem[p];
      return;
    }
    if mem[p] != 0 {
      mem[mem[p] + 1] := mem[p + 1];
    }
    if mem[p + 1] != 0 {
      mem[mem[p + 1]] := mem[p];
    }
    assert mem[..] == DetachWords(m, p);
  }

  // _detach: find the list from the block's size.
  method Detach(mem: array<nat>, heads: array<nat>, ghost h: Heap, p: nat)
    requires mem != heads && WF(h, 0) && Rep(mem[..], heads[..], h)
    requires p in h.blocks && h.blocks[p].home == ClassOf(h.blocks[p].w)
    modifies mem, heads
    ensures Rep(mem[..], heads[..], Take(h, p))
    ensures Undisturbed(old(mem[..]), mem[..], h, 0)
  {
    NextWord(mem[..], h, p);
    var id := SizeToId(8 * BlkSize(mem, p));
    SizeToIdRange(8 * h.blocks[p].w);
    if id < 0 {
      FreelistDetach(mem, heads, h, LARGE, p);
    } else {
      FreelistDetach(mem, heads, h, id, p);
    }
  }

  // do_free: mark the block free and put it on the list of its class.
  method DoFree(mem: array<nat>, heads: array<nat>, ghost h: Heap, p: nat)
    requires mem != heads && WF(h, 0) && Rep(mem[..], heads[..], h) && IsLive(h, p)
    modifies mem, heads
    ensures Rep(mem[..], heads[..], Put(h, p))
    ensures Undisturbed(old(mem[..]), mem[..], h, p)
  {
    hide WF, Laid, Homed, Linked, Fenced, Undisturbed, ClassOf;
    ghost var m := mem[..];
    ghost var b := h.blocks[p].(free := true);
    SizeToIdRange(8 * h.blocks[p].w);
    SetFreedWF(h, p);
    RetagRep(m, heads[..], h, p, b);
    SetFreedTags(m, h, p);
    var size := BlkSize(mem, p);
    BlkSetFreed(mem, p, size);
    ghost var m1 := mem[..];
    assert m1 == TagWords(m, p, b.w, Tag(b));
    NextTag(m1, SetFreed(h, p), p);
    UndisturbedWeaken(m, m1, h, 0, p);
    var id := SizeToId(8 * BlkSize(mem, p));
    ClassIs(h.blocks[p].w);
    FreelistPut(mem, heads, SetFreed(h, p), if id < 0 then LARGE else id, p);
    UndisturbedThrough(m, m1, mem[..], h, SetFreed(h, p), p, p);
  }

  lemma ClassIs(w: nat)
    ensures ClassOf(w) == if SizeToId(8 * w) < 0 then LARGE else SizeToId(8 * w)
  {
  }

  lemma SetFreedTags(m: seq<nat>, h: Heap, p: nat)
    requires p in h.blocks && Tagged(m, h)
    ensures var b := h.blocks[p];
            1 <= p && p + b.w < |m| && SizeOf(m[p - 1]) == b.w &&
            SetFree(m[p - 1]) == SetFree(m[p + b.w]) == Tag(b.(free := true))
  {
    assert TagOk(m, h, p);
    TagBits(h.blocks[p]);
  }

  lemma NextTag(m: seq<nat>, h: Heap, p: nat)
    requires p in h.blocks && Tagged(m, h)
    ensures 1 <= p && p + h.blocks[p].w < |m| && SizeOf(m[p - 1]) == h.blocks[p].w
  {
    assert TagOk(m, h, p);
    TagBits(h.blocks[p]);
  }

  lemma SetFreedWF(h: Heap, p: nat)
    requires WF(h, 0) && IsLive(h, p)
    ensures WF(SetFreed(h, p), p) && h.blocks[p].home == NOWHERE && 0 !in h.blocks && Laid(h) && Homed(h)
  {
    hide Laid, ClassOf;
    var g := SetFreed(h, p);
    SameShapeLaid(h, g);
    forall q | q in g.blocks && g.blocks[q].home < 9 ensures q in g.lists[g.blocks[q].home] {
      assert q in h.lists[h.blocks[q].home];
    }
  }

  /** The first node of list id that fits, taken off the list: freelist_match and the inner
      loop of freelists_match, and their aligned variants for align >= 16. */
  method FreelistMatch(mem: array<nat>, heads: array<nat>, ghost h: Heap, base: nat, id: nat, n: nat, align: nat)
    returns (p: nat)
    requires mem != heads && WF(h, 0) && Rep(mem[..], heads[..], h) && id < 9
    modifies mem, heads
    ensures p == FirstFit(h, base, h.lists[id], n, align) && FirstOf(h, base, h.lists[id], n, align, p)
    ensures p == 0 ==> mem[..] == old(mem[..]) && heads[..] == old(heads[..])
    ensures p != 0 ==> p in h.blocks && h.blocks[p].home == id && Rep(mem[..], heads[..], Take(h, p))
    ensures Undisturbed(old(mem[..]), mem[..], h, 0)
  {
    ghost var l := h.lists[id];
    ghost var k: nat := 0;
    ghost var m := mem[..];
    assert Chain(m, heads[id], l);
    SelfUndisturbed(m, h, 0);
    NoNull(h, id);
    FirstFitFirst(h, base, l, n, align);
    ListNode(h, id, 0);
    p := heads[id];
    while p != 0
      invariant mem[..] == m && heads[..] == old(heads[..])
      invariant k <= |l| && p == (if k < |l| then l[k] else 0) && (k < |l| ==> l[k] != 0)
      invariant FirstFit(h, base, l, n, align) == FirstFit(h, base, l[k..], n, align)
      decreases |l| - k
    {
      assert p in l && LinkOk(m, l, k);
      NextTag(m, h, p);
      var size := BlkSize(mem, p);
      var fits := if align < 16 then size >= n else ToLong(8 * size) - ToLong(8 * Skip(base, p, align)) >= ToLong(8 * n);
      if fits {
        FreelistDetach(mem, heads, h, id, p);
        return;
      }
      p := mem[p];
      k := k + 1;
      ListNode(h, id, k);
    }
  }

  lemma SelfUndisturbed(m: seq<nat>, h: Heap, x: nat)
    requires Tagged(m, h)
    ensures Undisturbed(m, m, h, x)
  {
    forall q | q in h.blocks ensures q + h.blocks[q].w <= |m| {
      assert TagOk(m, h, q);
    }
  }

  lemma ListNode(h: Heap, id: nat, k: nat)
    requires WF(h, 0) && id < 9
    ensures k < |h.lists[id]| ==> h.lists[id][k] != 0
  {
    assert k < |h.lists[id]| ==> h.lists[id][k] in h.lists[id];
  }

  lemma NoNull(h: Heap, id: nat)
    requires WF(h, 0) && id < 9
    ensures 0 !in h.lists[id]
  {
  }

  lemma SearchLarge(h: Heap, base: nat, n: nat, align: nat)
    requires |h.lists| == 9
    ensures SearchFrom(h, base, LARGE, n, align) == FirstFit(h, base, h.lists[LARGE], n, align)
  {
    assert SearchFrom(h, base, 9, n, align) == 0;
  }

  // freelists_match, freelists_aligned_match
  method FreelistsMatch(mem: array<nat>, heads: array<nat>, ghost h: Heap, base: nat, n: nat, align: nat)
    returns (p: nat)
    requires mem != heads && WF(h, 0) && Rep(mem[..], heads[..], h)
    modifies mem, heads
    ensures p == 0 ==> mem[..] == old(mem[..]) && heads[..] == old(heads[..])
    ensures p == 0 ==> Search(h, base, n, align) == FirstFit(h, base, h.lists[LARGE], n, align)
    ensures p != 0 ==> p == Search(h, base, n, align) && p in h.blocks && h.blocks[p].home < 9 && Rep(mem[..], heads[..], Take(h, p))
    ensures p != 0 ==> Earliest(h, base, n, align, p)
    ensures Undisturbed(old(mem[..]), mem[..], h, 0)
  {
    hide EarliestFrom, FirstOf;
    SelfUndisturbed(mem[..], h, 0);
    SearchEarliest(h, base, n, align);
    SizeToIdRange(8 * n);
    SearchLarge(h, base, n, align);
    var id := SizeToId(8 * n);
    if id < 0 {
      return 0;
    }
    while id < 8
      invariant 0 <= id <= 8
      invariant mem[..] == old(mem[..]) && heads[..] == old(heads[..])
      invariant Search(h, base, n, align) == SearchFrom(h, base, id, n, align)
    {
      p := FreelistMatch(mem, heads, h, base, id, n, align);
      if p != 0 {
        return;
      }
      id := id + 1;
    }
    return 0;
  }

  // The search of mpool_alloc and mpool_aligned_alloc: the classes, then the large list.
  method Match(mem: array<nat>, heads: array<nat>, ghost h: Heap, base: nat, n: nat, align: nat) returns (p: nat)
    requires mem != heads && WF(h, 0) && Rep(mem[..], heads[..], h)
    modifies mem, heads
    ensures p == Search(h, base, n, align) && Earliest(h, base, n, align, p)
    ensures p == 0 ==> mem[..] == old(mem[..]) && heads[..] == old(heads[..])
    ensures p != 0 ==> p in h.blocks && h.blocks[p].home < 9 && Rep(mem[..], heads[..], Take(h, p))
    ensures Undisturbed(old(mem[..]), mem[..], h, 0)
  {
    hide EarliestFrom, FirstOf;
    SearchEarliest(h, base, n, align);
    p := FreelistsMatch(mem, heads, h, base, n, align);
    if p == 0 {
      p := FreelistMatch(mem, heads, h, base, LARGE, n, align);
    }
  }
}

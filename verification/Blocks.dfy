/** block.hpp: boundary tags in an array of words. `0` stands for the null pointer.

    The methods work on the words alone; the ghost heap h says what the words represent. */
module Blocks {
  import opened Tags
  import opened Heaps
  import opened Ops
  import opened Reps

  // blk_size
  function BlkSize(mem: array<nat>, p: nat): nat
    requires 1 <= p <= mem.Length
    reads mem
  {
    SizeOf(mem[p - 1])
  }

  // blk_setsize: clears the flags.
  method BlkSetSize(mem: array<nat>, p: nat, s: nat)
    requires 1 <= p && p + s < mem.Length
    modifies mem
    ensures mem[..] == old(mem[..])[p - 1 := 8 * s][p + s := 8 * s]
  {
    mem[p - 1] := 8 * s;
    mem[p + s] := 8 * s;
  }

  // blk_setfreed
  method BlkSetFreed(mem: array<nat>, p: nat, s: nat)
    requires 1 <= p && p + s < mem.Length
    modifies mem
    ensures mem[..] == old(mem[..])[p - 1 := SetFree(old(mem[p - 1]))][p + s := SetFree(old(mem[p + s]))]
  {
    mem[p - 1] := SetFree(mem[p - 1]);
    mem[p + s] := SetFree(mem[p + s]);
  }

  // blk_setalloced
  method BlkSetAlloced(mem: array<nat>, p: nat, s: nat)
    requires 1 <= p && p + s < mem.Length
    modifies mem
    ensures mem[..] == old(mem[..])[p - 1 := ClearFree(old(mem[p - 1]))][p + s := ClearFree(old(mem[p + s]))]
  {
    mem[p - 1] := ClearFree(mem[p - 1]);
    mem[p + s] := ClearFree(mem[p + s]);
  }

  // blk_set_area_2M
  method BlkSetArea2M(mem: array<nat>, p: nat, s: nat)
    requires 1 <= p && p + s < mem.Length
    modifies mem
    ensures mem[..] == old(mem[..])[p - 1 := SetBig(old(mem[p - 1]))][p + s := SetBig(old(mem[p + s]))]
  {
    mem[p - 1] := SetBig(mem[p - 1]);
    mem[p + s] := SetBig(mem[p + s]);
  }

  // blk_set_area_4k
  method BlkSetArea4k(mem: array<nat>, p: nat, s: nat)
    requires 1 <= p && p + s < mem.Length
    modifies mem
    ensures mem[..] == old(mem[..])[p - 1 := ClearBig(old(mem[p - 1]))][p + s := ClearBig(old(mem[p + s]))]
  {
    mem[p - 1] := ClearBig(mem[p - 1]);
    mem[p + s] := ClearBig(mem[p + s]);
  }

  /** The word behind a block is the next head tag or the fence: AREA_FLAG tells which. */
  lemma NextWord(m: seq<nat>, h: Heap, p: nat)
    requires Laid(h) && Tagged(m, h) && Fenced(m, h) && p in h.blocks
    ensures 1 <= p && p + h.blocks[p].w + 1 < |m| && SizeOf(m[p - 1]) == h.blocks[p].w
    ensures AreaBit(m[p + h.blocks[p].w + 1]) <==> IsLast(h, p)
    ensures !IsLast(h, p) ==> Joinable(h, p) && (FreeBit(m[p + h.blocks[p].w + 1]) <==> h.blocks[Next(h, p)].free)
    ensures FreeBit(m[p - 1]) == h.blocks[p].free && SizeBit(m[p - 1]) == h.blocks[p].big
  {
    hide Apart;
    var b := h.blocks[p];
    assert BlockOk(h, p) && NextOk(h, p) && TagOk(m, h, p) && FenceOk(m, h, b.area) && AreaOk(h, b.area);
    TagBits(b);
    if !IsLast(h, p) {
      assert TagOk(m, h, Next(h, p));
      TagBits(h.blocks[Next(h, p)]);
    }
  }

  /** The word two below a block is the previous tail tag or the fence. */
  lemma PrevWord(m: seq<nat>, h: Heap, p: nat)
    requires Laid(h) && Tagged(m, h) && Fenced(m, h) && p in h.blocks
    ensures 2 <= p <= |m|
    ensures AreaBit(m[p - 2]) <==> IsFirst(h, p)
    ensures !IsFirst(h, p) ==>
              Prev(h, p) + SizeOf(m[p - 2]) + 2 == p && (FreeBit(m[p - 2]) <==> h.blocks[Prev(h, p)].free)
  {
    hide Apart;
    var b := h.blocks[p];
    assert BlockOk(h, p) && TagOk(m, h, p) && FenceOk(m, h, b.area) && AreaOk(h, b.area);
    if !IsFirst(h, p) {
      var q := Prev(h, p);
      assert TagOk(m, h, q);
      TagBits(h.blocks[q]);
    }
  }

  // blk_next
  method BlkNext(mem: array<nat>, ghost h: Heap, p: nat) returns (n: nat)
    requires Laid(h) && Tagged(mem[..], h) && Fenced(mem[..], h) && p in h.blocks
    ensures n == if IsLast(h, p) then 0 else Next(h, p)
  {
    NextWord(mem[..], h, p);
    var size := BlkSize(mem, p);
    if AreaBit(mem[p + size + 1]) {
      return 0;
    }
    return p + size + 2;
  }

  // blk_prev
  method BlkPrev(mem: array<nat>, ghost h: Heap, p: nat) returns (q: nat)
    requires Laid(h) && Tagged(mem[..], h) && Fenced(mem[..], h) && p in h.blocks
    ensures q == if IsFirst(h, p) then 0 else Prev(h, p)
  {
    PrevWord(mem[..], h, p);
    if AreaBit(mem[p - 2]) {
      return 0;
    }
    return p - 2 - SizeOf(mem[p - 2]);
  }

  // m with both tags of a block of s words at p set to t.
  function TagWords(m: seq<nat>, p: nat, s: nat, t: nat): seq<nat>
    requires 1 <= p && p + s < |m|
  {
    m[p - 1 := t][p + s := t]
  }

  lemma SplitWordsRep(m: seq<nat>, heads: seq<nat>, h: Heap, p: nat, s: nat)
    requires Laid(h) && Homed(h) && Rep(m, heads, h)
    requires p in h.blocks && h.blocks[p].home == NOWHERE && s + 2 <= h.blocks[p].w && p + s + 2 !in h.blocks
    ensures 1 <= p && p + h.blocks[p].w < |m|
    ensures var g, q := Split(h, p, s), p + s + 2;
            var m1 := TagWords(TagWords(m, p, s, Tag(g.blocks[p])), q, g.blocks[q].w, Tag(g.blocks[q]));
            Rep(m1, heads, g) && Undisturbed(m, m1, h, p) && PayloadSame(m, m1, p, s)
  {
    assert TagOk(m, h, p);
    hide Laid, Homed, Tag;
    var g, q := Split(h, p, s), p + s + 2;
    var m1 := TagWords(TagWords(m, p, s, Tag(g.blocks[p])), q, g.blocks[q].w, Tag(g.blocks[q]));
    assert TagOk(m1, g, p) && TagOk(m1, g, q);
    SplitRep(m, m1, heads, h, p, s);
  }

  // blk_setsize, and blk_set_area_2M if the block lies in a 2 MiB area
  // The tags of both halves, as their sizes and SIZE_FLAG give them.
  lemma SplitTags(h: Heap, p: nat, s: nat)
    requires p in h.blocks && s + 2 <= h.blocks[p].w
    ensures var g, q, big := Split(h, p, s), p + s + 2, h.blocks[p].big;
            && Tag(g.blocks[p]) == (if big then SetBig(8 * s) else 8 * s)
            && var rest := 8 * (h.blocks[p].w - s - 2); Tag(g.blocks[q]) == if big then SetBig(rest) else rest
  {
    hide SetBig;
    var g := Split(h, p, s);
    TagBits(g.blocks[p].(big := false));
    TagBits(g.blocks[p + s + 2].(big := false));
  }

  method SetSizeFlagged(mem: array<nat>, p: nat, s: nat, is2M: bool)
    requires 1 <= p && p + s < mem.Length
    modifies mem
    ensures mem[..] == TagWords(old(mem[..]), p, s, if is2M then SetBig(8 * s) else 8 * s)
  {
    hide SetBig;
    BlkSetSize(mem, p, s);
    if is2M {
      BlkSetArea2M(mem, p, s);
    }
  }

  /** blk_split: refines the cut of the abstract block, and keeps the payload that stays in
      the first half. */
  method BlkSplit(mem: array<nat>, ghost heads: seq<nat>, ghost h: Heap, p: nat, s: nat) returns (q: nat)
    requires Laid(h) && Homed(h) && Rep(mem[..], heads, h)
    requires p in h.blocks && h.blocks[p].home == NOWHERE && s + 2 <= h.blocks[p].w && p + s + 2 !in h.blocks
    modifies mem
    ensures q == p + s + 2
    ensures Rep(mem[..], heads, Split(h, p, s))
    ensures Undisturbed(old(mem[..]), mem[..], h, p) && PayloadSame(old(mem[..]), mem[..], p, s)
  {
    hide Laid, Homed, Undisturbed, PayloadSame, Tag, SetBig, SizeOf, SizeBit, Tagged, Fenced, Linked;
    ghost var m0 := mem[..];
    NextWord(m0, h, p);
    SplitWordsRep(m0, heads, h, p, s);
    SplitTags(h, p, s);
    var is2M := SizeBit(mem[p - 1]);
    var oldsize := BlkSize(mem, p);
    SetSizeFlagged(mem, p, s, is2M);
    var offset := s + 2;
    SetSizeFlagged(mem, p + offset, oldsize - offset, is2M);
    return p + offset;
  }
}

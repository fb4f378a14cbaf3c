/** The words of the pool alone determine the heap; and the one aligned split that destroys
    that encoding. */
module Encoding {
  import opened Tags
  import opened Heaps
  import opened Ops
  import opened Reps
  import opened Blocks

  // Tags are injective: equal words, equal size and flags.
  lemma TagInjective(b: Blk, c: Blk)
    requires Tag(b) == Tag(c)
    ensures b.w == c.w && b.free == c.free && b.big == c.big
  {
    TagBits(b);
    TagBits(c);
  }

  // Walking an area from its first block, both heaps see the same blocks.
  lemma {:induction false} BlockShared(m: seq<nat>, h: Heap, g: Heap, x: nat)
    requires Laid(h) && Laid(g) && Tagged(m, h) && Tagged(m, g) && h.areas == g.areas && x in h.blocks
    ensures x in g.blocks && g.blocks[x] == h.blocks[x].(home := g.blocks[x].home)
    decreases x
  {
    hide Apart, Tag, ClassOf;
    var a := h.blocks[x].area;
    assert BlockOk(h, x) && AreaOk(h, a) && AreaOk(g, a) && TagOk(m, h, x);
    if !IsFirst(h, x) {
      var q := Prev(h, x);
      BlockShared(m, h, g, q);
      assert NextOk(g, q);
    }
    assert TagOk(m, g, x);
    TagInjective(h.blocks[x], g.blocks[x]);
  }

  lemma {:induction false} ChainPrefix(m: seq<nat>, head: nat, l: seq<nat>, r: seq<nat>, k: nat)
    requires Chain(m, head, l) && Chain(m, head, r) && k < |l|
    requires forall j :: 0 <= j < |l| ==> l[j] != 0
    ensures k < |r| && r[k] == l[k]
  {
    if k > 0 {
      ChainPrefix(m, head, l, r, k - 1);
      assert LinkOk(m, l, k - 1) && LinkOk(m, r, k - 1);
    }
  }

  lemma ChainUnique(m: seq<nat>, head: nat, l: seq<nat>, r: seq<nat>)
    requires Chain(m, head, l) && Chain(m, head, r)
    requires (forall j :: 0 <= j < |l| ==> l[j] != 0) && (forall j :: 0 <= j < |r| ==> r[j] != 0)
    ensures l == r
  {
    forall k: nat | k < |l| ensures k < |r| && r[k] == l[k] {
      ChainPrefix(m, head, l, r, k);
    }
    if |l| > |r| {
      ChainPrefix(m, head, l, r, |r|);
    } else if |r| > |l| {
      ChainPrefix(m, head, r, l, |l|);
    } else {
      assert l == r;
    }
  }

  /** No two heaps have the same words: tags, tiling and free lists can be read back from
      memory without ambiguity. */
  lemma HeapFromWords(m: seq<nat>, heads: seq<nat>, h: Heap, g: Heap)
    requires WF(h, 0) && WF(g, 0) && Rep(m, heads, h) && Rep(m, heads, g) && h.areas == g.areas
    ensures h == g
  {
    hide Laid, ClassOf, Tagged, Fenced;
    SameLists(m, heads, h, g);
    forall x | x in h.blocks ensures x in g.blocks && g.blocks[x] == h.blocks[x].(home := g.blocks[x].home) {
      BlockShared(m, h, g, x);
    }
    forall x | x in g.blocks ensures x in h.blocks {
      BlockShared(m, g, h, x);
    }
    forall x | x in h.blocks ensures h.blocks[x].home == g.blocks[x].home {
      assert h.blocks[x].home < 9 ==> x in h.lists[h.blocks[x].home];
    }
    assert h.blocks == g.blocks;
  }

  lemma SameLists(m: seq<nat>, heads: seq<nat>, h: Heap, g: Heap)
    requires WF(h, 0) && WF(g, 0) && Linked(m, heads, h.lists) && Linked(m, heads, g.lists)
    ensures h.lists == g.lists
  {
    hide Laid, ClassOf;
    forall i | 0 <= i < 9 ensures h.lists[i] == g.lists[i] {
      assert Chain(m, heads[i], h.lists[i]) && Chain(m, heads[i], g.lists[i]);
      assert forall j :: 0 <= j < |h.lists[i]| ==> h.lists[i][j] in h.lists[i];
      assert forall j :: 0 <= j < |g.lists[i]| ==> g.lists[i][j] in g.lists[i];
      ChainUnique(m, heads[i], h.lists[i], g.lists[i]);
    }
  }

  // A payload whose head word is 0 is no block of any well-formed heap.
  lemma NoHeadNoBlock(m: seq<nat>, heads: seq<nat>, g: Heap, q: nat)
    requires WF(g, 0) && Rep(m, heads, g) && 1 <= q <= |m| && m[q - 1] == 0
    ensures q !in g.blocks
  {
    hide Chained, Apart, AreasOk, Homed, Listed, ClassOf;
    if q in g.blocks {
      assert TagOk(m, g, q) && BlockOk(g, q);
      TagBits(g.blocks[q]);
    }
  }

  // Some well-formed heap has these words and p as a live block.
  ghost predicate Represented(m: seq<nat>, p: nat) {
    exists g, hs {:trigger Rep(m, hs, g)} :: WF(g, 0) && Rep(m, hs, g) && IsLive(g, p)
  }

  lemma IsRepresented(m: seq<nat>, heads: seq<nat>, h: Heap, p: nat)
    requires WF(h, 0) && Rep(m, heads, h) && IsLive(h, p)
    ensures Represented(m, p)
  {
  }

  /** mpool_aligned_alloc after the search has taken off its list a block p that is 16 bytes
      short of its aligned payload p + 2.  The link words of the empty front block fall on its
      own tail tag and on the head tag of the block that is handed out, so what is left over is
      not cut off, the size counted is 0, and no well-formed heap has that block. */
  method CutSixteen(mem: array<nat>, heads: array<nat>, ghost h: Heap, p: nat, n: nat) returns (q: nat, size: nat)
    requires mem != heads && heads.Length == 9 && WF(h, p) && Rep(mem[..], heads[..], h) && InHand(h, p, p)
    requires h.blocks[p].w >= 4
    modifies mem, heads
    ensures q == p + 2 && size == 0 && q <= mem.Length && mem[q - 1] == 0
    ensures !Represented(mem[..], q)
  {
    hide WF, Laid, Homed, ClassOf, Fenced, Linked, Split;
    ghost var m := mem[..];
    CutSixteenReady(m, heads[..], h, p);
    q := BlkSplit(mem, heads[..], h, p, 0);
    ZeroSize(mem[..], h, p);
    size := BlkSize(mem, p);
    BlkSetFreed(mem, p, size);
    assert mem[p - 1] / 8 == 0;
    var id := SizeToId(8 * BlkSize(mem, p));
    mem[p] := heads[id];
    mem[p + 1] := 0;
    heads[id] := p;
    if mem[p] != 0 {
      mem[mem[p] + 1] := p;
    }
    size := BlkSize(mem, q);
    if size >= n + 8 {
      assert false;
    }
    BlkSetAlloced(mem, q, size);
    forall g, hs | WF(g, 0) && Rep(mem[..], hs, g) ensures !IsLive(g, q) {
      NoHeadNoBlock(mem[..], hs, g, q);
    }
  }

  lemma ZeroSize(m: seq<nat>, h: Heap, p: nat)
    requires p in h.blocks && h.blocks[p].w >= 4 && Tagged(m, Split(h, p, 0))
    ensures 1 <= p && p + 2 < |m| && SizeOf(m[p - 1]) == 0 && SetFree(m[p - 1]) / 8 == 0
  {
    var g := Split(h, p, 0);
    assert TagOk(m, g, p) && TagOk(m, g, p + 2);
    TagBits(g.blocks[p]);
    TagBits(g.blocks[p].(free := true));
  }

  lemma CutSixteenReady(m: seq<nat>, heads: seq<nat>, h: Heap, p: nat)
    requires WF(h, p) && Rep(m, heads, h) && InHand(h, p, p) && h.blocks[p].w >= 4
    ensures Laid(h) && Homed(h) && p + 2 !in h.blocks && heads[0] != p && heads[0] + 1 < |m|
  {
    hide ClassOf;
    assert p + 2 in h.blocks ==> Clear(h, p, p + 2);
    HeadOf(m, heads, h, p, 0);
    assert TagOk(m, h, p);
    if heads[0] != 0 {
      assert TagOk(m, h, heads[0]);
    }
  }
}

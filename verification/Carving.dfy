/** The parts of pool.cpp and mman.cpp that are the same in both: cutting an allocation out of
    the block the search found, and merging a freed block with its neighbours. */
module Carving {
  import opened Tags
  import opened Heaps
  import opened Ops
  import opened Reps
  import opened Blocks
  import opened FreeLists

  lemma SplitLiveSub(h: Heap, p: nat, s: nat)
    requires p in h.blocks && s + 2 <= h.blocks[p].w && p + s + 2 !in h.blocks
    ensures LiveSub(h, Split(h, p, s), p) && IsLive(Split(h, p, s), p) && IsLive(Split(h, p, s), p + s + 2)
  {
  }

  // What a cut of p after s words needs, and what it leaves.
  lemma CutReady(h: Heap, p: nat, s: nat, hand: nat)
    requires WF(h, hand) && InHand(h, p, hand) && s >= 2 && s % 2 == 0 && s + 4 <= h.blocks[p].w
    ensures p + s + 2 !in h.blocks && WF(Split(h, p, s), 0) && LiveSub(h, Split(h, p, s), p)
    ensures Laid(h) && Homed(h) && IsLive(Split(h, p, s), p) && IsLive(Split(h, p, s), p + s + 2)
  {
    hide Laid, Homed, Listed;
    SplitLaid(h, p, s);
    SplitWF(h, p, s, hand);
    SplitLiveSub(h, p, s);
  }

  // try_split_and_free
  method TrySplitAndFree(mem: array<nat>, heads: array<nat>, ghost h: Heap, p: nat, n: nat, ghost hand: nat)
    requires mem != heads && WF(h, hand) && Rep(mem[..], heads[..], h) && InHand(h, p, hand)
    requires 2 <= n <= h.blocks[p].w && n % 2 == 0
    modifies mem, heads
    ensures Rep(mem[..], heads[..], Trim(h, p, n))
    ensures Undisturbed(old(mem[..]), mem[..], h, p)
    ensures PayloadSame(old(mem[..]), mem[..], p, Trim(h, p, n).blocks[p].w)
  {
    hide WF, Laid, Fenced, Linked, ClassOf;
    ghost var m := mem[..];
    NextTag(m, h, p);
    SelfUndisturbed(m, h, p);
    assert PayloadSame(m, m, p, h.blocks[p].w);
    if BlkSize(mem, p) >= n + 8 {
      CutReady(h, p, n, hand);
      hide Rep, Undisturbed, LiveSub, PayloadSame;
      ghost var g := Split(h, p, n);
      var q := BlkSplit(mem, heads[..], h, p, n);
      ghost var m1 := mem[..];
      DoFree(mem, heads, g, q);
      UndisturbedThrough(m, m1, mem[..], h, g, p, q);
      UndisturbedAt(m1, mem[..], g, q, p);
    }
  }

  lemma UndisturbedAt(m0: seq<nat>, m1: seq<nat>, h: Heap, x: nat, p: nat)
    requires Undisturbed(m0, m1, h, x) && IsLive(h, p) && p != x
    ensures PayloadSame(m0, m1, p, h.blocks[p].w)
  {
  }

  // Putting an aligned block's front piece back: the `offset > 0` branch of the aligned calls.
  method FreeFront(mem: array<nat>, heads: array<nat>, ghost h: Heap, p: nat, off: nat) returns (q: nat)
    requires mem != heads && WF(h, p) && Rep(mem[..], heads[..], h) && InHand(h, p, p)
    requires off % 2 == 0 && off >= 4 && off + 2 <= h.blocks[p].w
    modifies mem, heads
    ensures q == p + off && Rep(mem[..], heads[..], CutFront(h, p, off))
    ensures Undisturbed(old(mem[..]), mem[..], h, p)
  {
    hide WF, Laid, Rep, Undisturbed, LiveSub, PayloadSame, ClassOf;
    ghost var m := mem[..];
    ghost var g := Split(h, p, off - 2);
    CutReady(h, p, off - 2, p);
    q := BlkSplit(mem, heads[..], h, p, off - 2);
    ghost var m1 := mem[..];
    DoFree(mem, heads, g, p);
    UndisturbedThrough(m, m1, mem[..], h, g, p, p);
  }

  // Clearing FREE_FLAG of the block that is handed out.
  method Hand(mem: array<nat>, ghost heads: seq<nat>, ghost h: Heap, p: nat) returns (size: nat)
    requires Laid(h) && Homed(h) && Rep(mem[..], heads, h) && p in h.blocks && h.blocks[p].home == NOWHERE
    modifies mem
    ensures size == h.blocks[p].w && Rep(mem[..], heads, SetAlloced(h, p))
    ensures Undisturbed(old(mem[..]), mem[..], h, 0)
  {
    ghost var m := mem[..];
    ghost var b := h.blocks[p].(free := false);
    NextTag(m, h, p);
    TagBits(h.blocks[p]);
    RetagRep(m, heads, h, p, b);
    assert TagOk(m, h, p);
    hide Laid, Homed, Fenced, Linked, Undisturbed;
    size := BlkSize(mem, p);
    BlkSetAlloced(mem, p, size);
    assert mem[..] == TagWords(m, p, b.w, Tag(b));
  }

  // h1, h2 are the heaps between the steps of CarveOut(h, p, off, n).
  ghost predicate Stages(h: Heap, p: nat, off: nat, n: nat, h1: Heap, h2: Heap) {
    && CutsFresh(h, p, off, n)
    && h1 == CutFront(h, p, off)
    && |h1.lists| == 9 && p + off in h1.blocks && n <= h1.blocks[p + off].w && h2 == Trim(h1, p + off, n)
    && p + off in h2.blocks && CarveOut(h, p, off, n) == SetAlloced(h2, p + off)
  }

  lemma StagesExist(h: Heap, p: nat, off: nat, n: nat) returns (h1: Heap, h2: Heap)
    requires CutsFresh(h, p, off, n)
    ensures Stages(h, p, off, n, h1, h2) && LiveSub(h, h1, p) && LiveSub(h, h2, p)
  {
    hide ClassOf;
    h1 := CutFront(h, p, off);
    h2 := Trim(h1, p + off, n);
    forall q | IsLive(h, q) && q != p ensures q in h1.blocks && h1.blocks[q] == h.blocks[q] {}
    forall q | IsLive(h, q) && q != p ensures q in h2.blocks && h2.blocks[q] == h.blocks[q] {}
  }

  lemma TrimReady(h: Heap, p: nat, n: nat, hand: nat)
    requires WF(h, hand) && InHand(h, p, hand) && 2 <= n <= h.blocks[p].w && n % 2 == 0
    ensures |h.lists| == 9
    ensures var g := Trim(h, p, n);
            Laid(g) && Homed(g) && p in g.blocks && g.blocks[p].home == NOWHERE && LiveSub(h, g, p) && 0 !in g.blocks
  {
    hide Laid, Homed, ClassOf;
    NineLists(h);
    TrimWF(h, p, n, hand);
    if h.blocks[p].w >= n + 8 {
      CutReady(h, p, n, hand);
    }
    TrimLiveSub(h, p, n);
  }

  lemma TrimLiveSub(h: Heap, p: nat, n: nat)
    requires p in h.blocks && |h.lists| == 9 && n <= h.blocks[p].w
    requires h.blocks[p].w >= n + 8 ==> p + n + 2 !in h.blocks
    ensures LiveSub(h, Trim(h, p, n), p)
  {
    hide ClassOf;
    var g := Trim(h, p, n);
    forall q | IsLive(h, q) && q != p ensures q in g.blocks && g.blocks[q] == h.blocks[q] {}
  }

  // The common end of the allocation calls: try_split_and_free, then mark the block allocated.
  method Finish(mem: array<nat>, heads: array<nat>, ghost h: Heap, q: nat, n: nat, ghost hand: nat) returns (size: nat)
    requires mem != heads && WF(h, hand) && Rep(mem[..], heads[..], h) && InHand(h, q, hand)
    requires 2 <= n <= h.blocks[q].w && n % 2 == 0
    modifies mem, heads
    ensures Rep(mem[..], heads[..], SetAlloced(Trim(h, q, n), q)) && size == Trim(h, q, n).blocks[q].w
    ensures Undisturbed(old(mem[..]), mem[..], h, q)
  {
    ghost var m := mem[..];
    TrimReady(h, q, n, hand);
    hide WF, Laid, Homed, Rep, Undisturbed, PayloadSame, ClassOf, LiveSub;
    ghost var g := Trim(h, q, n);
    TrySplitAndFree(mem, heads, h, q, n, hand);
    ghost var m1 := mem[..];
    size := Hand(mem, heads[..], g, q);
    UndisturbedWeaken(m1, mem[..], g, 0, q);
    UndisturbedThrough(m, m1, mem[..], h, g, q, q);
  }

  // The plain facts about the heaps of an allocation that Carve needs.
  ghost predicate Planned(h: Heap, p: nat, off: nat, n: nat, h1: Heap, h2: Heap) {
    && Stages(h, p, off, n, h1, h2)
    && (off > 0 ==> off % 2 == 0 && off >= 4 && off + 2 <= h.blocks[p].w)
    && (off == 0 ==> h1 == h)
    && n % 2 == 0 && (p + off == p || p + off !in h.blocks)
    && p + off in CarveOut(h, p, off, n).blocks && CarveOut(h, p, off, n).blocks[p + off].w == h2.blocks[p + off].w
  }

  lemma CarvePlan(m: seq<nat>, heads: seq<nat>, h: Heap, p: nat, off: nat, n: nat, hand: nat) returns (h1: Heap, h2: Heap)
    requires Cuttable(h, p, off, n) && CutsFresh(h, p, off, n) && Rep(m, heads, h)
    requires hand == if off > 0 then 0 else p
    ensures Planned(h, p, off, n, h1, h2)
    ensures WF(h, p) && InHand(h, p, p) && WF(h1, hand) && InHand(h1, p + off, hand)
    ensures LiveSub(h, h1, p) && Undisturbed(m, m, h, p)
  {
    hide WF, ClassOf, Tagged, Fenced, Linked;
    h1, h2 := StagesExist(h, p, off, n);
    CutFrontWF(h, p, off);
    LiveSubSelf(h, p);
    SelfUndisturbedRep(m, heads, h, h, p);
  }

  lemma LiveSubSelf(h: Heap, x: nat)
    ensures LiveSub(h, h, x)
  {
  }

  /** mpool_alloc and mpool_aligned_alloc after the search has taken p off its list: cut the
      front, trim the rest, and hand the block out. */
  method Carve(mem: array<nat>, heads: array<nat>, ghost h: Heap, p: nat, off: nat, n: nat) returns (q: nat, size: nat)
    requires mem != heads && Cuttable(h, p, off, n) && CutsFresh(h, p, off, n) && Rep(mem[..], heads[..], h)
    modifies mem, heads
    ensures q == p + off
    ensures var g := CarveOut(h, p, off, n); Rep(mem[..], heads[..], g) && q in g.blocks && size == g.blocks[q].w
    ensures Undisturbed(old(mem[..]), mem[..], h, 0)
  {
    hide WF, Cuttable, Rep, Undisturbed, LiveSub, CutFront, Trim, CarveOut, SetAlloced;
    ghost var m := mem[..];
    ghost var hand := if off > 0 then 0 else p;
    ghost var h1, h2 := CarvePlan(m, heads[..], h, p, off, n, hand);
    q := p;
    if off > 0 {
      q := FreeFront(mem, heads, h, p, off);
    }
    ghost var m1 := mem[..];
    size := Finish(mem, heads, h1, q, n, hand);
    UndisturbedThrough(m, m1, mem[..], h, h1, p, q);
    UndisturbedWeaken(m, mem[..], h, p, 0);
  }

  lemma SelfUndisturbedRep(m: seq<nat>, heads: seq<nat>, g: Heap, h: Heap, p: nat)
    requires Rep(m, heads, g) && LiveSub(h, g, p)
    ensures Undisturbed(m, m, h, p)
  {
    forall q | q in h.blocks && !h.blocks[q].free && q != p ensures q + h.blocks[q].w <= |m| {
      assert TagOk(m, g, q);
    }
  }

  // ----- merging

  lemma AbsorbPlan(h: Heap, p: nat, listed: nat, other: nat) returns (h1: Heap)
    requires WF(h, 0) && Absorbable(h, p, listed, other)
    ensures h.blocks[listed].home == ClassOf(h.blocks[listed].w) && h.blocks[listed].home < |h.lists| == 9
    ensures 0 !in h.blocks && h1 == Take(h, listed) && Joinable(h1, p) && Next(h1, p) == Next(h, p) && LiveSub(h, h1, 0)
    ensures h1.blocks[p].w == h.blocks[p].w && h1.blocks[Next(h, p)].w == h.blocks[Next(h, p)].w
    ensures Laid(h1) && Laid(Join(h1, p)) && Homed(Join(h1, p)) && Join(h1, p) == Absorb(h, p, listed)
  {
    hide Laid, Homed, ClassOf;
    NineLists(h);
    AbsorbHome(h, p, listed, other);
    TakeWF(h, listed);
    AbsorbWF(h, p, listed, other);
    h1 := Take(h, listed);
  }

  // blk_mergenext with the _detach callback
  method BlkMergeNext(mem: array<nat>, heads: array<nat>, ghost h: Heap, p: nat)
    requires mem != heads && WF(h, 0) && Rep(mem[..], heads[..], h)
    requires Laid(h) && IsLive(h, p) && MergesNext(h, p) && Absorbable(h, p, Next(h, p), p)
    modifies mem, heads
    ensures Rep(mem[..], heads[..], MergeNext(h, p))
    ensures Undisturbed(old(mem[..]), mem[..], h, 0)
  {
    hide WF, Laid, Homed, ClassOf, LiveSub, Undisturbed, Rep, Join;
    ghost var m := mem[..];
    RepParts(m, heads[..], h);
    var next := BlkNext(mem, h, p);
    assert next == Next(h, p);
    ghost var h1 := AbsorbPlan(h, p, next, p);
    NextTag(m, h, p);
    NextTag(m, h, next);
    var size := BlkSize(mem, p) + BlkSize(mem, next) + 2;
    Detach(mem, heads, h, next);
    ghost var m1 := mem[..];
    JoinRep(m1, heads[..], h1, p);
    JoinSize(h1, p);
    BlkSetSize(mem, p, size);
    UndisturbedWeaken(m1, mem[..], h1, next, 0);
    UndisturbedThrough(m, m1, mem[..], h, h1, 0, 0);
  }

  lemma RepParts(m: seq<nat>, heads: seq<nat>, h: Heap)
    requires Rep(m, heads, h)
    ensures Tagged(m, h) && Fenced(m, h) && Linked(m, heads, h.lists)
  {
  }

  lemma JoinSize(h: Heap, p: nat)
    requires Joinable(h, p)
    ensures p in Join(h, p).blocks && Join(h, p).blocks[p].w == h.blocks[p].w + h.blocks[Next(h, p)].w + 2
  {
  }

  // blk_mergeprev with the _detach callback
  method BlkMergePrev(mem: array<nat>, heads: array<nat>, ghost h: Heap, p: nat) returns (q: nat)
    requires mem != heads && WF(h, 0) && Rep(mem[..], heads[..], h)
    requires Laid(h) && IsLive(h, p) && MergesPrev(h, p) && Absorbable(h, Prev(h, p), Prev(h, p), p)
    modifies mem, heads
    ensures Rep(mem[..], heads[..], MergePrev(h, p).0) && q == MergePrev(h, p).1
    ensures Undisturbed(old(mem[..]), mem[..], h, p)
  {
    hide WF, Laid, Homed, ClassOf, LiveSub, Undisturbed, Rep, Join;
    ghost var m := mem[..];
    RepParts(m, heads[..], h);
    q := BlkPrev(mem, h, p);
    assert q == Prev(h, p);
    ghost var h1 := AbsorbPlan(h, q, q, p);
    NextTag(m, h, p);
    NextTag(m, h, q);
    var size := BlkSize(mem, p) + BlkSize(mem, q) + 2;
    Detach(mem, heads, h, q);
    ghost var m1 := mem[..];
    JoinRep(m1, heads[..], h1, q);
    JoinSize(h1, q);
    BlkSetSize(mem, q, size);
    LiveSubWeaken(h, h1, p);
    UndisturbedZero(m, m1, h, p);
    UndisturbedThrough(m, m1, mem[..], h, h1, p, p);
  }

  lemma LiveSubWeaken(h: Heap, g: Heap, x: nat)
    requires LiveSub(h, g, 0) && 0 !in h.blocks
    ensures LiveSub(h, g, x)
  {
  }

  lemma UndisturbedZero(m0: seq<nat>, m1: seq<nat>, h: Heap, x: nat)
    requires Undisturbed(m0, m1, h, 0) && 0 !in h.blocks
    ensures Undisturbed(m0, m1, h, x)
  {
    UndisturbedWeaken(m0, m1, h, 0, x);
  }

  lemma MergedLiveSub(h: Heap, p: nat, g: Heap, lo: nat, hi: nat, b: bool)
    requires p in h.blocks && Merged(h, p, g, lo, hi, false, b)
    requires forall x {:trigger x in h.blocks} :: x in h.blocks && lo <= x < hi && x != p ==> h.blocks[x].free
    ensures LiveSub(h, g, p)
  {
    forall x | IsLive(h, x) && x != p ensures x in g.blocks && !g.blocks[x].free && g.blocks[x].w == h.blocks[x].w {
      assert SameBlock(h, g, x);
    }
  }

  ghost predicate MergePlanned(h: Heap, p: nat, g1: Heap, g2: Heap, q: nat)
    requires WF(h, 0) && IsLive(h, p) && WF(g1, 0) && IsLive(g1, p)
  {
    && g1 == MergeNext(h, p) && (g2, q) == MergePrev(g1, p)
    && (if MergesNext(h, p) then Absorbable(h, p, Next(h, p), p) else g1 == h)
    && (if MergesPrev(g1, p) then Absorbable(g1, Prev(g1, p), Prev(g1, p), p) else g2 == g1 && q == p)
    && q in g2.blocks && TryMerge(h, p) == (if h.blocks[p].big then SetArea2M(g2, q) else g2, q)
  }

  lemma MergePlan(h: Heap, p: nat) returns (g1: Heap, g2: Heap, q: nat)
    requires WF(h, 0) && IsLive(h, p)
    ensures WF(g1, 0) && IsLive(g1, p) && WF(g2, 0) && IsLive(g2, q) && g2.blocks[q].home == NOWHERE
    ensures MergePlanned(h, p, g1, g2, q)
    ensures Laid(h) && Laid(g1) && Laid(g2) && Homed(g2) && 0 !in h.blocks && LiveSub(h, g1, p) && LiveSub(h, g2, p)
    ensures q != p ==> q in h.blocks && h.blocks[q].free
  {
    hide Homed, ClassOf;
    MergeNextWF(h, p);
    g1 := MergeNext(h, p);
    MergePrevWF(g1, p);
    g2 := MergePrev(g1, p).0;
    q := MergePrev(g1, p).1;
    if MergesNext(h, p) {
      NextAbsorbable(h, p);
    }
    MergeNextMerges(h, p);
    MergePrevMerges(g1, p);
    MergePlanLive(h, p, g1, g2, q);
  }

  lemma MergePlanLive(h: Heap, p: nat, g1: Heap, g2: Heap, q: nat)
    requires WF(h, 0) && IsLive(h, p) && WF(g1, 0) && IsLive(g1, p)
    requires g1 == MergeNext(h, p) && (g2, q) == MergePrev(g1, p)
    ensures LiveSub(h, g1, p) && LiveSub(h, g2, p) && (q != p ==> q in h.blocks && h.blocks[q].free)
  {
    hide Laid, Homed, Listed, ClassOf;
    MergeNextMerges(h, p);
    MergePrevMerges(g1, p);
    LoStable(h, p);
    SpanFree(h, p);
    var b := h.blocks[p].big && !MergesNext(h, p);
    MergedLiveSub(h, p, g1, p, Hi(h, p), b);
    var b2 := g1.blocks[p].big && !MergesPrev(g1, p);
    MergedTwice(h, p, g1, Hi(h, p), b, g2, q, b2);
    MergedLiveSub(h, p, g2, q, Hi(h, p), b2);
  }

  /** blk_trymerge: absorbs the free successor, then the free predecessor, and puts SIZE_FLAG
      back. */
  method BlkTryMerge(mem: array<nat>, heads: array<nat>, ghost h: Heap, p: nat) returns (q: nat)
    requires mem != heads && WF(h, 0) && Rep(mem[..], heads[..], h) && IsLive(h, p)
    modifies mem, heads
    ensures Rep(mem[..], heads[..], TryMerge(h, p).0) && q == TryMerge(h, p).1
    ensures Undisturbed(old(mem[..]), mem[..], h, p)
  {
    hide WF, Laid, Homed, ClassOf, LiveSub, Undisturbed, Rep, MergeNext, MergePrev, TryMerge, Absorbable;
    ghost var m := mem[..];
    ghost var g1, g2, q' := MergePlan(h, p);
    RepParts(m, heads[..], h);
    SelfUndisturbed(m, h, p);
    NextWord(m, h, p);
    var is2M := SizeBit(mem[p - 1]);
    var size := BlkSize(mem, p);
    if !AreaBit(mem[p + size + 1]) && FreeBit(mem[p + size + 1]) {
      BlkMergeNext(mem, heads, h, p);
      UndisturbedZero(m, mem[..], h, p);
    }
    ghost var m1 := mem[..];
    RepParts(m1, heads[..], g1);
    PrevWord(m1, g1, p);
    SelfUndisturbed(m1, g1, p);
    q := p;
    if !AreaBit(mem[p - 2]) && FreeBit(mem[p - 2]) {
      q := BlkMergePrev(mem, heads, g1, p);
    }
    UndisturbedThrough(m, m1, mem[..], h, g1, p, p);
    if is2M {
      ghost var m2 := mem[..];
      MarkArea2M(mem, heads[..], g2, q);
      UndisturbedThrough(m, m2, mem[..], h, g2, p, 0);
    }
  }

  // blk_set_area_2M(ptr, blk_size(ptr))
  method MarkArea2M(mem: array<nat>, ghost heads: seq<nat>, ghost h: Heap, p: nat)
    requires Laid(h) && Homed(h) && Rep(mem[..], heads, h) && p in h.blocks && h.blocks[p].home == NOWHERE
    modifies mem
    ensures Rep(mem[..], heads, SetArea2M(h, p))
    ensures Undisturbed(old(mem[..]), mem[..], h, 0)
  {
    hide Laid, Homed, Fenced, Linked, Undisturbed, WF;
    ghost var m := mem[..];
    ghost var b := h.blocks[p].(big := true);
    NextTag(m, h, p);
    TagBits(h.blocks[p]);
    RetagRep(m, heads, h, p, b);
    assert TagOk(m, h, p);
    var size := BlkSize(mem, p);
    BlkSetArea2M(mem, p, size);
    assert mem[..] == TagWords(m, p, b.w, Tag(b));
  }

  // blk_setfreed(ptr, blk_size(ptr))
  method MarkFreed(mem: array<nat>, ghost heads: seq<nat>, ghost h: Heap, p: nat)
    requires Laid(h) && Homed(h) && Rep(mem[..], heads, h) && p in h.blocks && h.blocks[p].home == NOWHERE
    modifies mem
    ensures Rep(mem[..], heads, SetFreed(h, p))
    ensures Undisturbed(old(mem[..]), mem[..], h, 0)
  {
    hide Laid, Homed, Fenced, Linked, Undisturbed, WF;
    ghost var m := mem[..];
    ghost var b := h.blocks[p].(free := true);
    SetFreedTags(m, h, p);
    RetagRep(m, heads, h, p, b);
    var size := BlkSize(mem, p);
    BlkSetFreed(mem, p, size);
    assert mem[..] == TagWords(m, p, b.w, Tag(b));
  }

  lemma FreePlan(h: Heap, p: nat) returns (g: Heap, q: nat)
    requires WF(h, 0) && IsLive(h, p)
    ensures (g, q) == TryMerge(h, p) && WF(g, 0) && IsLive(g, q) && |g.lists| == 9 && Free(h, p) == Put(g, q)
    ensures LiveSub(h, g, p) && (q != p ==> q in h.blocks && h.blocks[q].free)
  {
    hide Laid, Listed, ClassOf, MergeNext, MergePrev, TryMerge, Absorbable;
    ghost var g1, g2, q' := MergePlan(h, p);
    TryMergeWF(h, p);
    g, q := TryMerge(h, p).0, TryMerge(h, p).1;
  }

  /** The body of mpool_free after its accounting: merge with the neighbours, then list. */
  method Release(mem: array<nat>, heads: array<nat>, ghost h: Heap, p: nat)
    requires mem != heads && WF(h, 0) && Rep(mem[..], heads[..], h) && IsLive(h, p)
    modifies mem, heads
    ensures Rep(mem[..], heads[..], Free(h, p))
    ensures Undisturbed(old(mem[..]), mem[..], h, p)
  {
    hide *;
    ghost var m := mem[..];
    ghost var g, q' := FreePlan(h, p);
    var q := BlkTryMerge(mem, heads, h, p);
    ghost var m1 := mem[..];
    DoFree(mem, heads, g, q);
    UndisturbedThrough(m, m1, mem[..], h, g, p, q);
  }

  /** memcpy of w payload words from block p to block q: the target gets the source's words
      and nothing outside its payload changes. */
  method CopyPayload(mem: array<nat>, ghost heads: seq<nat>, ghost h: Heap, q: nat, p: nat, w: nat)
    requires WF(h, 0) && Rep(mem[..], heads, h) && IsLive(h, q) && IsLive(h, p) && p != q
    requires w <= h.blocks[q].w && w <= h.blocks[p].w
    modifies mem
    ensures Rep(mem[..], heads, h) && Undisturbed(old(mem[..]), mem[..], h, q)
    ensures q + w <= mem.Length && p + w <= mem.Length && mem[q..q + w] == old(mem[p..p + w])
  {
    hide WF, Linked, Fenced, Undisturbed, ClassOf;
    ghost var m := mem[..];
    LiveApart(h, p, q);
    assert TagOk(m, h, p) && TagOk(m, h, q);
    assert p + w <= q || q + w <= p;
    hide Tagged, TagOk;
    var i := 0;
    while i < w
      invariant 0 <= i <= w
      invariant forall j :: q <= j < q + i ==> mem[j] == m[p + (j - q)]
      invariant forall j :: 0 <= j < mem.Length && !(q <= j < q + i) ==> mem[j] == m[j]
    {
      mem[q + i] := mem[p + i];
      i := i + 1;
    }
    assert mem[q..q + w] == m[p..p + w];
    assert mem[..][..q] == m[..q] && mem[..][q + w..] == m[q + w..];
    CopyRep(m, mem[..], heads, h, q, w);
  }

  lemma CopyRep(m: seq<nat>, m1: seq<nat>, heads: seq<nat>, h: Heap, q: nat, w: nat)
    requires WF(h, 0) && Rep(m, heads, h) && IsLive(h, q) && w <= h.blocks[q].w && q + w <= |m|
    requires |m1| == |m| && m1[..q] == m[..q] && m1[q + w..] == m[q + w..]
    ensures Rep(m1, heads, h) && Undisturbed(m, m1, h, q)
  {
    hide Listed, Sized, Chained, Apart, AreasOk, ClassOf;
    HomeOfLive(h, q);
    forall i | 0 <= i < |m| && !(q <= i < q + w) ensures m1[i] == m[i] {
      if i < q {
        assert m1[..q][i] == m[..q][i];
      } else {
        assert m1[q + w..][i - q - w] == m[q + w..][i - q - w];
      }
    }
    PayloadRep(m, m1, heads, h, q);
  }

  // Any writes to the payload of an unlisted block leave the heap as it is.
  lemma PayloadRep(m: seq<nat>, m1: seq<nat>, heads: seq<nat>, h: Heap, q: nat)
    requires Laid(h) && Homed(h) && Rep(m, heads, h) && q in h.blocks && h.blocks[q].home == NOWHERE && |m1| == |m|
    requires forall i {:trigger m1[i]} :: 0 <= i < |m| && !(q <= i < q + h.blocks[q].w) ==> m1[i] == m[i]
    ensures Rep(m1, heads, h) && Undisturbed(m, m1, h, q)
  {
    hide Sized, Chained, Apart, AreasOk, Homed;
    forall x | x in h.blocks ensures TagOk(m, h, x) {}
    SpanRep(m, m1, heads, h, q);
    assert TagOk(m1, h, q);
    forall x | x in h.blocks ensures TagOk(m1, h, x) {}
  }

  lemma HomeOfLive(h: Heap, q: nat)
    requires WF(h, 0) && IsLive(h, q)
    ensures h.blocks[q].home == NOWHERE && q != 0
  {
    hide Laid, Homed, ClassOf;
  }

  lemma LiveApart(h: Heap, p: nat, q: nat)
    requires WF(h, 0) && IsLive(h, p) && IsLive(h, q) && p != q
    ensures Next(h, p) <= q || Next(h, q) <= p
  {
    hide Homed, Listed, Chained, AreasOk;
    assert Clear(h, p, q) && Clear(h, q, p);
  }
}

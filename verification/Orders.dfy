/** The order of the free lists: what each call puts in front of them and takes out. */
module Orders {
  import opened Tags
  import opened Heaps
  import opened Ops

  // The list l with x in front if c holds.
  function Onto(c: bool, x: nat, l: seq<nat>): seq<nat> { if c then [x] + l else l }

  lemma {:induction false} WithoutNone(l: seq<nat>, p: nat)
    requires p !in l
    ensures Without(l, p) == l
  {
    if l != [] {
      WithoutNone(l[1..], p);
    }
  }

  // Taking p off its list leaves every other list, and every list without p.
  lemma TakeLists(h: Heap, p: nat, i: nat)
    requires Homed(h) && p in h.blocks && h.blocks[p].home < 9 && i < 9
    ensures Take(h, p).lists[i] == Without(h.lists[i], p)
  {
    if i != h.blocks[p].home {
      WithoutNone(h.lists[i], p);
    }
  }

  // ----- allocation

  /** Of the block p, the front piece and then the rest have become the first nodes of the lists
      of their classes. */
  ghost predicate CarvedLists(h: Heap, p: nat, off: nat, n: nat, g: Heap)
    requires p in h.blocks
  {
    var left := h.blocks[p].w - off;
    && |g.lists| == |h.lists| == 9
    && forall i {:trigger g.lists[i]} :: 0 <= i < 9 ==>
         g.lists[i] == Onto(left >= n + 8 && i == ClassOf(left - n - 2), p + off + n + 2,
                            Onto(off >= 2 && i == ClassOf(off - 2), p, Without(h.lists[i], p)))
  }

  lemma CarveOutLists(h: Heap, p: nat, off: nat, n: nat)
    requires Homed(h) && p in h.blocks && h.blocks[p].home < 9 && off != 1 && n + off <= h.blocks[p].w
    ensures CarvedLists(h, p, off, n, CarveOut(Take(h, p), p, off, n))
  {
    hide ClassOf, Homed, CarvedLists;
    NineLists(h);
    var g := CarveOut(Take(h, p), p, off, n);
    forall i | 0 <= i < 9
      ensures g.lists[i] == Onto(h.blocks[p].w - off >= n + 8 && i == ClassOf(h.blocks[p].w - off - n - 2), p + off + n + 2,
                                 Onto(off >= 2 && i == ClassOf(off - 2), p, Without(h.lists[i], p))) {
      TakeLists(h, p, i);
    }
    IsCarved(h, p, off, n, g);
  }

  lemma IsCarved(h: Heap, p: nat, off: nat, n: nat, g: Heap)
    requires p in h.blocks && off <= h.blocks[p].w && |g.lists| == |h.lists| == 9
    requires forall i :: 0 <= i < 9 ==>
               g.lists[i] == Onto(h.blocks[p].w - off >= n + 8 && i == ClassOf(h.blocks[p].w - off - n - 2), p + off + n + 2,
                                  Onto(off >= 2 && i == ClassOf(off - 2), p, Without(h.lists[i], p)))
    ensures CarvedLists(h, p, off, n, g)
  {
    hide ClassOf, Onto;
  }

  /** Everything an allocation does to the heap: it takes the first passing block of the earliest
      list, cuts it into front, block and rest, and puts front and rest in front of the lists of
      their classes. */
  lemma AllocPlaced(h: Heap, base: nat, n: nat, align: nat)
    requires WF(h, 0) && Request(base, n, align) && Separable(h, base, n, align)
    ensures var (g, r) := Alloc(h, base, n, align);
            var p := Search(h, base, n, align);
            var off := Skip(base, p, align);
            && Earliest(h, base, n, align, p)
            && (p == 0 ==> g == h && r == 0)
            && (p != 0 ==> p in h.blocks && r == p + off && Carved(h, p, off, n, g) && CarvedLists(h, p, off, n, g))
  {
    hide WF, ClassOf, Skip, Search, CarveOut, Carved, CarvedLists, Cuttable, Earliest;
    SearchEarliest(h, base, n, align);
    if Search(h, base, n, align) != 0 {
      AllocCarves(h, base, n, align);
      ChosenCuttable(h, base, n, align);
      WellHomed(h);
      NineLists(h);
      CarveOutLists(h, Search(h, base, n, align), Skip(base, Search(h, base, n, align), align), n);
    }
  }

  lemma WellHomed(h: Heap)
    requires WF(h, 0)
    ensures Homed(h)
  {
  }

  // ----- freeing

  // A block that is not listed is on no list.
  lemma Unlisted(h: Heap, x: nat, i: nat)
    requires Homed(h) && i < 9 && (x in h.blocks ==> h.blocks[x].home >= 9)
    ensures Without(h.lists[i], x) == h.lists[i]
  {
    WithoutNone(h.lists[i], x);
  }

  // blk_trymerge takes the free neighbours off their lists.
  lemma MergeNextLists(h: Heap, p: nat, i: nat)
    requires WF(h, 0) && IsLive(h, p) && i < 9
    ensures |MergeNext(h, p).lists| == 9 && MergeNext(h, p).lists[i] == Without(h.lists[i], Next(h, p))
  {
    hide Laid, Listed, ClassOf;
    var x := Next(h, p);
    WellHomed(h);
    if MergesNext(h, p) {
      NextAbsorbable(h, p);
      TakeLists(h, x, i);
    } else {
      NextUnlisted(h, p);
      Unlisted(h, x, i);
    }
  }

  lemma NextUnlisted(h: Heap, p: nat)
    requires WF(h, 0) && p in h.blocks && !MergesNext(h, p)
    ensures Next(h, p) in h.blocks ==> h.blocks[Next(h, p)].home >= 9
  {
    hide Homed, ClassOf, Apart;
    assert NextOk(h, p) && BlockOk(h, p);
    var x := Next(h, p);
    if x in h.blocks {
      assert BlockOk(h, x) && h.blocks[x].home == h.blocks[x].home;
    }
  }

  lemma MergePrevLists(h: Heap, p: nat, i: nat)
    requires WF(h, 0) && IsLive(h, p) && i < 9
    ensures var g := MergePrev(h, p).0; |g.lists| == 9 && g.lists[i] == Without(h.lists[i], Lo(h, p))
  {
    hide Listed, ClassOf;
    WellHomed(h);
    LiveUnlisted(h, p);
    if MergesPrev(h, p) {
      AbsorbHome(h, Prev(h, p), Prev(h, p), p);
      TakeLists(h, Prev(h, p), i);
    } else {
      Unlisted(h, p, i);
    }
  }

  lemma LiveUnlisted(h: Heap, p: nat)
    requires WF(h, 0) && IsLive(h, p)
    ensures h.blocks[p].home >= 9
  {
    hide Laid, Homed, ClassOf;
  }

  lemma TryMergeLists(h: Heap, p: nat, i: nat)
    requires WF(h, 0) && IsLive(h, p) && i < 9
    ensures var g := TryMerge(h, p).0; |g.lists| == 9 && g.lists[i] == Without(Without(h.lists[i], Next(h, p)), Lo(h, p))
  {
    hide Laid, Homed, Listed, ClassOf, MergeNext, MergePrev, Lo, Next;
    MergeNextWF(h, p);
    MergeNextLists(h, p, i);
    MergePrevWF(MergeNext(h, p), p);
    MergePrevLists(MergeNext(h, p), p, i);
    LoStable(h, p);
  }

  // The words of the block that p merges into.
  ghost function MergedWords(h: Heap, p: nat): nat
    requires Laid(h) && p in h.blocks
  {
    SpanFree(h, p);
    Hi(h, p) - Lo(h, p) - 2
  }

  lemma LaidHeap(h: Heap)
    requires WF(h, 0)
    ensures Laid(h)
  {
  }

  /** Everything a free does to the lists: the merged neighbours leave them, and the merged block
      becomes the first node of the list of its class, whatever list its pieces were on. */
  lemma FreedLists(h: Heap, p: nat)
    requires WF(h, 0) && IsLive(h, p)
    ensures Laid(h)
    ensures var g, q, c := Free(h, p), Lo(h, p), ClassOf(MergedWords(h, p));
            && q in g.blocks && g.blocks[q].home == c && |g.lists| == 9
            && forall i {:trigger g.lists[i]} :: 0 <= i < 9 ==>
                 g.lists[i] == Onto(i == c, q, Without(Without(h.lists[i], Next(h, p)), q))
  {
    hide Laid, Homed, Listed, ClassOf, TryMerge, Merged, Next, Lo, Hi;
    LaidHeap(h);
    TryMergeWF(h, p);
    TryMergeMerges(h, p);
    var (t, q) := TryMerge(h, p);
    NineLists(t);
    MergedSize(h, p, t, q, Hi(h, p), h.blocks[p].big);
    WellHomed(h);
    NineLists(h);
    forall i | 0 <= i < 9 ensures t.lists[i] == Without(Without(h.lists[i], Next(h, p)), q) {
      TryMergeLists(h, p, i);
    }
  }

  lemma MergedSize(h: Heap, p: nat, g: Heap, lo: nat, hi: nat, big: bool)
    requires p in h.blocks && Merged(h, p, g, lo, hi, false, big)
    ensures lo in g.blocks && lo + 2 <= hi && g.blocks[lo].w == hi - lo - 2
  {
  }

  /** Last freed, first reused: a request of the class of the merged block that it can hold is
      answered with it, however many other blocks would do. */
  lemma FreedFirst(h: Heap, base: nat, p: nat, n: nat)
    requires WF(h, 0) && IsLive(h, p) && n <= MergedWords(h, p) && ClassOf(n) == ClassOf(MergedWords(h, p))
    ensures Search(Free(h, p), base, n, 0) == Lo(h, p)
  {
    hide Laid, Homed, Listed, ClassOf, Free, Lo, Hi, SearchFrom, Merged;
    var g, q := Free(h, p), Lo(h, p);
    FreedLists(h, p);
    FreeWF(h, p);
    FreeMerges(h, p);
    FreedSize(h, p, g, q, Hi(h, p), h.blocks[p].big);
    NotNull(g, q);
    FirstHit(g, base, n, q);
  }

  lemma FreedSize(h: Heap, p: nat, g: Heap, lo: nat, hi: nat, big: bool)
    requires p in h.blocks && Merged(h, p, g, lo, hi, true, big)
    ensures lo in g.blocks && lo + 2 <= hi && g.blocks[lo].w == hi - lo - 2
  {
  }

  lemma NotNull(g: Heap, q: nat)
    requires WF(g, 0) && q in g.blocks
    ensures q != 0
  {
    hide Laid, Homed, ClassOf;
  }

  lemma FirstHit(g: Heap, base: nat, n: nat, q: nat)
    requires |g.lists| == 9 && q != 0 && q in g.blocks && n <= g.blocks[q].w
    requires var l := g.lists[ClassOf(n)]; l != [] && l[0] == q
    ensures Search(g, base, n, 0) == q
  {
    hide ClassOf;
  }

  // ----- resizing in place

  // The words block p has after it has grown into its successor if it must.
  ghost function Reach(h: Heap, p: nat, n: nat): nat
    requires p in h.blocks && (h.blocks[p].w >= n || Next(h, p) in h.blocks)
  {
    if h.blocks[p].w >= n then h.blocks[p].w else h.blocks[p].w + 2 + h.blocks[Next(h, p)].w
  }

  /** Block p, with its successor only if it was too small, has become a live block of n words
      and, from 8 words left over, a free rest; otherwise it has all of the words.  Nothing else
      has changed, and growing loses SIZE_FLAG. */
  ghost predicate Refitted(h: Heap, p: nat, n: nat, g: Heap)
    requires p in h.blocks && (h.blocks[p].w >= n || Next(h, p) in h.blocks)
  {
    var b, grows, have, rest := h.blocks[p], h.blocks[p].w < n, Reach(h, p, n), p + n + 2;
    && g.areas == h.areas && |g.lists| == |h.lists| == 9
    && p in g.blocks && g.blocks[p] == Blk(if have >= n + 8 then n else have, false, b.big && !grows, b.area, NOWHERE)
    && (have >= n + 8 ==>
          rest in g.blocks && g.blocks[rest] == Blk(have - n - 2, true, b.big && !grows, b.area, ClassOf(have - n - 2)))
    && (grows ==> Next(h, p) !in g.blocks)
    && (forall x {:trigger x in g.blocks} {:trigger x in h.blocks} ::
          x != p && !(grows && x == Next(h, p)) && !(have >= n + 8 && x == rest) ==>
            (x in g.blocks <==> x in h.blocks) && (x in h.blocks ==> g.blocks[x] == h.blocks[x]))
    && (forall i {:trigger g.lists[i]} :: 0 <= i < 9 ==>
          g.lists[i] == Onto(have >= n + 8 && i == ClassOf(have - n - 2), rest,
                             if grows then Without(h.lists[i], Next(h, p)) else h.lists[i]))
  }

  lemma TrimRefits(h: Heap, p: nat, n: nat)
    requires WF(h, 0) && IsLive(h, p) && n <= h.blocks[p].w
    ensures |h.lists| == 9 && Refitted(h, p, n, Trim(h, p, n))
  {
    hide Laid, ClassOf;
    assert h.blocks[p].home == NOWHERE;
  }

  lemma GrowRefits(h: Heap, p: nat, n: nat)
    requires WF(h, 0) && IsLive(h, p) && h.blocks[p].w < n && GrowsInPlace(h, p, n)
    ensures Next(h, p) in h.blocks && WF(MergeNext(h, p), 0) && p in MergeNext(h, p).blocks && |MergeNext(h, p).lists| == 9
    ensures Refitted(h, p, n, Trim(MergeNext(h, p), p, n))
  {
    hide Laid, Homed, Listed, ClassOf, MergeNext, Trim;
    MergeNextWF(h, p);
    MergeNextLive(h, p);
    var m := MergeNext(h, p);
    NineLists(h);
    NineLists(m);
    NextAbsorbable(h, p);
    MergeKept(h, p);
    TrimRefits(m, p, n);
    forall i | 0 <= i < 9 ensures m.lists[i] == Without(h.lists[i], Next(h, p)) {
      MergeNextLists(h, p, i);
    }
    Regrown(h, p, n, m, Trim(m, p, n));
  }

  lemma MergeKept(h: Heap, p: nat)
    requires WF(h, 0) && IsLive(h, p) && MergesNext(h, p)
    ensures var m, x := MergeNext(h, p), Next(h, p);
            && m.areas == h.areas && x in h.blocks && x !in m.blocks && p in m.blocks && p < x
            && m.blocks[p] == Blk(h.blocks[p].w + h.blocks[x].w + 2, false, false, h.blocks[p].area, NOWHERE)
            && forall y {:trigger y in m.blocks} {:trigger y in h.blocks} :: y != p && y != x ==>
                 (y in h.blocks <==> y in m.blocks) && (y in h.blocks ==> m.blocks[y] == h.blocks[y])
  {
    hide Laid, Homed, Listed, ClassOf;
    NextAbsorbable(h, p);
    AbsorbKept(h, p, Next(h, p), p);
  }

  lemma Regrown(h: Heap, p: nat, n: nat, m: Heap, g: Heap)
    requires p in h.blocks && h.blocks[p].w < n && Next(h, p) in h.blocks && |h.lists| == |m.lists| == 9
    requires var x := Next(h, p);
             && m.areas == h.areas && x !in m.blocks && p in m.blocks && n <= m.blocks[p].w
             && m.blocks[p] == Blk(h.blocks[p].w + h.blocks[x].w + 2, false, false, h.blocks[p].area, NOWHERE)
             && forall y {:trigger y in m.blocks} {:trigger y in h.blocks} :: y != p && y != x ==>
                  (y in h.blocks <==> y in m.blocks) && (y in h.blocks ==> m.blocks[y] == h.blocks[y])
    requires forall i :: 0 <= i < 9 ==> m.lists[i] == Without(h.lists[i], Next(h, p))
    requires Refitted(m, p, n, g)
    ensures Refitted(h, p, n, g)
  {
    hide ClassOf, Onto;
  }

  /** Everything a realloc does: in place exactly when the block or it and its free successor are
      large enough; otherwise the block that the search answers with takes over and the old one is
      freed, or nothing happens. */
  lemma ReallocPlaced(h: Heap, base: nat, p: nat, n: nat)
    requires WF(h, 0) && IsLive(h, p) && Request(base, n, 0)
    ensures Laid(h) && (GrowsInPlace(h, p, n) ==> Next(h, p) in h.blocks)
    ensures var (g, r) := Realloc(h, base, p, n);
            var q := Search(h, base, n, 0);
            if h.blocks[p].w >= n || GrowsInPlace(h, p, n) then r == p && Refitted(h, p, n, g)
            else
              && r == q && Earliest(h, base, n, 0, q) && (q == 0 ==> g == h)
              && (q != 0 ==> WF(Alloc(h, base, n, 0).0, 0) && IsLive(Alloc(h, base, n, 0).0, p) && g == Free(Alloc(h, base, n, 0).0, p))
  {
    hide Homed, Listed, ClassOf, Refitted, Trim, MergeNext, Alloc, Free, Sized, Chained, Apart, AreasOk, Search, Earliest,
         CarvedLists, Carved;
    if GrowsInPlace(h, p, n) {
      NextAbsorbable(h, p);
    }
    if h.blocks[p].w >= n {
      TrimRefits(h, p, n);
    } else if GrowsInPlace(h, p, n) {
      GrowRefits(h, p, n);
    } else {
      AllocPlaced(h, base, n, 0);
      AllocCorrect(h, base, n, 0);
    }
  }
}

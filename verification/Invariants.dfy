/** What allocation and freeing keep beyond well-formedness: eager coalescing, SIZE_FLAG by
    area, and the accounting of bytes. */
module Invariants {
  import opened Tags
  import opened Heaps
  import opened Ops
  import opened AllocAreas

  // ----- coalescing

  ghost predicate FreePair(h: Heap, p: nat) {
    p in h.blocks && Next(h, p) in h.blocks && h.blocks[p].free && h.blocks[Next(h, p)].free
  }

  // No two adjacent blocks are both free.
  ghost predicate Coalesced(h: Heap) {
    forall p {:trigger FreePair(h, p)} :: !FreePair(h, p)
  }

  // A block that follows p in memory is in p's area.
  lemma NextSameArea(h: Heap, p: nat)
    requires Laid(h) && p in h.blocks
    ensures Next(h, p) in h.blocks <==> !IsLast(h, p)
    ensures Next(h, p) in h.blocks ==> h.blocks[Next(h, p)].area == h.blocks[p].area
  {
    hide Apart;
    assert NextOk(h, p) && BlockOk(h, p);
    assert Next(h, p) in h.blocks ==> BlockOk(h, Next(h, p));
  }

  lemma CarvedCoalesced(h: Heap, p: nat, off: nat, n: nat, g: Heap)
    requires Apart(h) && CutsFresh(h, p, off, n) && Carved(h, p, off, n, g) && Coalesced(h)
    ensures Coalesced(g)
  {
    var q, r, left := p + off, p + off + n + 2, h.blocks[p].w - off;
    assert SameBlock(h, g, Next(h, p)) && !FreePair(h, p);
    forall x: nat ensures !FreePair(g, x) {
      if x in g.blocks && x != p && x != q && !(left >= n + 8 && x == r) {
        assert SameBlock(h, g, x) && !FreePair(h, x);
        assert Clear(h, x, p) && Clear(h, p, x);
        assert Next(h, x) != p ==> SameBlock(h, g, Next(h, x));
      }
    }
  }

  lemma MergedCoalesced(h: Heap, p: nat, g: Heap)
    requires Laid(h) && p in h.blocks && Coalesced(h) && Merged(h, p, g, Lo(h, p), Hi(h, p), true, h.blocks[p].big)
    ensures Coalesced(g)
  {
    hide Apart, AreasOk;
    var lo, hi := Lo(h, p), Hi(h, p);
    assert NextOk(h, p);
    NextSameArea(h, p);
    assert SameBlock(h, g, hi);
    assert MergesNext(h, p) ==> !FreePair(h, Next(h, p));
    forall x: nat ensures !FreePair(g, x) {
      if x in g.blocks && x != lo {
        assert SameBlock(h, g, x) && !FreePair(h, x);
        if Next(h, x) == lo {
          NextSameArea(h, x);
          if lo == p {
            PrevUnique(h, p, x);
          }
        } else {
          assert !(lo <= Next(h, x) < hi) ==> SameBlock(h, g, Next(h, x));
        }
      }
    }
  }

  /** Allocation and freeing keep the heap coalesced. */
  lemma AllocCoalesced(h: Heap, base: nat, n: nat, align: nat)
    requires WF(h, 0) && Request(base, n, align) && Separable(h, base, n, align) && Coalesced(h)
    ensures Coalesced(Alloc(h, base, n, align).0)
  {
    hide Sized, Chained, AreasOk, Apart, Homed, Listed, ClassOf, Skip, Search, CarveOut, Carved, Coalesced;
    var p := Search(h, base, n, align);
    if p != 0 {
      AllocCarves(h, base, n, align);
      CarvedCoalesced(h, p, Skip(base, p, align), n, Alloc(h, base, n, align).0);
    }
  }

  lemma FreeCoalesced(h: Heap, p: nat)
    requires WF(h, 0) && IsLive(h, p) && Coalesced(h)
    ensures Coalesced(Free(h, p))
  {
    hide Sized, Chained, AreasOk, Apart, Homed, Listed, ClassOf, Merged, Coalesced;
    FreeMerges(h, p);
    MergedCoalesced(h, p, Free(h, p));
  }

  /** Realloc keeps it too, except when it cuts a remainder off in front of a free block: that
      remainder is listed without being merged. */
  lemma TrimCoalesced(h: Heap, p: nat, n: nat)
    requires WF(h, 0) && IsLive(h, p) && 2 <= n <= h.blocks[p].w && n % 2 == 0 && Coalesced(h)
    ensures Coalesced(Trim(h, p, n)) <==> h.blocks[p].w < n + 8 || !MergesNext(h, p)
  {
    hide Homed, Listed, ClassOf, Sized, AreasOk;
    NineLists(h);
    var g, r := Trim(h, p, n), p + n + 2;
    NextSameArea(h, p);
    if h.blocks[p].w >= n + 8 {
      assert r in h.blocks ==> Clear(h, p, r);
      assert Next(g, r) == Next(h, p);
      if MergesNext(h, p) {
        assert FreePair(g, r);
      } else {
        forall x: nat ensures !FreePair(g, x) {
          if x in h.blocks && x != r {
            assert Clear(h, x, p) && Clear(h, p, x);
            assert !FreePair(h, x);
          }
        }
      }
    }
  }

  // ----- SIZE_FLAG

  // A block carries SIZE_FLAG exactly if it lies in a 2 MiB area.
  ghost predicate Flagged(h: Heap) {
    forall p {:trigger h.blocks[p].big} ::
      p in h.blocks && h.blocks[p].area in h.areas ==> h.blocks[p].big == (h.areas[h.blocks[p].area].len == WORDS_2M)
  }

  lemma CarvedFlagged(h: Heap, p: nat, off: nat, n: nat, g: Heap)
    requires CutsFresh(h, p, off, n) && Carved(h, p, off, n, g) && Flagged(h)
    ensures Flagged(g)
  {
    var q, r, left := p + off, p + off + n + 2, h.blocks[p].w - off;
    forall x: nat | x in g.blocks && g.blocks[x].area in g.areas
      ensures g.blocks[x].big == (g.areas[g.blocks[x].area].len == WORDS_2M) {
      assert h.blocks[p].big == h.blocks[p].big;
      if x != p && x != q && !(left >= n + 8 && x == r) {
        assert SameBlock(h, g, x);
        assert h.blocks[x].big == h.blocks[x].big;
      }
    }
  }

  lemma AllocFlagged(h: Heap, base: nat, n: nat, align: nat)
    requires WF(h, 0) && Request(base, n, align) && Separable(h, base, n, align) && Flagged(h)
    ensures Flagged(Alloc(h, base, n, align).0)
  {
    hide WF, ClassOf, Skip, Search, CarveOut, Carved, Flagged;
    var p := Search(h, base, n, align);
    if p != 0 {
      AllocCarves(h, base, n, align);
      CarvedFlagged(h, p, Skip(base, p, align), n, Alloc(h, base, n, align).0);
    }
  }

  lemma FreeFlagged(h: Heap, p: nat)
    requires WF(h, 0) && IsLive(h, p) && Flagged(h)
    ensures Flagged(Free(h, p))
  {
    hide Sized, Chained, AreasOk, Apart, Homed, Listed, ClassOf, MergesNext, MergesPrev;
    FreeMerges(h, p);
    var g := Free(h, p);
    forall x: nat | x in g.blocks && g.blocks[x].area in g.areas
      ensures g.blocks[x].big == (g.areas[g.blocks[x].area].len == WORDS_2M) {
      assert h.blocks[p].big == h.blocks[p].big;
      if x != Lo(h, p) {
        assert SameBlock(h, g, x);
        assert h.blocks[x].big == h.blocks[x].big;
      }
    }
  }

  // ----- accounting

  ghost function Pick(s: set<nat>): (k: nat)
    requires s != {}
    ensures k in s
  {
    var k :| k in s;
    k
  }

  ghost function Total(m: map<nat, nat>): nat
    decreases |m|
  {
    if m.Keys == {} then 0
    else
      var k := Pick(m.Keys);
      Smaller(m, k);
      m[k] + Total(m - {k})
  }

  lemma TotalEmpty()
    ensures Total(map[]) == 0
  {
  }

  lemma TotalStep(m: map<nat, nat>) returns (j: nat)
    requires m != map[]
    ensures j in m && Total(m) == m[j] + Total(m - {j})
  {
    j := Pick(m.Keys);
  }

  lemma Smaller(m: map<nat, nat>, k: nat)
    requires k in m
    ensures |m - {k}| < |m|
  {
    assert m.Keys == (m - {k}).Keys + {k};
  }

  lemma {:induction false} TotalRemove(m: map<nat, nat>, k: nat)
    requires k in m
    ensures Total(m) == m[k] + Total(m - {k})
    decreases |m|
  {
    hide Total;
    var j := TotalStep(m);
    if j != k {
      Smaller(m, j);
      Smaller(m, k);
      TotalRemove(m - {j}, k);
      TotalRemove(m - {k}, j);
      assert (m - {j}) - {k} == (m - {k}) - {j};
    }
  }

  // The sizes of the allocated, and of the free, blocks of area a that start at or after p.
  ghost function LiveFrom(h: Heap, a: nat, p: nat): map<nat, nat> {
    map x | x in h.blocks && !h.blocks[x].free && h.blocks[x].area == a && p <= x :: h.blocks[x].w
  }

  ghost function FreeFrom(h: Heap, a: nat, p: nat): map<nat, nat> {
    map x | x in h.blocks && h.blocks[x].free && h.blocks[x].area == a && p <= x :: h.blocks[x].w
  }

  ghost function BlocksFrom(h: Heap, a: nat, p: nat): set<nat> {
    set x | x in h.blocks && h.blocks[x].area == a && p <= x
  }

  ghost function LiveWords(h: Heap, a: nat): nat { Total(LiveFrom(h, a, 0)) }

  ghost function FreeWords(h: Heap, a: nat): nat { Total(FreeFrom(h, a, 0)) }

  // From p on, p itself and then the blocks from its successor on.
  lemma FromNext(h: Heap, a: nat, p: nat)
    requires Laid(h) && p in h.blocks && h.blocks[p].area == a
    ensures LiveFrom(h, a, p) == if h.blocks[p].free then LiveFrom(h, a, Next(h, p)) else LiveFrom(h, a, Next(h, p))[p := h.blocks[p].w]
    ensures FreeFrom(h, a, p) == if h.blocks[p].free then FreeFrom(h, a, Next(h, p))[p := h.blocks[p].w] else FreeFrom(h, a, Next(h, p))
    ensures BlocksFrom(h, a, p) == BlocksFrom(h, a, Next(h, p)) + {p}
  {
    hide Chained, AreasOk;
    forall x | x in h.blocks ensures p <= x <==> x == p || Next(h, p) <= x {
      assert Clear(h, p, x);
    }
  }

  lemma TotalAdd(m: map<nat, nat>, k: nat, w: nat)
    requires k !in m
    ensures Total(m[k := w]) == Total(m) + w
  {
    TotalRemove(m[k := w], k);
    assert m[k := w] - {k} == m;
  }

  // From p to the end of its area: payloads plus two tags a block fill the words exactly.
  lemma {:induction false} TailConserved(h: Heap, a: nat, p: nat)
    requires Laid(h) && p in h.blocks && h.blocks[p].area == a && a in h.areas
    ensures Total(LiveFrom(h, a, p)) + Total(FreeFrom(h, a, p)) + 2 * |BlocksFrom(h, a, p)| + p == End(h, a)
    decreases End(h, a) - p
  {
    hide Total, Apart, AreasOk;
    assert NextOk(h, p) && BlockOk(h, p);
    var n := Next(h, p);
    FromNext(h, a, p);
    if n == End(h, a) {
      NothingBeyond(h, a);
    } else {
      TailConserved(h, a, n);
    }
    TotalAdd(if h.blocks[p].free then FreeFrom(h, a, n) else LiveFrom(h, a, n), p, h.blocks[p].w);
    assert p !in BlocksFrom(h, a, n);
  }

  lemma NothingBeyond(h: Heap, a: nat)
    requires Laid(h) && a in h.areas
    ensures LiveFrom(h, a, End(h, a)) == map[] && FreeFrom(h, a, End(h, a)) == map[] && BlocksFrom(h, a, End(h, a)) == {}
    ensures Total(map[]) == 0
  {
    forall x | x in h.blocks && h.blocks[x].area == a ensures x < End(h, a) {
      assert BlockOk(h, x);
    }
  }

  /** In every area, allocated words, free words, two tag words a block and the two fences add
      up to the size of the area. */
  lemma Conservation(h: Heap, a: nat)
    requires Laid(h) && a in h.areas
    ensures LiveWords(h, a) + FreeWords(h, a) + 2 * |BlocksFrom(h, a, 0)| + 2 == h.areas[a].len
  {
    hide Total, Sized, Chained, Apart;
    assert AreaOk(h, a);
    TailConserved(h, a, a + 2);
    FromStart(h, a);
  }

  lemma FromStart(h: Heap, a: nat)
    requires Sized(h)
    ensures LiveFrom(h, a, 0) == LiveFrom(h, a, a + 2) && FreeFrom(h, a, 0) == FreeFrom(h, a, a + 2)
    ensures BlocksFrom(h, a, 0) == BlocksFrom(h, a, a + 2)
  {
    forall x | x in h.blocks && h.blocks[x].area == a ensures a + 2 <= x {
      assert BlockOk(h, x);
    }
  }

  // One more live block q.
  lemma LiveAdded(h: Heap, g: Heap, q: nat, a: nat)
    requires OthersKept(h, g, q) && !IsLive(h, q) && IsLive(g, q)
    ensures LiveWords(g, a) == LiveWords(h, a) + if g.blocks[q].area == a then g.blocks[q].w else 0
  {
    var m, k := LiveFrom(h, a, 0), LiveFrom(g, a, 0);
    forall x: nat | x != q ensures (x in m <==> x in k) && (x in m ==> m[x] == k[x]) {
      assert IsLive(h, x) <==> IsLive(g, x);
    }
    if g.blocks[q].area == a {
      assert k == m[q := g.blocks[q].w];
      TotalAdd(m, q, g.blocks[q].w);
    } else {
      assert k == m;
    }
  }

  // The live block p has become the live block r.
  lemma LiveSwapped(h: Heap, g: Heap, p: nat, r: nat, a: nat)
    requires OthersKept2(h, g, p, r) && IsLive(h, p) && IsLive(g, r) && (r != p ==> !IsLive(h, r) && !IsLive(g, p))
    requires h.blocks[p].area == g.blocks[r].area == a
    ensures LiveWords(g, a) + h.blocks[p].w == LiveWords(h, a) + g.blocks[r].w
    ensures h.blocks[p].w <= LiveWords(h, a) && g.blocks[r].w <= LiveWords(g, a)
  {
    var m, k := LiveFrom(h, a, 0), LiveFrom(g, a, 0);
    forall x: nat | x != p && x != r ensures (x in m <==> x in k) && (x in m ==> m[x] == k[x]) {
      assert IsLive(h, x) <==> IsLive(g, x);
    }
    assert r != p ==> (IsLive(h, r) <==> r in m) && (IsLive(g, p) <==> p in k);
    assert m - {p} == k - {r};
    TotalRemove(m, p);
    TotalRemove(k, r);
  }

  // One live block p less.
  lemma LiveDropped(h: Heap, g: Heap, p: nat, a: nat)
    requires OthersKept(h, g, p) && IsLive(h, p) && !IsLive(g, p)
    ensures LiveWords(h, a) == LiveWords(g, a) + if h.blocks[p].area == a then h.blocks[p].w else 0
  {
    assert OthersKept(g, h, p) by {
      forall x: nat | x != p ensures (IsLive(g, x) <==> IsLive(h, x)) && (IsLive(g, x) ==> SameBlock(g, h, x)) {
        assert IsLive(h, x) <==> IsLive(g, x);
      }
    }
    LiveAdded(g, h, p, a);
  }

  lemma MergeNextCoalesced(h: Heap, p: nat)
    requires WF(h, 0) && IsLive(h, p) && Coalesced(h) && MergesNext(h, p)
    ensures var g := MergeNext(h, p); WF(g, 0) && IsLive(g, p) && Coalesced(g) && !MergesNext(g, p)
  {
    hide Homed, Listed, ClassOf, MergeNext, AreasOk, Apart;
    MergeNextWF(h, p);
    MergeNextMerges(h, p);
    var g := MergeNext(h, p);
    assert !FreePair(h, Next(h, p));
    assert SameBlock(h, g, Hi(h, p));
    assert NextOk(h, p);
    NextSameArea(h, Next(h, p));
    NextSameArea(g, p);
    forall x: nat ensures !FreePair(g, x) {
      if x in g.blocks && x != p {
        assert SameBlock(h, g, x) && !FreePair(h, x);
        assert !(p <= Next(h, x) < Hi(h, p)) ==> SameBlock(h, g, Next(h, x));
      }
    }
  }

  /** mpool_realloc keeps the heap coalesced on every path but one: shrinking a block whose
      successor is free leaves two free neighbours unmerged. */
  lemma ReallocCoalesced(h: Heap, base: nat, p: nat, n: nat)
    requires WF(h, 0) && IsLive(h, p) && Request(base, n, 0) && Coalesced(h) && Realloc(h, base, p, n).1 != 0
    ensures Coalesced(Realloc(h, base, p, n).0) <==> !(h.blocks[p].w >= n + 8 && MergesNext(h, p))
  {
    hide Homed, Listed, ClassOf, Sized, Chained, Apart, AreasOk, Alloc, Free, Trim, MergeNext, MergesNext, Coalesced;
    if h.blocks[p].w >= n {
      NineLists(h);
      TrimCoalesced(h, p, n);
    } else if GrowsInPlace(h, p, n) {
      GrowMerges(h, p, n);
      MergeNextCoalesced(h, p);
      MergeNextLive(h, p);
      NineLists(MergeNext(h, p));
      TrimCoalesced(MergeNext(h, p), p, n);
    } else {
      AllocCorrect(h, base, n, 0);
      AllocCoalesced(h, base, n, 0);
      FreeCoalesced(Alloc(h, base, n, 0).0, p);
    }
  }

  lemma GrowMerges(h: Heap, p: nat, n: nat)
    requires Laid(h) && p in h.blocks && GrowsInPlace(h, p, n)
    ensures MergesNext(h, p) && Next(h, p) in h.blocks && h.blocks[p].w + 2 + h.blocks[Next(h, p)].w >= n
  {
    assert NextOk(h, p);
  }
}

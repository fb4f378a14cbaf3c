/** What one allocator call does to the abstract heap, and what the search finds. */
module Ops {
  import opened Basics
  import opened Tags
  import opened Heaps
  import Masks

  // PADDING(size) in words, with the wrap-around of a 64-bit size; 2 words for size 0.
  function Padded(size: nat): nat {
    if size == 0 then 2 else (size + 15) % 0x1_0000_0000_0000_0000 / 16 * 2
  }

  // An even number of words, two or more, that holds `size` bytes.
  predicate Holds(w: nat, size: nat) {
    w >= 2 && w % 2 == 0 && size <= 8 * w
  }

  /** The padded request is the least even number of words, but at least two, that holds it,
      provided the addition does not wrap; in the last 15 sizes it does, and the result is 0. */
  lemma PaddedHolds(size: nat)
    requires size < 0x1_0000_0000_0000_0000
    ensures size <= 0xffff_ffff_ffff_fff0 ==> Holds(Padded(size), size) && forall w: nat :: Holds(w, size) ==> Padded(size) <= w
    ensures size > 0xffff_ffff_ffff_fff0 ==> Padded(size) == 0
  {
  }

  /** PADDING as the source computes it: add 15 in 64 bits and mask out four bits. */
  lemma PaddedMask(size: nat)
    requires 0 < size < WORD_MODULUS
    ensures 8 * Padded(size) == Masks.Clear((size + 15) % WORD_MODULUS, 15)
  {
    hide Masks.Clear;
    assert Pow2(3) == 8 && Pow2(4) == 16;
    var y := (size + 15) % WORD_MODULUS;
    Masks.RoundDown(4, 16, y / 16, y % 16);
  }

  // PADDING_UP on addresses
  function PadUp(x: nat, to: nat): nat
    requires to > 0
  {
    (x + to - 1) / to * to
  }

  // Words from p, at byte address base + 8 * p, up to the next multiple of align.  An align
  // below two words asks for nothing, as mpool_aligned_alloc then calls mpool_alloc.
  function Skip(base: nat, p: nat, align: nat): nat {
    if align < 16 then 0 else (PadUp(base + 8 * p, align) - (base + 8 * p)) / 8
  }

  // (long) x
  function ToLong(x: nat): int {
    var y := x % 0x1_0000_0000_0000_0000;
    if y < 0x8000_0000_0000_0000 then y else y - 0x1_0000_0000_0000_0000
  }

  // How a search compares a block of w words, `gap` words in front of its aligned payload, with
  // a request of n words: as unsigned numbers for a plain request, as signed ones otherwise.
  predicate Matches(w: nat, gap: nat, n: nat, align: nat) {
    if align < 16 then w >= n else ToLong(8 * w) - ToLong(8 * gap) >= ToLong(8 * n)
  }

  // Block p holds n words behind its alignment gap.
  predicate Fits(h: Heap, base: nat, p: nat, n: nat, align: nat) {
    p in h.blocks && h.blocks[p].w >= n + Skip(base, p, align)
  }

  // Requests the signed comparison does not misread.
  predicate Comparable(n: nat, align: nat) {
    align < 16 || (align <= 0x8000_0000_0000_0000 && 8 * n < 0x8000_0000_0000_0000)
  }

  /** The signed comparison of an aligned request is right for blocks and gaps of every size
      exactly if the request is below 2^63 bytes. */
  lemma MatchesExactly(n: nat, align: nat)
    requires align >= 16 && 8 * n < 0x1_0000_0000_0000_0000
    ensures (forall w: nat, gap: nat :: w < MAX_WORDS && gap < MAX_WORDS ==> (Matches(w, gap, n, align) <==> w >= n + gap))
       <==> 8 * n < 0x8000_0000_0000_0000
  {
    hide ToLong;
    LongIs(8 * n);
    LongIs(0);
    forall w: nat, gap: nat | w < MAX_WORDS && gap < MAX_WORDS && 8 * n < 0x8000_0000_0000_0000
      ensures Matches(w, gap, n, align) <==> w >= n + gap {
      LongIs(8 * w);
      LongIs(8 * gap);
    }
    if 8 * n >= 0x8000_0000_0000_0000 {
      assert Matches(0, 0, n, align);
    }
  }

  lemma LongIs(x: nat)
    requires x < 0x1_0000_0000_0000_0000
    ensures ToLong(x) == if x < 0x8000_0000_0000_0000 then x else x - 0x1_0000_0000_0000_0000
  {
  }

  lemma SkipBelow(base: nat, p: nat, align: nat)
    ensures align < 16 ==> Skip(base, p, align) == 0
    ensures align >= 16 ==> 8 * Skip(base, p, align) < align
  {
    if align >= 16 {
      PadUpBounds(base + 8 * p, align);
    }
  }

  lemma MatchesFits(h: Heap, base: nat, p: nat, n: nat, align: nat)
    requires Laid(h) && p in h.blocks && Comparable(n, align)
    ensures Chosen(h, base, p, n, align) <==> Fits(h, base, p, n, align)
  {
    hide Laid, Skip;
    BlockBounded(h, p);
    SkipBelow(base, p, align);
  }

  lemma RoomMatches(w: nat, gap: nat, n: nat, align: nat)
    requires n + gap <= w < MAX_WORDS
    ensures Matches(w, gap, n, align)
  {
  }

  predicate Chosen(h: Heap, base: nat, p: nat, n: nat, align: nat) {
    p in h.blocks && Matches(h.blocks[p].w, Skip(base, p, align), n, align)
  }

  function FirstFit(h: Heap, base: nat, l: seq<nat>, n: nat, align: nat): (r: nat)
  {
    if l == [] then 0 else if Chosen(h, base, l[0], n, align) then l[0] else FirstFit(h, base, l[1..], n, align)
  }

  // Lists id, id + 1, ... and the large list last.
  function SearchFrom(h: Heap, base: nat, id: nat, n: nat, align: nat): nat
    decreases |h.lists| - id
  {
    if id >= |h.lists| then 0
    else
      var p := FirstFit(h, base, h.lists[id], n, align);
      if p != 0 then p else SearchFrom(h, base, id + 1, n, align)
  }

  function Search(h: Heap, base: nat, n: nat, align: nat): nat {
    SearchFrom(h, base, ClassOf(n), n, align)
  }

  /** p is the first node of the list l that passes the test of the search, or 0 if none does. */
  ghost predicate FirstOf(h: Heap, base: nat, l: seq<nat>, n: nat, align: nat, p: nat) {
    if p == 0 then forall j :: 0 <= j < |l| ==> !Chosen(h, base, l[j], n, align)
    else exists k :: 0 <= k < |l| && l[k] == p && Chosen(h, base, l[k], n, align) &&
                     forall j :: 0 <= j < k ==> !Chosen(h, base, l[j], n, align)
  }

  lemma {:induction false} FirstFitFirst(h: Heap, base: nat, l: seq<nat>, n: nat, align: nat)
    requires 0 !in l
    ensures FirstOf(h, base, l, n, align, FirstFit(h, base, l, n, align))
  {
    hide Chosen;
    if l != [] && !Chosen(h, base, l[0], n, align) {
      var p := FirstFit(h, base, l[1..], n, align);
      FirstFitFirst(h, base, l[1..], n, align);
      if p != 0 {
        var k :| 0 <= k < |l| - 1 && l[1..][k] == p && Chosen(h, base, p, n, align) &&
                 forall j :: 0 <= j < k ==> !Chosen(h, base, l[1..][j], n, align);
        FirstShift(h, base, l, n, align, k);
      } else {
        forall j | 0 <= j < |l| ensures !Chosen(h, base, l[j], n, align) {
          assert j > 0 ==> l[j] == l[1..][j - 1];
        }
      }
    }
  }

  lemma FirstShift(h: Heap, base: nat, l: seq<nat>, n: nat, align: nat, k: nat)
    requires k + 1 < |l| && l[k + 1] != 0 && !Chosen(h, base, l[0], n, align) && Chosen(h, base, l[k + 1], n, align)
    requires forall j :: 0 <= j < k ==> !Chosen(h, base, l[1..][j], n, align)
    ensures FirstOf(h, base, l, n, align, l[k + 1])
  {
    hide Chosen;
    forall j | 0 <= j < k + 1 ensures !Chosen(h, base, l[j], n, align) {
      assert j > 0 ==> l[j] == l[1..][j - 1];
    }
  }

  /** p is the first passing node of the earliest list, from list id on, that has one. */
  ghost predicate EarliestFrom(h: Heap, base: nat, id: nat, n: nat, align: nat, p: nat) {
    && |h.lists| == 9
    && if p == 0 then forall i, q {:trigger q in h.lists[i]} :: id <= i < 9 && q in h.lists[i] ==> !Chosen(h, base, q, n, align)
       else
         && p in h.blocks && id <= h.blocks[p].home < 9
         && FirstOf(h, base, h.lists[h.blocks[p].home], n, align, p)
         && forall i, q {:trigger q in h.lists[i]} :: id <= i < h.blocks[p].home && q in h.lists[i] ==> !Chosen(h, base, q, n, align)
  }

  // The answer of mpool_alloc's search: classes from the request's own one up, large list last.
  ghost predicate Earliest(h: Heap, base: nat, n: nat, align: nat, p: nat) {
    EarliestFrom(h, base, ClassOf(n), n, align, p)
  }

  lemma FirstMember(h: Heap, base: nat, l: seq<nat>, n: nat, align: nat, p: nat)
    requires FirstOf(h, base, l, n, align, p)
    ensures p != 0 ==> p in l && Chosen(h, base, p, n, align)
    ensures p == 0 ==> forall q :: q in l ==> !Chosen(h, base, q, n, align)
  {
    hide Chosen;
  }

  /** That determines the answer. */
  lemma EarliestUnique(h: Heap, base: nat, id: nat, n: nat, align: nat, p: nat, q: nat)
    requires Homed(h) && EarliestFrom(h, base, id, n, align, p) && EarliestFrom(h, base, id, n, align, q)
    ensures p == q
  {
    hide Chosen, FirstOf;
    if p != 0 {
      FirstMember(h, base, h.lists[h.blocks[p].home], n, align, p);
    }
    if q != 0 {
      FirstMember(h, base, h.lists[h.blocks[q].home], n, align, q);
    }
    if p != 0 && q != 0 {
      FirstUnique(h, base, h.lists[h.blocks[p].home], n, align, p, q);
    }
  }

  lemma FirstUnique(h: Heap, base: nat, l: seq<nat>, n: nat, align: nat, p: nat, q: nat)
    requires FirstOf(h, base, l, n, align, p) && FirstOf(h, base, l, n, align, q)
    ensures p == q
  {
    hide Chosen;
  }

  lemma {:induction false} SearchFromEarliest(h: Heap, base: nat, id: nat, n: nat, align: nat)
    requires WF(h, 0) && id <= 9
    ensures EarliestFrom(h, base, id, n, align, SearchFrom(h, base, id, n, align))
    decreases 9 - id
  {
    hide Laid, ClassOf, Chosen, FirstOf, FirstFit;
    if id < 9 {
      var l := h.lists[id];
      assert 0 !in l;
      FirstFitFirst(h, base, l, n, align);
      FirstMember(h, base, l, n, align, FirstFit(h, base, l, n, align));
      SearchFromEarliest(h, base, id + 1, n, align);
    }
  }

  lemma SearchEarliest(h: Heap, base: nat, n: nat, align: nat)
    requires WF(h, 0)
    ensures Earliest(h, base, n, align, Search(h, base, n, align))
  {
    hide WF, EarliestFrom;
    SearchFromEarliest(h, base, ClassOf(n), n, align);
  }

  lemma SearchFromSound(h: Heap, base: nat, id: nat, n: nat, align: nat)
    requires WF(h, 0) && id <= 9
    ensures var p := SearchFrom(h, base, id, n, align);
            if p == 0 then forall q, k :: id <= k < 9 && q in h.lists[k] ==> !Chosen(h, base, q, n, align)
            else p in h.blocks && h.blocks[p].home < 9 && Chosen(h, base, p, n, align)
  {
    hide WF, Chosen, FirstOf, SearchFrom;
    var p := SearchFrom(h, base, id, n, align);
    SearchFromEarliest(h, base, id, n, align);
    if p != 0 {
      FirstMember(h, base, h.lists[h.blocks[p].home], n, align, p);
    }
  }

  /** The search that starts at the request's own class misses nothing: it finds no block
      exactly when no free block of the heap is large enough (after alignment). */
  lemma SearchComplete(h: Heap, base: nat, n: nat, align: nat)
    requires WF(h, 0) && Comparable(n, align)
    ensures Search(h, base, n, align) == 0 <==> forall q :: q in h.blocks && h.blocks[q].free ==> !Fits(h, base, q, n, align)
    ensures var p := Search(h, base, n, align);
            p != 0 ==> p in h.blocks && h.blocks[p].free && h.blocks[p].home < 9 && Fits(h, base, p, n, align)
  {
    SearchFromSound(h, base, ClassOf(n), n, align);
    hide Laid, Comparable, Skip, Matches, SearchFrom, Chosen, ClassOf;
    var p := Search(h, base, n, align);
    if p == 0 {
      forall q | q in h.blocks && h.blocks[q].free ensures !Fits(h, base, q, n, align) {
        var k := h.blocks[q].home;
        assert q in h.lists[k];
        MatchesFits(h, base, q, n, align);
        if n <= h.blocks[q].w {
          ClassMonotone(n, h.blocks[q].w);
          assert ClassOf(n) <= k;
        }
      }
    } else {
      MatchesFits(h, base, p, n, align);
    }
  }

  lemma MulModZero(k: nat, m: nat)
    requires m > 0
    ensures (k * m) % m == 0
  {
    var q, r := k * m / m, k * m % m;
    assert k * m == q * m + r;
    if k > q {
      assert (k - q) * m >= m by { MulAtLeast(k - q, m); }
    }
    if q > k {
      assert (q - k) * m >= m by { MulAtLeast(q - k, m); }
    }
  }

  lemma MulAtLeast(k: int, m: nat)
    requires k >= 1
    ensures k * m >= m
  {
  }

  // PADDING_UP gives the least multiple of `to` that is not below x.
  lemma PadUpBounds(x: nat, to: nat)
    requires to > 0
    ensures x <= PadUp(x, to) < x + to && PadUp(x, to) % to == 0
  {
    var k, r := (x + to - 1) / to, (x + to - 1) % to;
    assert x + to - 1 == k * to + r;
    MulModZero(k, to);
  }

  lemma MultipleOf16(up: nat, align: nat)
    requires align > 0 && align % 16 == 0 && up % align == 0
    ensures up % 16 == 0
  {
    var k, j := up / align, align / 16;
    calc {
      up;
      k * align;
      { assert align == 16 * j; }
      k * (16 * j);
      (k * j) * 16;
    }
    MulModZero(k * j, 16);
  }

  lemma SkipAligns(base: nat, p: nat, align: nat)
    requires base % 16 == 0 && p % 2 == 0 && align >= 16 && align % 16 == 0
    ensures (base + 8 * (p + Skip(base, p, align))) % align == 0
    ensures Skip(base, p, align) % 2 == 0 && 8 * Skip(base, p, align) < align
  {
    var x := base + 8 * p;
    var up := PadUp(x, align);
    PadUpBounds(x, align);
    MultipleOf16(up, align);
    EvenGap(base, p, up);
  }

  lemma EvenGap(base: nat, p: nat, up: nat)
    requires base % 16 == 0 && p % 2 == 0 && up % 16 == 0 && base + 8 * p <= up
    ensures var d := (up - (base + 8 * p)) / 8; d % 2 == 0 && base + 8 * (p + d) == up
  {
    var i, j, k := base / 16, p / 2, up / 16;
    assert up - (base + 8 * p) == 16 * (k - i - j);
  }

  // ----- mpool_alloc, mpool_aligned_alloc

  // try_split_and_free
  function Trim(h: Heap, p: nat, n: nat): Heap
    requires p in h.blocks && |h.lists| == 9
  {
    if h.blocks[p].w >= n + 8 then Put(Split(h, p, n), p + n + 2) else h
  }

  // The part of a block in front of an aligned payload goes back to the lists.
  function CutFront(h: Heap, p: nat, off: nat): Heap
    requires p in h.blocks && |h.lists| == 9 && off <= h.blocks[p].w && off != 1
  {
    if off > 0 then Put(Split(h, p, off - 2), p) else h
  }

  // Both cuts of the unlisted free block p, and the allocation of the middle piece.
  function CarveOut(h: Heap, p: nat, off: nat, n: nat): Heap
    requires p in h.blocks && |h.lists| == 9 && n + off <= h.blocks[p].w && off != 1
  {
    var h1 := CutFront(h, p, off);
    SetAlloced(Trim(h1, p + off, n), p + off)
  }

  function Alloc(h: Heap, base: nat, n: nat, align: nat): (r: (Heap, nat))
    requires WF(h, 0) && base % 16 == 0 && (align < 16 || align % 16 == 0) && Comparable(n, align)
  {
    var p := Search(h, base, n, align);
    if p == 0 then (h, 0)
    else
      SearchComplete(h, base, n, align);
      OffsetEven(h, base, p, align);
      var off := Skip(base, p, align);
      (CarveOut(Take(h, p), p, off, n), p + off)
  }

  lemma OffsetEven(h: Heap, base: nat, p: nat, align: nat)
    requires Sized(h) && p in h.blocks && base % 16 == 0 && (align < 16 || align % 16 == 0)
    ensures Skip(base, p, align) % 2 == 0
    ensures align >= 16 ==> (base + 8 * (p + Skip(base, p, align))) % align == 0
  {
    assert BlockOk(h, p);
    if align >= 16 {
      SkipAligns(base, p, align);
    }
  }

  ghost predicate IsLive(h: Heap, p: nat) {
    p in h.blocks && !h.blocks[p].free
  }

  // x is the same block in h and g, whatever list it is on.
  ghost predicate SameBlock(h: Heap, g: Heap, x: nat) {
    (x in h.blocks <==> x in g.blocks) &&
    (x in h.blocks ==> g.blocks[x] == h.blocks[x].(home := g.blocks[x].home))
  }

  // Piece x of g is carved from, or made around, block p of h.
  ghost predicate Piece(h: Heap, p: nat, g: Heap, x: nat, w: nat, free: bool) {
    p in h.blocks && x in g.blocks && g.blocks[x] == Blk(w, free, h.blocks[p].big, h.blocks[p].area, g.blocks[x].home)
  }

  lemma TrimWF(h: Heap, p: nat, n: nat, hand: nat)
    requires WF(h, hand) && InHand(h, p, hand) && 2 <= n <= h.blocks[p].w && n % 2 == 0
    ensures var g := Trim(h, p, n);
            WF(g, if h.blocks[p].w >= n + 8 then 0 else hand) &&
            p in g.blocks && g.blocks[p].home == NOWHERE && n <= g.blocks[p].w < n + 8
  {
    hide Laid, Homed, Listed, ClassOf;
    if h.blocks[p].w >= n + 8 {
      SplitWF(h, p, n, hand);
      PutWF(Split(h, p, n), p + n + 2);
    }
  }

  lemma CutFrontWF(h: Heap, p: nat, off: nat)
    requires WF(h, p) && InHand(h, p, p)
    requires off % 2 == 0 && off != 2 && off + 2 <= h.blocks[p].w
    ensures var g := CutFront(h, p, off);
            WF(g, if off > 0 then 0 else p) && InHand(g, p + off, if off > 0 then 0 else p) &&
            g.blocks[p + off].w == h.blocks[p].w - off
  {
    hide Laid, Homed, Listed, ClassOf;
    if off > 0 {
      SplitWF(h, p, off - 2, p);
      PutWF(Split(h, p, off - 2), p);
    }
  }

  // The free block p has been taken off its list and is large enough for both cuts.
  ghost predicate Cuttable(h: Heap, p: nat, off: nat, n: nat) {
    && WF(h, p) && InHand(h, p, p) && h.blocks[p].free
    && 2 <= n && n % 2 == 0 && off % 2 == 0 && off != 2 && n + off <= h.blocks[p].w
  }

  lemma CarveOutWF(h: Heap, p: nat, off: nat, n: nat)
    requires Cuttable(h, p, off, n) && CutsFresh(h, p, off, n)
    ensures WF(CarveOut(h, p, off, n), 0)
  {
    hide WF, ClassOf, Trim, CutFront, SetAlloced;
    CutFrontWF(h, p, off);
    var h1 := CutFront(h, p, off);
    var hand := if off > 0 then 0 else p;
    FrontFacts(h, p, off);
    TrimWF(h1, p + off, n, hand);
    SetAllocedWF(Trim(h1, p + off, n), p + off, if h1.blocks[p + off].w >= n + 8 then 0 else hand);
  }

  lemma FrontFacts(h: Heap, p: nat, off: nat)
    requires p in h.blocks && |h.lists| == 9 && off <= h.blocks[p].w && off != 1
    ensures |CutFront(h, p, off).lists| == 9
  {
    hide ClassOf;
  }

  // p is a free block, and the two cuts fall inside it, where no other block starts.
  ghost predicate CutsFresh(h: Heap, p: nat, off: nat, n: nat) {
    && p in h.blocks && h.blocks[p].free && |h.lists| == 9
    && 2 <= n && off != 1 && n + off <= h.blocks[p].w
    && (off > 0 ==> p + off !in h.blocks)
    && (h.blocks[p].w >= n + off + 8 ==> p + off + n + 2 !in h.blocks)
  }

  lemma CuttableCuts(h: Heap, p: nat, off: nat, n: nat)
    requires Cuttable(h, p, off, n)
    ensures CutsFresh(h, p, off, n)
  {
    hide ClassOf, Sized, Chained, AreasOk;
    assert p + off in h.blocks ==> Clear(h, p, p + off);
    assert p + off + n + 2 in h.blocks ==> Clear(h, p, p + off + n + 2);
  }

  /** The chosen block p becomes up to three: a free front piece of off - 2 words, the
      allocated block, and a free rest if at least 8 words are left over. */
  ghost predicate Carved(h: Heap, p: nat, off: nat, n: nat, g: Heap)
    requires p in h.blocks
  {
    var q, r, left := p + off, p + off + n + 2, h.blocks[p].w - off;
    && n <= left && g.areas == h.areas && |g.lists| == |h.lists|
    && (forall x {:trigger SameBlock(h, g, x)} :: x != p && x != q && !(left >= n + 8 && x == r) ==> SameBlock(h, g, x))
    && (off > 0 ==> off >= 2 && Piece(h, p, g, p, off - 2, true))
    && Piece(h, p, g, q, if left >= n + 8 then n else left, false)
    && (left >= n + 8 ==> Piece(h, p, g, r, left - n - 2, true))
  }

  lemma CarveOutCarves(h: Heap, p: nat, off: nat, n: nat)
    requires CutsFresh(h, p, off, n)
    ensures Carved(h, p, off, n, CarveOut(h, p, off, n))
  {
    hide ClassOf;
    var g := CarveOut(h, p, off, n);
    var h1 := CutFront(h, p, off);
    var q, r, left := p + off, p + off + n + 2, h.blocks[p].w - off;
    forall x | x != p && x != q && !(left >= n + 8 && x == r) ensures SameBlock(h, g, x) {
      assert x in h1.blocks <==> x in h.blocks;
      assert x in g.blocks <==> x in h1.blocks;
    }
  }

  // Taking p off its list first makes no difference to the pieces.
  lemma TakeCarves(h: Heap, p: nat, off: nat, n: nat, g: Heap)
    requires p in h.blocks && h.blocks[p].home < |h.lists| && CutsFresh(Take(h, p), p, off, n) && Carved(Take(h, p), p, off, n, g)
    ensures CutsFresh(h, p, off, n) && Carved(h, p, off, n, g)
  {
    var h0 := Take(h, p);
    var q, r, left := p + off, p + off + n + 2, h.blocks[p].w - off;
    forall x: nat | x != p && x != q && !(left >= n + 8 && x == r) ensures SameBlock(h, g, x) {
      assert SameBlock(h0, g, x);
    }
  }

  ghost predicate Request(base: nat, n: nat, align: nat) {
    base % 16 == 0 && n >= 2 && n % 2 == 0 && (align < 16 || align % 16 == 0) && Comparable(n, align)
  }

  /** The split at `offset - 16` makes a block of its own only if the offset is 0 or at least
      32 bytes; the search may also choose a block with offset 16, which the code mishandles. */
  ghost predicate Separable(h: Heap, base: nat, n: nat, align: nat) {
    var p := Search(h, base, n, align);
    p == 0 || Skip(base, p, align) != 2
  }

  lemma ChosenCuttable(h: Heap, base: nat, n: nat, align: nat)
    requires WF(h, 0) && Request(base, n, align) && Separable(h, base, n, align) && Search(h, base, n, align) != 0
    ensures var p := Search(h, base, n, align);
            p in h.blocks && h.blocks[p].home < |h.lists| && h.blocks[p].free &&
            Cuttable(Take(h, p), p, Skip(base, p, align), n) && CutsFresh(Take(h, p), p, Skip(base, p, align), n)
    ensures var p := Search(h, base, n, align);
            align >= 16 ==> (base + 8 * (p + Skip(base, p, align))) % align == 0
  {
    hide Listed, Chained, Apart, AreasOk, ClassOf, Skip, Search;
    SearchComplete(h, base, n, align);
    var p := Search(h, base, n, align);
    OffsetEven(h, base, p, align);
    NineLists(h);
    TakeWF(h, p);
    CuttableCuts(Take(h, p), p, Skip(base, p, align), n);
  }

  // What an allocation that finds a block does to the heap.
  lemma AllocCarves(h: Heap, base: nat, n: nat, align: nat)
    requires WF(h, 0) && Request(base, n, align) && Separable(h, base, n, align) && Search(h, base, n, align) != 0
    ensures var (g, r) := Alloc(h, base, n, align);
            var p := Search(h, base, n, align);
            var off := Skip(base, p, align);
            WF(g, 0) && r == p + off && CutsFresh(h, p, off, n) && Carved(h, p, off, n, g)
  {
    hide WF, ClassOf, Skip, Search, CarveOut, Carved, Cuttable;
    ChosenCuttable(h, base, n, align);
    var p := Search(h, base, n, align);
    var off := Skip(base, p, align);
    CarveOutWF(Take(h, p), p, off, n);
    CarveOutCarves(Take(h, p), p, off, n);
    TakeCarves(h, p, off, n, CarveOut(Take(h, p), p, off, n));
  }

  /** An allocation keeps the heap well formed.  It either finds nothing and changes nothing,
      or hands out exactly one new live block, aligned, of at least the padded size and less
      than 8 words more; no other live block is affected. */
  lemma AllocCorrect(h: Heap, base: nat, n: nat, align: nat)
    requires WF(h, 0) && Request(base, n, align) && Separable(h, base, n, align)
    ensures var (g, r) := Alloc(h, base, n, align);
            && WF(g, 0) && g.areas == h.areas
            && (r == 0 <==> forall q :: q in h.blocks && h.blocks[q].free ==> !Fits(h, base, q, n, align))
            && (r == 0 ==> g == h)
            && (r != 0 ==> !IsLive(h, r) && IsLive(g, r) && n <= g.blocks[r].w < n + 8 && OthersKept(h, g, r))
            && (r != 0 && align >= 16 ==> (base + 8 * r) % align == 0)
  {
    hide WF, ClassOf, Skip, Search, Fits, CarveOut, Carved, Cuttable;
    SearchComplete(h, base, n, align);
    var p := Search(h, base, n, align);
    if p != 0 {
      ChosenCuttable(h, base, n, align);
      AllocCarves(h, base, n, align);
      CarvedLive(h, p, Skip(base, p, align), n, Alloc(h, base, n, align).0);
    }
  }

  // The live blocks other than x are the same in h and g.
  ghost predicate OthersKept(h: Heap, g: Heap, x: nat) {
    forall q {:trigger IsLive(h, q)} {:trigger IsLive(g, q)} :: q != x ==>
      (IsLive(h, q) <==> IsLive(g, q)) && (IsLive(h, q) ==> SameBlock(h, g, q))
  }

  lemma CarvedLive(h: Heap, p: nat, off: nat, n: nat, g: Heap)
    requires CutsFresh(h, p, off, n) && Carved(h, p, off, n, g)
    ensures !IsLive(h, p + off) && IsLive(g, p + off) && n <= g.blocks[p + off].w < n + 8 && OthersKept(h, g, p + off)
    ensures g.areas == h.areas
  {
    var q, r := p + off, p + off + n + 2;
    forall x: nat | x != q ensures (IsLive(h, x) <==> IsLive(g, x)) && (IsLive(h, x) ==> SameBlock(h, g, x)) {
      if x != p && !(h.blocks[p].w - off >= n + 8 && x == r) {
        assert SameBlock(h, g, x);
      }
    }
  }

  // ----- mpool_free

  ghost predicate MergesNext(h: Heap, p: nat)
    requires Laid(h) && p in h.blocks
  {
    !IsLast(h, p) && (assert NextOk(h, p); h.blocks[Next(h, p)].free)
  }

  ghost predicate MergesPrev(h: Heap, p: nat)
    requires Laid(h) && p in h.blocks
  {
    !IsFirst(h, p) && h.blocks[Prev(h, p)].free
  }

  // Merge p with its successor; `listed`, one of the two, is free and leaves its list first.
  function Absorb(h: Heap, p: nat, listed: nat): Heap
    requires Joinable(h, p) && listed in h.blocks && h.blocks[listed].home < |h.lists|
  {
    Join(Take(h, listed), p)
  }

  // Of the neighbours p and Next(h, p), `listed` is free and `other` is allocated.
  ghost predicate Absorbable(h: Heap, p: nat, listed: nat, other: nat) {
    && Joinable(h, p)
    && ((listed == p && other == Next(h, p)) || (listed == Next(h, p) && other == p))
    && h.blocks[listed].free && IsLive(h, other)
  }

  // A block with a neighbour in its area is on the list of its class, as _detach assumes.
  lemma AbsorbHome(h: Heap, p: nat, listed: nat, other: nat)
    requires WF(h, 0) && Absorbable(h, p, listed, other)
    ensures h.blocks[listed].home == ClassOf(h.blocks[listed].w) && h.blocks[listed].home < |h.lists|
    ensures h.blocks[other].home == NOWHERE
  {
    hide ClassOf, Chained, Apart, AreasOk;
    assert BlockOk(h, p) && BlockOk(h, Next(h, p));
    assert h.blocks[other].home == h.blocks[other].home;
  }

  lemma AbsorbWF(h: Heap, p: nat, listed: nat, other: nat)
    requires WF(h, 0) && Absorbable(h, p, listed, other)
    ensures h.blocks[listed].home < |h.lists| && WF(Absorb(h, p, listed), 0)
  {
    hide Laid, Homed, Listed, ClassOf;
    AbsorbHome(h, p, listed, other);
    TakeWF(h, listed);
    JoinWF(Take(h, listed), p, listed);
  }

  ghost function MergeNext(h: Heap, p: nat): Heap
    requires WF(h, 0) && IsLive(h, p)
  {
    if MergesNext(h, p) then
      NextAbsorbable(h, p);
      Absorb(h, p, Next(h, p))
    else h
  }

  ghost function MergePrev(h: Heap, p: nat): (Heap, nat)
    requires WF(h, 0) && IsLive(h, p)
  {
    if MergesPrev(h, p) then
      AbsorbHome(h, Prev(h, p), Prev(h, p), p);
      (Absorb(h, Prev(h, p), Prev(h, p)), Prev(h, p))
    else (h, p)
  }

  lemma NextAbsorbable(h: Heap, p: nat)
    requires WF(h, 0) && IsLive(h, p) && MergesNext(h, p)
    ensures Absorbable(h, p, Next(h, p), p) && h.blocks[Next(h, p)].home < |h.lists|
  {
    hide ClassOf, Apart, AreasOk;
    assert NextOk(h, p);
    AbsorbHome(h, p, Next(h, p), p);
  }

  lemma MergeNextWF(h: Heap, p: nat)
    requires WF(h, 0) && IsLive(h, p)
    ensures WF(MergeNext(h, p), 0) && IsLive(MergeNext(h, p), p)
  {
    hide Listed, Homed, ClassOf;
    if MergesNext(h, p) {
      NextAbsorbable(h, p);
      AbsorbWF(h, p, Next(h, p), p);
    }
  }

  lemma MergePrevWF(h: Heap, p: nat)
    requires WF(h, 0) && IsLive(h, p)
    ensures var (g, q) := MergePrev(h, p); WF(g, 0) && IsLive(g, q)
  {
    hide Listed, Homed, ClassOf;
    if MergesPrev(h, p) {
      AbsorbWF(h, Prev(h, p), Prev(h, p), p);
    }
  }

  // blk_trymerge
  ghost function TryMerge(h: Heap, p: nat): (Heap, nat)
    requires WF(h, 0) && IsLive(h, p)
  {
    MergeNextWF(h, p);
    MergePrevWF(MergeNext(h, p), p);
    var (g, q) := MergePrev(MergeNext(h, p), p);
    (if h.blocks[p].big then SetArea2M(g, q) else g, q)
  }

  lemma TryMergeWF(h: Heap, p: nat)
    requires WF(h, 0) && IsLive(h, p)
    ensures var (g, q) := TryMerge(h, p); WF(g, 0) && IsLive(g, q)
  {
    hide Laid, Listed, Homed, ClassOf;
    MergeNextWF(h, p);
    MergePrevWF(MergeNext(h, p), p);
    var (g, q) := MergePrev(MergeNext(h, p), p);
    SetArea2MWF(g, q);
  }

  ghost function Free(h: Heap, p: nat): Heap
    requires WF(h, 0) && IsLive(h, p)
  {
    TryMergeWF(h, p);
    var (g, q) := TryMerge(h, p);
    Put(g, q)
  }

  lemma FreeWF(h: Heap, p: nat)
    requires WF(h, 0) && IsLive(h, p)
    ensures WF(Free(h, p), 0)
  {
    hide Laid, Listed, Homed, ClassOf;
    TryMergeWF(h, p);
    var (g, q) := TryMerge(h, p);
    PutWF(g, q);
  }

  lemma AbsorbKept(h: Heap, p: nat, listed: nat, other: nat)
    requires Absorbable(h, p, listed, other) && h.blocks[listed].home < |h.lists|
    ensures var g, n := Absorb(h, p, listed), Next(h, p);
            g.areas == h.areas && |g.lists| == |h.lists| && n !in g.blocks && p in g.blocks && p < n &&
            g.blocks[p] == Blk(h.blocks[p].w + h.blocks[n].w + 2, false, false, h.blocks[p].area, NOWHERE)
    ensures forall x {:trigger x in Absorb(h, p, listed).blocks} {:trigger x in h.blocks} :: x != p && x != Next(h, p) ==>
              (x in h.blocks <==> x in Absorb(h, p, listed).blocks) &&
              (x in h.blocks ==> Absorb(h, p, listed).blocks[x] == h.blocks[x])
  {
  }

  // The block of h that the freed block merges into starts at Lo and ends where a block at Hi
  // would start.
  ghost function Lo(h: Heap, p: nat): nat
    requires Laid(h) && p in h.blocks
  {
    if MergesPrev(h, p) then Prev(h, p) else p
  }

  ghost function Hi(h: Heap, p: nat): nat
    requires Laid(h) && p in h.blocks
  {
    if MergesNext(h, p) then (assert NextOk(h, p); Next(h, Next(h, p))) else Next(h, p)
  }

  // In g one free block covers [lo, hi) - with its two tags - and nothing else has changed.
  ghost predicate Merged(h: Heap, p: nat, g: Heap, lo: nat, hi: nat, free: bool, big: bool)
    requires p in h.blocks
  {
    && lo <= p && lo + 2 <= hi && g.areas == h.areas && |g.lists| == |h.lists|
    && (forall x: nat {:trigger SameBlock(h, g, x)} :: !(lo <= x < hi) ==> SameBlock(h, g, x))
    && (forall x: nat {:trigger x in g.blocks} :: lo < x < hi ==> x !in g.blocks)
    && lo in g.blocks && g.blocks[lo] == Blk(hi - lo - 2, free, big, h.blocks[p].area, g.blocks[lo].home)
  }

  lemma MergeNextMerges(h: Heap, p: nat)
    requires WF(h, 0) && IsLive(h, p)
    ensures Merged(h, p, MergeNext(h, p), p, Hi(h, p), false, h.blocks[p].big && !MergesNext(h, p))
  {
    hide Listed, Homed, ClassOf;
    var g := MergeNext(h, p);
    if MergesNext(h, p) {
      NextAbsorbable(h, p);
      AbsorbKept(h, p, Next(h, p), p);
    }
    forall x: nat | x in h.blocks ensures x == p || x == Next(h, p) || !(p < x < Hi(h, p)) {
      assert Clear(h, p, x);
      assert MergesNext(h, p) ==> Clear(h, Next(h, p), x);
    }
  }

  lemma MergePrevMerges(h: Heap, p: nat)
    requires WF(h, 0) && IsLive(h, p)
    ensures var (g, q) := MergePrev(h, p);
            q == Lo(h, p) && Merged(h, p, g, q, Next(h, p), false, h.blocks[p].big && !MergesPrev(h, p))
  {
    hide Listed, Homed, ClassOf;
    var g := MergePrev(h, p).0;
    var q := Lo(h, p);
    if MergesPrev(h, p) {
      AbsorbHome(h, q, q, p);
      AbsorbKept(h, q, q, p);
    }
    forall x: nat | x in h.blocks ensures x == q || x == p || !(q < x < Next(h, p)) {
      assert Clear(h, q, x) && Clear(h, p, x);
    }
  }

  // Merging with the successor does not change which predecessor there is, or whether it is free.
  lemma LoStable(h: Heap, p: nat)
    requires WF(h, 0) && IsLive(h, p) && WF(MergeNext(h, p), 0) && p in MergeNext(h, p).blocks
    ensures Lo(MergeNext(h, p), p) == Lo(h, p)
  {
    hide Listed, Homed, ClassOf;
    var g := MergeNext(h, p);
    MergeNextMerges(h, p);
    if !IsFirst(h, p) {
      var q := Prev(h, p);
      assert SameBlock(h, g, q);
      PrevUnique(g, p, q);
    }
  }

  lemma MergedTwice(h: Heap, p: nat, g1: Heap, hi: nat, b1: bool, g2: Heap, lo: nat, b2: bool)
    requires p in h.blocks && p in g1.blocks
    requires Merged(h, p, g1, p, hi, false, b1) && Merged(g1, p, g2, lo, hi, false, b2)
    ensures Merged(h, p, g2, lo, hi, false, b2)
  {
    forall x: nat | !(lo <= x < hi) ensures SameBlock(h, g2, x) {
      assert SameBlock(h, g1, x) && SameBlock(g1, g2, x);
    }
  }

  lemma MergedSetFlag(h: Heap, p: nat, g: Heap, lo: nat, hi: nat, b: bool)
    requires p in h.blocks && Merged(h, p, g, lo, hi, false, b) && (b ==> h.blocks[p].big)
    ensures Merged(h, p, if h.blocks[p].big then SetArea2M(g, lo) else g, lo, hi, false, h.blocks[p].big)
  {
    var g' := if h.blocks[p].big then SetArea2M(g, lo) else g;
    forall x: nat | !(lo <= x < hi) ensures SameBlock(h, g', x) {
      assert SameBlock(h, g, x);
    }
  }

  lemma MergedPut(h: Heap, p: nat, g: Heap, lo: nat, hi: nat, big: bool)
    requires p in h.blocks && |g.lists| == 9 && Merged(h, p, g, lo, hi, false, big)
    ensures Merged(h, p, Put(g, lo), lo, hi, true, big)
  {
    hide ClassOf;
    var g' := Put(g, lo);
    forall x: nat | !(lo <= x < hi) ensures SameBlock(h, g', x) {
      assert SameBlock(h, g, x);
    }
  }

  // blk_trymerge: the block and its free neighbours become one block without FREE_FLAG.
  lemma TryMergeMerges(h: Heap, p: nat)
    requires WF(h, 0) && IsLive(h, p)
    ensures var (g, q) := TryMerge(h, p);
            q == Lo(h, p) && Merged(h, p, g, q, Hi(h, p), false, h.blocks[p].big)
  {
    hide Laid, Listed, Homed, ClassOf;
    MergeNextWF(h, p);
    var g1 := MergeNext(h, p);
    MergeNextMerges(h, p);
    MergePrevWF(g1, p);
    MergePrevMerges(g1, p);
    LoStable(h, p);
    var (g2, lo) := MergePrev(g1, p);
    MergedTwice(h, p, g1, Hi(h, p), h.blocks[p].big && !MergesNext(h, p),
                g2, lo, g1.blocks[p].big && !MergesPrev(g1, p));
    MergedSetFlag(h, p, g2, lo, Hi(h, p), g1.blocks[p].big && !MergesPrev(g1, p));
  }

  /** mpool_free: the block and its free neighbours become one free block, SIZE_FLAG as in
      the freed block; every other block is untouched. */
  lemma FreeMerges(h: Heap, p: nat)
    requires WF(h, 0) && IsLive(h, p)
    ensures Merged(h, p, Free(h, p), Lo(h, p), Hi(h, p), true, h.blocks[p].big)
  {
    hide Laid, Listed, Homed, ClassOf, TryMerge, Merged;
    TryMergeWF(h, p);
    TryMergeMerges(h, p);
    var (g, q) := TryMerge(h, p);
    NineLists(g);
    MergedPut(h, p, g, q, Hi(h, p), h.blocks[p].big);
  }

  // The blocks of h that disappear into the freed block are free ones.
  lemma SpanFree(h: Heap, p: nat)
    requires Laid(h) && p in h.blocks
    ensures forall x {:trigger x in h.blocks} :: x in h.blocks && Lo(h, p) <= x < Hi(h, p) && x != p ==> h.blocks[x].free
    ensures Lo(h, p) <= p < Next(h, p) <= Hi(h, p)
  {
    hide AreasOk;
    assert NextOk(h, p);
    forall x | x in h.blocks && Lo(h, p) <= x < Hi(h, p) && x != p ensures h.blocks[x].free {
      assert Clear(h, p, x) && Clear(h, x, p) && Clear(h, Lo(h, p), x);
      assert MergesNext(h, p) ==> Clear(h, Next(h, p), x);
    }
  }

  lemma MergedLive(h: Heap, p: nat, g: Heap, lo: nat, hi: nat, big: bool)
    requires p in h.blocks && p < hi && Merged(h, p, g, lo, hi, true, big)
    requires forall x {:trigger x in h.blocks} :: x in h.blocks && lo <= x < hi && x != p ==> h.blocks[x].free
    ensures OthersKept(h, g, p) && !IsLive(g, p)
  {
    forall x: nat | x != p ensures (IsLive(h, x) <==> IsLive(g, x)) && (IsLive(h, x) ==> SameBlock(h, g, x)) {
      if !(lo <= x < hi) {
        assert SameBlock(h, g, x);
      }
    }
  }

  /** Freeing keeps the heap well formed and removes exactly the given block from the live
      ones. */
  lemma FreeCorrect(h: Heap, p: nat)
    requires WF(h, 0) && IsLive(h, p)
    ensures WF(Free(h, p), 0) && Free(h, p).areas == h.areas && OthersKept(h, Free(h, p), p) && !IsLive(Free(h, p), p)
  {
    hide Sized, Chained, Apart, AreasOk, Homed, Listed, ClassOf;
    FreeWF(h, p);
    FreeMerges(h, p);
    SpanFree(h, p);
    MergedLive(h, p, Free(h, p), Lo(h, p), Hi(h, p), h.blocks[p].big);
  }

  // ----- mpool_realloc

  // The block can grow into its free successor.
  ghost predicate GrowsInPlace(h: Heap, p: nat, n: nat)
    requires Laid(h) && p in h.blocks
  {
    MergesNext(h, p) && (assert NextOk(h, p); h.blocks[p].w + 2 + h.blocks[Next(h, p)].w >= n)
  }

  // mpool_realloc on a live block; (h, 0) stands for the copy through a null pointer.
  ghost function Realloc(h: Heap, base: nat, p: nat, n: nat): (Heap, nat)
    requires WF(h, 0) && IsLive(h, p) && Request(base, n, 0)
  {
    if h.blocks[p].w >= n then (Trim(h, p, n), p)
    else if GrowsInPlace(h, p, n) then
      MergeNextWF(h, p);
      (Trim(MergeNext(h, p), p, n), p)
    else
      AllocCorrect(h, base, n, 0);
      var (g, q) := Alloc(h, base, n, 0);
      if q == 0 then (h, 0) else (assert IsLive(g, p); (Free(g, p), q))
  }

  // The live blocks other than x and y are the same in h and g.
  ghost predicate OthersKept2(h: Heap, g: Heap, x: nat, y: nat) {
    forall q {:trigger IsLive(h, q)} {:trigger IsLive(g, q)} :: q != x && q != y ==>
      (IsLive(h, q) <==> IsLive(g, q)) && (IsLive(h, q) ==> SameBlock(h, g, q))
  }

  // g is h with the live block p replaced by the live block r of n to n + 7 words.
  ghost predicate Resized(h: Heap, p: nat, n: nat, g: Heap, r: nat) {
    && WF(g, 0) && g.areas == h.areas && IsLive(g, r) && n <= g.blocks[r].w < n + 8 && OthersKept2(h, g, p, r)
    && (r != p ==> !IsLive(h, r) && !IsLive(g, p))
  }

  lemma TrimLive(h: Heap, p: nat, n: nat)
    requires WF(h, 0) && IsLive(h, p) && 2 <= n <= h.blocks[p].w && n % 2 == 0
    ensures var g := Trim(h, p, n);
            && WF(g, 0) && g.areas == h.areas && IsLive(g, p) && OthersKept(h, g, p)
            && n <= g.blocks[p].w <= h.blocks[p].w && g.blocks[p].w < n + 8
  {
    hide ClassOf, Homed, Sized, Chained, AreasOk;
    NineLists(h);
    TrimWF(h, p, n, 0);
    if h.blocks[p].w >= n + 8 {
      assert p + n + 2 in h.blocks ==> Clear(h, p, p + n + 2);
    }
    TrimOthers(h, p, n);
  }

  lemma TrimOthers(h: Heap, p: nat, n: nat)
    requires IsLive(h, p) && |h.lists| == 9 && n <= h.blocks[p].w
    requires h.blocks[p].w >= n + 8 ==> p + n + 2 !in h.blocks
    ensures var g := Trim(h, p, n);
            && g.areas == h.areas && IsLive(g, p) && OthersKept(h, g, p)
            && n <= g.blocks[p].w <= h.blocks[p].w && g.blocks[p].w < n + 8
  {
    hide ClassOf;
    var g := Trim(h, p, n);
    forall x: nat | x != p ensures (IsLive(h, x) <==> IsLive(g, x)) && (IsLive(h, x) ==> SameBlock(h, g, x)) {
      assert h.blocks[p].w >= n + 8 && x != p + n + 2 ==> (x in g.blocks <==> x in h.blocks);
    }
  }

  lemma MergeNextLive(h: Heap, p: nat)
    requires WF(h, 0) && IsLive(h, p) && MergesNext(h, p)
    ensures var g := MergeNext(h, p);
            WF(g, 0) && g.areas == h.areas && IsLive(g, p) && OthersKept(h, g, p) && Next(h, p) in h.blocks &&
            g.blocks[p].w == h.blocks[p].w + 2 + h.blocks[Next(h, p)].w
  {
    hide Homed, Listed, ClassOf;
    MergeNextWF(h, p);
    var g := MergeNext(h, p);
    NextAbsorbable(h, p);
    AbsorbKept(h, p, Next(h, p), p);
    forall x: nat | x != p ensures (IsLive(h, x) <==> IsLive(g, x)) && (IsLive(h, x) ==> SameBlock(h, g, x)) {
      assert x in h.blocks || x !in h.blocks;
    }
  }

  lemma OthersTrans(h: Heap, g: Heap, k: Heap, x: nat, y: nat)
    requires OthersKept(h, g, x) && OthersKept(g, k, y)
    ensures OthersKept2(h, k, x, y)
  {
    forall q: nat | q != x && q != y ensures (IsLive(h, q) <==> IsLive(k, q)) && (IsLive(h, q) ==> SameBlock(h, k, q)) {
      assert IsLive(h, q) <==> IsLive(g, q);
    }
  }

  /** Reallocation fails exactly when the block is too small, its successor does not help, and
      no free block holds the request; otherwise one live block, of the size an allocation
      gives, takes the place of the old one and all others stay.  The block stays where it is
      exactly when it or its free successor holds the request. */
  lemma ReallocCorrect(h: Heap, base: nat, p: nat, n: nat)
    requires WF(h, 0) && IsLive(h, p) && Request(base, n, 0)
    ensures var (g, r) := Realloc(h, base, p, n);
            if r == 0 then g == h
            else Resized(h, p, n, g, r) && (r == p <==> h.blocks[p].w >= n || GrowsInPlace(h, p, n))
    ensures Realloc(h, base, p, n).1 == 0 <==>
              h.blocks[p].w < n && !GrowsInPlace(h, p, n) &&
              forall q :: q in h.blocks && h.blocks[q].free ==> h.blocks[q].w < n
  {
    hide Homed, Listed, ClassOf, Trim, MergeNext, Free, Alloc, Sized, Chained, Apart, AreasOk;
    LiveNonzero(h, p);
    NineLists(h);
    if h.blocks[p].w >= n {
      TrimLive(h, p, n);
      OthersTrans(h, h, Trim(h, p, n), p, p);
    } else if GrowsInPlace(h, p, n) {
      MergeNextLive(h, p);
      var g := MergeNext(h, p);
      NineLists(g);
      TrimLive(g, p, n);
      OthersTrans(h, g, Trim(g, p, n), p, p);
    } else {
      AllocCorrect(h, base, n, 0);
      var (g, q) := Alloc(h, base, n, 0);
      if q != 0 {
        FreeCorrect(g, p);
        OthersTrans(h, g, Free(g, p), q, p);
      }
    }
  }

  lemma LiveNonzero(h: Heap, p: nat)
    requires WF(h, 0) && IsLive(h, p)
    ensures p != 0
  {
  }
}

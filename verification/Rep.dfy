/** How the words of memory and the list heads represent an abstract heap. */
module Reps {
  import opened Tags
  import opened Heaps

  ghost predicate TagOk(m: seq<nat>, h: Heap, p: nat)
    requires p in h.blocks
  {
    1 <= p && p + h.blocks[p].w < |m| && m[p - 1] == m[p + h.blocks[p].w] == Tag(h.blocks[p])
  }

  // Head and tail word of every block agree with it.
  ghost predicate Tagged(m: seq<nat>, h: Heap) {
    forall p {:trigger TagOk(m, h, p)} :: p in h.blocks ==> TagOk(m, h, p)
  }

  ghost predicate FenceOk(m: seq<nat>, h: Heap, a: nat)
    requires a in h.areas
  {
    h.areas[a].len >= 2 && End(h, a) <= |m| && m[a] == m[End(h, a) - 1] == h.areas[a].fence
  }

  ghost predicate Fenced(m: seq<nat>, h: Heap) {
    forall a {:trigger FenceOk(m, h, a)} :: a in h.areas ==> FenceOk(m, h, a)
  }

  // Word l[k] holds the next node, and word l[k] + 1 the previous one unless k is the head.
  ghost predicate LinkOk(m: seq<nat>, l: seq<nat>, k: int)
    requires 0 <= k < |l|
  {
    && l[k] + 1 < |m|
    && m[l[k]] == (if k + 1 < |l| then l[k + 1] else 0)
    && (k > 0 ==> m[l[k] + 1] == l[k - 1])
  }

  ghost predicate Chain(m: seq<nat>, head: nat, l: seq<nat>) {
    head == (if l == [] then 0 else l[0]) &&
    forall k {:trigger LinkOk(m, l, k)} :: 0 <= k < |l| ==> LinkOk(m, l, k)
  }

  ghost predicate Linked(m: seq<nat>, heads: seq<nat>, lists: seq<seq<nat>>) {
    |heads| == |lists| == 9 &&
    forall i {:trigger Chain(m, heads[i], lists[i])} :: 0 <= i < 9 ==> Chain(m, heads[i], lists[i])
  }

  ghost predicate Rep(m: seq<nat>, heads: seq<nat>, h: Heap) {
    Tagged(m, h) && Fenced(m, h) && Linked(m, heads, h.lists)
  }

  // The payload words of p.
  ghost predicate PayloadSame(m0: seq<nat>, m1: seq<nat>, p: nat, w: nat) {
    p + w <= |m0| == |m1| && forall i :: p <= i < p + w ==> m1[i] == m0[i]
  }

  // No live block other than x has a changed payload word.
  ghost predicate Undisturbed(m0: seq<nat>, m1: seq<nat>, h: Heap, x: nat) {
    |m1| == |m0| &&
    forall q {:trigger PayloadSame(m0, m1, q, h.blocks[q].w)} ::
      q in h.blocks && !h.blocks[q].free && q != x ==> PayloadSame(m0, m1, q, h.blocks[q].w)
  }

  // ----- writes inside the span of one block

  // Only words from the head tag of p to its tail tag differ.
  ghost predicate InSpan(m0: seq<nat>, m1: seq<nat>, h: Heap, p: nat)
    requires p in h.blocks
  {
    |m1| == |m0| && p >= 1 &&
    forall i {:trigger m1[i]} :: 0 <= i < |m0| && !(p - 1 <= i <= p + h.blocks[p].w) ==> m1[i] == m0[i]
  }

  lemma SpanTags(m0: seq<nat>, m1: seq<nat>, h: Heap, p: nat, x: nat)
    requires Laid(h) && p in h.blocks && x in h.blocks && x != p && InSpan(m0, m1, h, p) && TagOk(m0, h, x)
    ensures TagOk(m1, h, x) && PayloadSame(m0, m1, x, h.blocks[x].w)
    ensures m1[x] == m0[x] && m1[x + 1] == m0[x + 1]
  {
    hide Chained, AreasOk;
    assert Clear(h, p, x) && Clear(h, x, p);
    assert BlockOk(h, x);
  }

  lemma SpanFences(m0: seq<nat>, m1: seq<nat>, h: Heap, p: nat)
    requires Laid(h) && p in h.blocks && InSpan(m0, m1, h, p) && Fenced(m0, h)
    ensures Fenced(m1, h)
  {
    hide Chained, Apart;
    var c := h.blocks[p].area;
    assert BlockOk(h, p);
    forall a | a in h.areas ensures FenceOk(m1, h, a) {
      assert FenceOk(m0, h, a);
      assert a < c ==> End(h, a) <= c;
      assert c < a ==> End(h, c) <= a;
    }
  }

  lemma SpanLinks(m0: seq<nat>, m1: seq<nat>, heads: seq<nat>, h: Heap, p: nat)
    requires Laid(h) && Homed(h) && p in h.blocks && h.blocks[p].home == NOWHERE && InSpan(m0, m1, h, p)
    requires forall x :: x in h.blocks && x != p ==> TagOk(m0, h, x)
    requires Linked(m0, heads, h.lists)
    ensures Linked(m1, heads, h.lists)
  {
    forall i | 0 <= i < 9 ensures Chain(m1, heads[i], h.lists[i]) {
      var l := h.lists[i];
      assert Chain(m0, heads[i], l);
      forall k | 0 <= k < |l| ensures LinkOk(m1, l, k) {
        assert LinkOk(m0, l, k);
        assert l[k] in h.lists[i];
        SpanTags(m0, m1, h, p, l[k]);
      }
    }
  }

  /** Everything but the block p itself survives writes inside the span of p. */
  lemma SpanRep(m0: seq<nat>, m1: seq<nat>, heads: seq<nat>, h: Heap, p: nat)
    requires Laid(h) && Homed(h) && p in h.blocks && h.blocks[p].home == NOWHERE && InSpan(m0, m1, h, p)
    requires forall x :: x in h.blocks && x != p ==> TagOk(m0, h, x)
    requires Fenced(m0, h) && Linked(m0, heads, h.lists)
    ensures forall x {:trigger TagOk(m1, h, x)} :: x in h.blocks && x != p ==> TagOk(m1, h, x)
    ensures Fenced(m1, h) && Linked(m1, heads, h.lists)
    ensures Undisturbed(m0, m1, h, p)
  {
    SpanFences(m0, m1, h, p);
    SpanLinks(m0, m1, heads, h, p);
    forall x | x in h.blocks && x != p ensures TagOk(m1, h, x) && PayloadSame(m0, m1, x, h.blocks[x].w) {
      SpanTags(m0, m1, h, p, x);
    }
  }

  // ----- the link words

  // l's nodes are nonzero and two words apart from each other.
  ghost predicate Spaced(l: seq<nat>) {
    (forall k :: 0 <= k < |l| ==> l[k] != 0) &&
    forall j, k :: 0 <= j < k < |l| ==> l[j] + 2 <= l[k] || l[k] + 2 <= l[j]
  }

  // Words p and p + 1 belong to no node of l.
  ghost predicate OffList(p: nat, l: seq<nat>) {
    forall k :: 0 <= k < |l| ==> l[k] + 2 <= p || p + 2 <= l[k]
  }

  // The words that freelist_put writes for p in front of a list headed by `head`.
  function PutWords(m: seq<nat>, head: nat, p: nat): seq<nat>
    requires p + 1 < |m| && head + 1 < |m|
  {
    var m1 := m[p := head][p + 1 := 0];
    if head != 0 then m1[head + 1 := p] else m1
  }

  lemma PutChain(m: seq<nat>, head: nat, l: seq<nat>, p: nat)
    requires Chain(m, head, l) && Spaced(l) && OffList(p, l) && p != 0 && p + 1 < |m| && head + 1 < |m|
    ensures Chain(PutWords(m, head, p), p, [p] + l)
  {
    var m1, r := PutWords(m, head, p), [p] + l;
    forall k | 0 <= k < |r| ensures LinkOk(m1, r, k) {
      if k > 0 {
        assert LinkOk(m, l, k - 1);
      }
    }
  }

  // The words that detaching a node p which is not the head writes.
  function DetachWords(m: seq<nat>, p: nat): seq<nat>
    requires p + 1 < |m| && m[p] + 1 < |m| && m[p + 1] < |m|
  {
    var m1 := if m[p] != 0 then m[m[p] + 1 := m[p + 1]] else m;
    if m1[p + 1] != 0 then m1[m1[p + 1] := m1[p]] else m1
  }

  // Detaching the head just moves the head; the new head's `prev` word stays stale.
  lemma DetachHead(m: seq<nat>, head: nat, l: seq<nat>)
    requires Chain(m, head, l) && l != []
    ensures l[0] + 1 < |m| && Chain(m, m[l[0]], l[1..])
  {
    assert LinkOk(m, l, 0);
    forall j | 0 <= j < |l| - 1 ensures LinkOk(m, l[1..], j) {
      assert LinkOk(m, l, j + 1);
    }
  }

  /** Detaching a later node unlinks exactly it, though the head's own `prev` word may be
      stale: exact `prev` words on the other nodes suffice, and they stay exact. */
  lemma DetachChain(m: seq<nat>, head: nat, l: seq<nat>, k: nat)
    requires Chain(m, head, l) && Spaced(l) && 0 < k < |l|
    ensures l[k] + 1 < |m| && l[k] != head && m[l[k]] + 1 < |m| && m[l[k] + 1] == l[k - 1] < |m|
    ensures Chain(DetachWords(m, l[k]), head, l[..k] + l[k + 1..])
  {
    assert LinkOk(m, l, k) && LinkOk(m, l, k - 1);
    if k + 1 < |l| {
      assert LinkOk(m, l, k + 1);
    }
    var r, m1 := l[..k] + l[k + 1..], DetachWords(m, l[k]);
    forall j | 0 <= j < |r| ensures LinkOk(m1, r, j) {
      DetachLink(m, head, l, k, j);
    }
  }

  lemma DetachLink(m: seq<nat>, head: nat, l: seq<nat>, k: nat, j: nat)
    requires Chain(m, head, l) && Spaced(l) && 0 < k < |l| && j < |l| - 1
    requires l[k] + 1 < |m| && m[l[k]] + 1 < |m| && m[l[k] + 1] == l[k - 1] < |m|
    requires m[l[k]] == if k + 1 < |l| then l[k + 1] else 0
    ensures LinkOk(DetachWords(m, l[k]), l[..k] + l[k + 1..], j)
  {
    var i := if j < k then j else j + 1;
    assert LinkOk(m, l, i) && LinkOk(m, l, k - 1);
    var r := l[..k] + l[k + 1..];
    assert r[j] == l[i] && (j + 1 < |r| ==> r[j + 1] == l[if j + 1 < k then j + 1 else j + 2]);
    assert j > 0 ==> r[j - 1] == l[if j - 1 < k then j - 1 else j];
  }

  // A list whose nodes are none of the written ones keeps its links.
  lemma ChainFrame(m0: seq<nat>, m1: seq<nat>, head: nat, l: seq<nat>)
    requires Chain(m0, head, l) && |m1| == |m0|
    requires forall k :: 0 <= k < |l| && l[k] + 1 < |m0| ==> m1[l[k]] == m0[l[k]] && m1[l[k] + 1] == m0[l[k] + 1]
    ensures Chain(m1, head, l)
  {
    forall k | 0 <= k < |l| ensures LinkOk(m1, l, k) {
      assert LinkOk(m0, l, k);
    }
  }

  // ----- link words inside blocks

  // A write to a payload word leaves every tag and fence, and every other payload, alone.
  lemma PayloadWrite(m: seq<nat>, h: Heap, x: nat, i: nat, v: nat)
    requires Laid(h) && Tagged(m, h) && Fenced(m, h) && x in h.blocks && x <= i < x + h.blocks[x].w
    ensures i < |m| && Tagged(m[i := v], h) && Fenced(m[i := v], h)
    ensures Undisturbed(m, m[i := v], h, x)
    ensures h.blocks[x].free ==> Undisturbed(m, m[i := v], h, 0)
  {
    assert TagOk(m, h, x);
    var m1 := m[i := v];
    forall y | y in h.blocks ensures TagOk(m1, h, y) && (y != x ==> PayloadSame(m, m1, y, h.blocks[y].w)) {
      assert TagOk(m, h, y);
      if y != x {
        SpanTags(m, m1, h, x, y);
      }
    }
    SpanFences(m, m1, h, x);
  }

  lemma UndisturbedTrans(m0: seq<nat>, m1: seq<nat>, m2: seq<nat>, h: Heap, x: nat)
    requires Undisturbed(m0, m1, h, x) && Undisturbed(m1, m2, h, x)
    ensures Undisturbed(m0, m2, h, x)
  {
    forall q | q in h.blocks && !h.blocks[q].free && q != x ensures PayloadSame(m0, m2, q, h.blocks[q].w) {
      assert PayloadSame(m0, m1, q, h.blocks[q].w) && PayloadSame(m1, m2, q, h.blocks[q].w);
    }
  }

  // Two different blocks are at least four words apart.
  lemma BlocksSpaced(h: Heap, x: nat, y: nat)
    requires Laid(h) && x in h.blocks && y in h.blocks && x != y
    ensures x + 2 <= y || y + 2 <= x
  {
    hide Chained, AreasOk;
    assert Clear(h, x, y) && Clear(h, y, x);
  }

  lemma ListSpaced(h: Heap, i: nat)
    requires Laid(h) && Homed(h) && i < 9
    ensures Spaced(h.lists[i])
    ensures forall p: nat :: p in h.blocks && h.blocks[p].home != i ==> OffList(p, h.lists[i])
  {
    var l := h.lists[i];
    forall k | 0 <= k < |l| ensures l[k] in h.blocks && l[k] != 0 && h.blocks[l[k]].home == i {
      assert l[k] in h.lists[i];
      assert BlockOk(h, l[k]);
    }
    forall j, k | 0 <= j < k < |l| ensures l[j] + 2 <= l[k] || l[k] + 2 <= l[j] {
      BlocksSpaced(h, l[j], l[k]);
    }
    forall p: nat, k: nat | p in h.blocks && h.blocks[p].home != i && k < |l| ensures l[k] + 2 <= p || p + 2 <= l[k] {
      BlocksSpaced(h, l[k], p);
    }
  }

  ghost predicate LiveSub(h: Heap, g: Heap, x: nat) {
    forall q {:trigger q in h.blocks} ::
      q in h.blocks && !h.blocks[q].free && q != x ==> q in g.blocks && !g.blocks[q].free && g.blocks[q].w == h.blocks[q].w
  }

  lemma UndisturbedThrough(m0: seq<nat>, m1: seq<nat>, m2: seq<nat>, h: Heap, g: Heap, x: nat, y: nat)
    requires Undisturbed(m0, m1, h, x) && LiveSub(h, g, x) && Undisturbed(m1, m2, g, y)
    requires y == x || y !in h.blocks || h.blocks[y].free
    ensures Undisturbed(m0, m2, h, x)
  {
    forall q | q in h.blocks && !h.blocks[q].free && q != x ensures PayloadSame(m0, m2, q, h.blocks[q].w) {
      assert PayloadSame(m0, m1, q, h.blocks[q].w) && PayloadSame(m1, m2, q, g.blocks[q].w);
    }
  }

  // ----- each step keeps the representation

  // Rewriting both tags of an unlisted block with new flags.
  lemma RetagRep(m: seq<nat>, heads: seq<nat>, h: Heap, p: nat, b: Blk)
    requires Laid(h) && Homed(h) && Rep(m, heads, h) && p in h.blocks && h.blocks[p].home == NOWHERE
    requires b == h.blocks[p].(free := b.free, big := b.big)
    ensures 1 <= p && p + b.w < |m|
    ensures var m1, g := m[p - 1 := Tag(b)][p + b.w := Tag(b)], h.(blocks := h.blocks[p := b]);
            Rep(m1, heads, g) && Undisturbed(m, m1, h, 0)
  {
    hide Laid, Homed;
    assert TagOk(m, h, p);
    var m1, g := m[p - 1 := Tag(b)][p + b.w := Tag(b)], h.(blocks := h.blocks[p := b]);
    forall x | x in h.blocks && x != p ensures TagOk(m, h, x) {}
    SpanRep(m, m1, heads, h, p);
    forall x | x in g.blocks ensures TagOk(m1, g, x) {
      assert x != p ==> TagOk(m1, h, x);
    }
    forall a | a in g.areas ensures FenceOk(m1, g, a) {
      assert FenceOk(m1, h, a);
    }
    assert PayloadSame(m, m1, p, b.w);
  }

  // blk_split: both halves get their tags, inside the old block.
  lemma SplitRep(m: seq<nat>, m1: seq<nat>, heads: seq<nat>, h: Heap, p: nat, s: nat)
    requires Laid(h) && Homed(h) && Rep(m, heads, h) && p in h.blocks && h.blocks[p].home == NOWHERE
    requires s + 2 <= h.blocks[p].w && InSpan(m, m1, h, p) && p + s + 2 !in h.blocks
    requires TagOk(m1, Split(h, p, s), p) && TagOk(m1, Split(h, p, s), p + s + 2)
    ensures Rep(m1, heads, Split(h, p, s)) && Undisturbed(m, m1, h, p)
  {
    hide Laid, Homed;
    var g := Split(h, p, s);
    forall x | x in h.blocks && x != p ensures TagOk(m, h, x) {}
    SpanRep(m, m1, heads, h, p);
    forall x | x in g.blocks ensures TagOk(m1, g, x) {
      assert x in h.blocks && x != p ==> TagOk(m1, h, x);
    }
    forall a | a in g.areas ensures FenceOk(m1, g, a) {
      assert FenceOk(m1, h, a);
    }
  }

  // blk_setsize over p and its successor n.
  lemma JoinRep(m: seq<nat>, heads: seq<nat>, h: Heap, p: nat)
    requires Joinable(h, p) && Rep(m, heads, h) && Laid(h) && Laid(Join(h, p)) && Homed(Join(h, p))
    ensures var w := Join(h, p).blocks[p].w;
            1 <= p && p + w < |m| &&
            var m1 := m[p - 1 := 8 * w][p + w := 8 * w];
            Rep(m1, heads, Join(h, p)) && Undisturbed(m, m1, h, Next(h, p))
  {
    hide Laid, Homed;
    var g, n := Join(h, p), Next(h, p);
    var w := g.blocks[p].w;
    assert TagOk(m, h, p) && TagOk(m, h, n);
    var m1 := m[p - 1 := 8 * w][p + w := 8 * w];
    forall x | x in g.blocks && x != p ensures TagOk(m, g, x) {
      assert TagOk(m, h, x);
    }
    forall a | a in g.areas ensures FenceOk(m, g, a) {
      assert FenceOk(m, h, a);
    }
    SpanRep(m, m1, heads, g, p);
    forall x | x in g.blocks ensures TagOk(m1, g, x) {}
    forall q | q in h.blocks && !h.blocks[q].free && q != n ensures PayloadSame(m, m1, q, h.blocks[q].w) {
      if q != p {
        assert !g.blocks[q].free;
        assert PayloadSame(m, m1, q, g.blocks[q].w);
      }
    }
  }

  // Moving p between lists changes neither tags nor fences.
  lemma RehomeTags(m: seq<nat>, h: Heap, g: Heap, p: nat)
    requires Tagged(m, h) && Fenced(m, h) && p in h.blocks && p in g.blocks && g.areas == h.areas
    requires g.blocks == h.blocks[p := h.blocks[p].(home := g.blocks[p].home)]
    ensures Tagged(m, g) && Fenced(m, g)
  {
    forall x | x in g.blocks ensures TagOk(m, g, x) {
      assert TagOk(m, h, x);
    }
    forall a | a in g.areas ensures FenceOk(m, g, a) {
      assert FenceOk(m, h, a);
    }
  }

  lemma UndisturbedWeaken(m0: seq<nat>, m1: seq<nat>, h: Heap, x: nat, y: nat)
    requires Undisturbed(m0, m1, h, x) && (x == y || x !in h.blocks || h.blocks[x].free)
    ensures Undisturbed(m0, m1, h, y)
  {
    forall q | q in h.blocks && !h.blocks[q].free && q != y ensures PayloadSame(m0, m1, q, h.blocks[q].w) {}
  }

  lemma HeadOf(m: seq<nat>, heads: seq<nat>, h: Heap, hand: nat, id: nat)
    requires WF(h, hand) && Linked(m, heads, h.lists) && id < 9
    ensures heads[id] == 0 <==> h.lists[id] == []
    ensures heads[id] != 0 ==> heads[id] in h.lists[id] && heads[id] in h.blocks && h.blocks[heads[id]].home == id &&
                               h.blocks[heads[id]].free && h.blocks[heads[id]].w >= 2
  {
    hide ClassOf, Chained, Apart, AreasOk;
    assert Chain(m, heads[id], h.lists[id]);
    if h.lists[id] != [] {
      assert h.lists[id][0] in h.lists[id];
      assert BlockOk(h, h.lists[id][0]);
    }
  }

  lemma PutFacts(m: seq<nat>, heads: seq<nat>, h: Heap, p: nat, id: nat)
    requires WF(h, p) && Rep(m, heads, h) && p in h.blocks && id < 9
    ensures |heads| == 9 && Laid(h) && h.blocks[p].w >= 2 && p + 1 < |m| && heads[id] + 1 < |m|
    ensures heads[id] != 0 ==> heads[id] in h.blocks && h.blocks[heads[id]].free && h.blocks[heads[id]].w >= 2
  {
    hide Chained, Apart, AreasOk, ClassOf, Tag;
    HeadOf(m, heads, h, p, id);
    assert BlockOk(h, p) && TagOk(m, h, p);
    assert heads[id] != 0 ==> TagOk(m, h, heads[id]);
  }

  // The writes of a put land in the payloads of p and of the old head, a listed block.
  lemma PutWordsFrame(m: seq<nat>, heads: seq<nat>, h: Heap, p: nat, id: nat)
    requires WF(h, p) && Rep(m, heads, h) && p in h.blocks && id < 9
    ensures p + 1 < |m| && heads[id] + 1 < |m|
    ensures var m2 := PutWords(m, heads[id], p);
            Tagged(m2, h) && Fenced(m2, h) && Undisturbed(m, m2, h, p)
  {
    hide WF, Laid, Tagged, Fenced, Linked, Undisturbed;
    PutFacts(m, heads, h, p, id);
    PayloadWrite(m, h, p, p, heads[id]);
    var m0 := m[p := heads[id]];
    PayloadWrite(m0, h, p, p + 1, 0);
    var m1 := m0[p + 1 := 0];
    UndisturbedTrans(m, m0, m1, h, p);
    var x := heads[id];
    if x != 0 {
      PayloadWrite(m1, h, x, x + 1, p);
      UndisturbedWeaken(m1, m1[x + 1 := p], h, x, p);
      UndisturbedTrans(m, m1, m1[x + 1 := p], h, p);
    }
  }

  // The lists other than id, and list id itself, after a put of p on list id.
  lemma PutLinks(m: seq<nat>, heads: seq<nat>, h: Heap, p: nat, id: nat)
    requires WF(h, p) && Linked(m, heads, h.lists) && p in h.blocks && id < 9 && h.blocks[p].home == NOWHERE
    requires p + 1 < |m| && heads[id] + 1 < |m|
    ensures Linked(PutWords(m, heads[id], p), heads[id := p], h.lists[id := [p] + h.lists[id]])
  {
    var m2, heads2, lists2 := PutWords(m, heads[id], p), heads[id := p], h.lists[id := [p] + h.lists[id]];
    HeadOf(m, heads, h, p, id);
    assert BlockOk(h, p);
    hide Listed, Chained, Apart, AreasOk;
    forall i | 0 <= i < 9 ensures Chain(m2, heads2[i], lists2[i]) {
      assert Chain(m, heads[i], h.lists[i]);
      ListSpaced(h, i);
      if i == id {
        PutChain(m, heads[id], h.lists[id], p);
      } else {
        assert OffList(p, h.lists[i]);
        assert heads[id] != 0 ==> OffList(heads[id], h.lists[i]);
        ChainFrame(m, m2, heads[i], h.lists[i]);
      }
    }
  }

  /** freelist_put refines insertion at the front of the abstract list. */
  lemma EnlistRep(m: seq<nat>, heads: seq<nat>, h: Heap, p: nat, id: nat)
    requires WF(h, p) && Rep(m, heads, h) && p in h.blocks && id < 9 && h.blocks[p].home == NOWHERE
    ensures p + 1 < |m| && heads[id] + 1 < |m|
    ensures Rep(PutWords(m, heads[id], p), heads[id := p], Enlist(h, p, id))
    ensures Undisturbed(m, PutWords(m, heads[id], p), h, p)
  {
    PutWordsFrame(m, heads, h, p, id);
    PutLinks(m, heads, h, p, id);
    RehomeTags(PutWords(m, heads[id], p), h, Enlist(h, p, id), p);
  }

  // Node p of list id is not the head: every list after it is detached.
  lemma TakeLaterLinks(m: seq<nat>, heads: seq<nat>, h: Heap, id: nat, k: nat)
    requires Laid(h) && Homed(h) && Linked(m, heads, h.lists) && id < 9 && 0 < k < |h.lists[id]|
    ensures var l := h.lists[id];
            l[k] + 1 < |m| && l[k] != heads[id] && m[l[k]] + 1 < |m| && m[l[k] + 1] == l[k - 1] < |m| &&
            m[l[k]] == (if k + 1 < |l| then l[k + 1] else 0) &&
            Linked(DetachWords(m, l[k]), heads, h.lists[id := l[..k] + l[k + 1..]])
  {
    hide Laid;
    var l := h.lists[id];
    var p, lists2 := l[k], h.lists[id := l[..k] + l[k + 1..]];
    assert Chain(m, heads[id], l) && LinkOk(m, l, k);
    ListSpaced(h, id);
    DetachChain(m, heads[id], l, k);
    assert l[k - 1] in l && (k + 1 < |l| ==> l[k + 1] in l);
    var m2 := DetachWords(m, p);
    forall i | 0 <= i < 9 ensures Chain(m2, heads[i], lists2[i]) {
      assert Chain(m, heads[i], h.lists[i]);
      if i != id {
        ListSpaced(h, i);
        assert OffList(l[k - 1], h.lists[i]);
        assert k + 1 < |l| ==> OffList(l[k + 1], h.lists[i]);
        ChainFrame(m, m2, heads[i], h.lists[i]);
      }
    }
  }

  // The links of every list after node p of list id is detached.
  lemma TakeLinks(m: seq<nat>, heads: seq<nat>, h: Heap, p: nat, id: nat)
    requires WF(h, 0) && Linked(m, heads, h.lists) && p in h.blocks && h.blocks[p].home == id < 9
    ensures heads[id] == p ==> p < |m| && Linked(m, heads[id := m[p]], Take(h, p).lists)
    ensures heads[id] != p ==>
              p + 1 < |m| && m[p] + 1 < |m| && m[p + 1] < |m| && m[p + 1] in h.lists[id] && (m[p] != 0 ==> m[p] in h.lists[id]) &&
              Linked(DetachWords(m, p), heads, Take(h, p).lists)
  {
    hide Laid, Listed, ClassOf;
    var l := h.lists[id];
    assert p in l;
    var k :| 0 <= k < |l| && l[k] == p;
    assert Chain(m, heads[id], l);
    WithoutAt(l, k);
    if k == 0 {
      DetachHead(m, heads[id], l);
      var heads2, lists2 := heads[id := m[p]], Take(h, p).lists;
      forall i | 0 <= i < 9 ensures Chain(m, heads2[i], lists2[i]) {
        assert Chain(m, heads[i], h.lists[i]);
      }
    } else {
      TakeLaterLinks(m, heads, h, id, k);
    }
  }

  lemma PayloadRoom(h: Heap, p: nat)
    requires Laid(h) && p in h.blocks
    ensures h.blocks[p].w >= 2 && p != 0
  {
    hide Chained, Apart, AreasOk;
    assert BlockOk(h, p);
  }

  // The writes of a detach land in the payloads of listed blocks.
  lemma DetachWordsFrame(m: seq<nat>, h: Heap, p: nat)
    requires Laid(h) && Tagged(m, h) && Fenced(m, h)
    requires p + 1 < |m| && m[p] + 1 < |m| && m[p + 1] < |m| && p in h.blocks && h.blocks[p].free && m[p] != p
    requires m[p] != 0 ==> m[p] in h.blocks && h.blocks[m[p]].free
    requires m[p + 1] in h.blocks && h.blocks[m[p + 1]].free
    ensures var m2 := DetachWords(m, p); Tagged(m2, h) && Fenced(m2, h) && Undisturbed(m, m2, h, 0)
  {
    hide Laid, Tagged, Fenced, Undisturbed;
    var x, y := m[p], m[p + 1];
    PayloadRoom(h, p);
    PayloadRoom(h, y);
    var m1 := if x != 0 then m[x + 1 := y] else m;
    if x != 0 {
      PayloadRoom(h, x);
      BlocksSpaced(h, x, p);
    }
    assert m1[p] == m[p] && m1[p + 1] == m[p + 1];
    if x != 0 {
      PayloadWrite(m, h, x, x + 1, y);
    }
    PayloadWrite(m1, h, y, y, x);
    if x != 0 {
      UndisturbedTrans(m, m1, m1[y := x], h, 0);
    }
  }

  /** Detaching a node refines removal from the abstract list. */
  lemma TakeRep(m: seq<nat>, heads: seq<nat>, h: Heap, p: nat, id: nat)
    requires WF(h, 0) && Rep(m, heads, h) && p in h.blocks && h.blocks[p].home == id < 9
    ensures p + 1 < |m|
    ensures heads[id] == p ==> Rep(m, heads[id := m[p]], Take(h, p))
    ensures heads[id] != p ==>
              m[p] + 1 < |m| && m[p + 1] < |m| && m[p + 1] != 0 && (m[p] != 0 ==> m[p] + 1 != p && m[p] + 1 != p + 1) &&
              Rep(DetachWords(m, p), heads, Take(h, p)) && Undisturbed(m, DetachWords(m, p), h, 0)
  {
    TakeLinks(m, heads, h, p, id);
    assert TagOk(m, h, p);
    TakeNodes(m, heads, h, p, id);
    if heads[id] == p {
      RehomeTags(m, h, Take(h, p), p);
    } else {
      DetachWordsFrame(m, h, p);
      RehomeTags(DetachWords(m, p), h, Take(h, p), p);
    }
  }

  // The neighbours of a listed node are other listed, hence free, blocks.
  lemma TakeNodes(m: seq<nat>, heads: seq<nat>, h: Heap, p: nat, id: nat)
    requires WF(h, 0) && Linked(m, heads, h.lists) && p in h.blocks && h.blocks[p].home == id < 9 && p + 1 < |m|
    requires heads[id] != p ==> m[p + 1] in h.lists[id] && (m[p] != 0 ==> m[p] in h.lists[id])
    ensures h.blocks[p].free
    ensures heads[id] != p ==> m[p + 1] in h.blocks && h.blocks[m[p + 1]].free && m[p + 1] != 0
    ensures heads[id] != p && m[p] != 0 ==>
              m[p] in h.blocks && h.blocks[m[p]].free && m[p] != p && m[p] + 1 != p
  {
    hide Chained, Apart, AreasOk, ClassOf;
    var l := h.lists[id];
    assert p in l;
    var k :| 0 <= k < |l| && l[k] == p;
    assert Chain(m, heads[id], l);
    assert LinkOk(m, l, k);
    if heads[id] != p && m[p] != 0 {
      assert m[p] == l[k + 1] != l[k];
      BlocksSpaced(h, m[p], p);
    }
  }

  /** Putting a block at the front of a list and taking it off again at once: the only trace
      is the old head's `prev` word, which nothing reads. */
  lemma PutTakeRep(m: seq<nat>, heads: seq<nat>, h: Heap, p: nat, id: nat)
    requires WF(h, p) && Rep(m, heads, h) && p in h.blocks && id < 9 && h.blocks[p].home == NOWHERE
    ensures p + 1 < |m| && heads[id] + 1 < |m|
    ensures Rep(PutWords(m, heads[id], p), heads, h) && Undisturbed(m, PutWords(m, heads[id], p), h, p)
    ensures PutWords(m, heads[id], p)[p] == heads[id]
  {
    PutWordsFrame(m, heads, h, p, id);
    PutTakeLinks(m, heads, h, p, id);
  }

  lemma PutTakeLinks(m: seq<nat>, heads: seq<nat>, h: Heap, p: nat, id: nat)
    requires WF(h, p) && Linked(m, heads, h.lists) && p in h.blocks && id < 9 && h.blocks[p].home == NOWHERE
    requires p + 1 < |m| && heads[id] + 1 < |m|
    ensures Linked(PutWords(m, heads[id], p), heads, h.lists)
    ensures PutWords(m, heads[id], p)[p] == heads[id]
  {
    var m2 := PutWords(m, heads[id], p);
    HeadOf(m, heads, h, p, id);
    assert BlockOk(h, p);
    if heads[id] != 0 {
      BlocksSpaced(h, heads[id], p);
    }
    hide Listed, Chained, Apart, AreasOk;
    forall i | 0 <= i < 9 ensures Chain(m2, heads[i], h.lists[i]) {
      assert Chain(m, heads[i], h.lists[i]);
      ListSpaced(h, i);
      assert OffList(p, h.lists[i]);
      if i == id {
        HeadPrev(m, m2, heads[id], h.lists[id]);
      } else {
        assert heads[id] != 0 ==> OffList(heads[id], h.lists[i]);
        ChainFrame(m, m2, heads[i], h.lists[i]);
      }
    }
  }

  // The head's `prev` word does not matter.
  lemma HeadPrev(m: seq<nat>, m1: seq<nat>, head: nat, l: seq<nat>)
    requires Chain(m, head, l) && Spaced(l) && |m1| == |m|
    requires forall k :: 0 <= k < |l| && l[k] + 1 < |m| ==> m1[l[k]] == m[l[k]] && (k > 0 ==> m1[l[k] + 1] == m[l[k] + 1])
    ensures Chain(m1, head, l)
  {
    forall k | 0 <= k < |l| ensures LinkOk(m1, l, k) {
      assert LinkOk(m, l, k);
    }
  }
}

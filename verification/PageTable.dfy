/** Mapping and translating pages: `page_table` of kernel/src/arch/x86_64/table.cpp. */
module PageMapping {
  import opened Basics
  import opened Bitmaps
  import opened Frames
  import opened Masks
  import opened Paging
  import opened PageTrees

  /** The page number a virtual address names: its bits 12 to 47. */
  function PageNumber(virt: nat): nat {
    virt / PAGE_SIZE % PAGES
  }

  /** The four indexes of a walk are the digits of the page number. */
  lemma Indexes(virt: nat)
    ensures var page := PageNumber(virt);
            && page < PAGES
            && virt / 0x80_0000_0000 % 512 == page / 512 / 512 / 512
            && virt / 0x4000_0000 % 512 == page / 512 / 512 % 512
            && virt / 0x20_0000 % 512 == page / 512 % 512
            && virt / 0x1000 % 512 == page % 512
  {
    var n, page := virt / PAGE_SIZE, PageNumber(virt);
    assert n == PAGES * (n / PAGES) + page;
    assert virt / 0x20_0000 == n / 512 && virt / 0x4000_0000 == n / 512 / 512 && virt / 0x80_0000_0000 == n / 512 / 512 / 512;
    assert n / 512 == PAGES / 512 * (n / PAGES) + page / 512;
    assert n / 512 / 512 == PAGES / 512 / 512 * (n / PAGES) + page / 512 / 512;
    assert n / 512 / 512 / 512 == 512 * (n / PAGES) + page / 512 / 512 / 512;
  }

  /** The tables on the way to a page, each an entry of the one above. */
  lemma Steps(page: nat)
    requires page < PAGES
    ensures Child(ROOT, page / 512 / 512 / 512) == Key(3, page / 512 / 512 / 512)
    ensures Child(Key(3, page / 512 / 512 / 512), page / 512 / 512 % 512) == Key(2, page / 512 / 512)
    ensures Child(Key(2, page / 512 / 512), page / 512 % 512) == Key(1, page / 512)
    ensures page / 512 / 512 / 512 < 512
    ensures {Key(3, page / 512 / 512 / 512)} + {Key(2, page / 512 / 512)} + {Key(1, page / 512)} == Path(page)
  {}

  lemma OnPath(page: nat)
    ensures {Key(3, page / 512 / 512 / 512), Key(2, page / 512 / 512), Key(1, page / 512)} <= Path(page)
  {}

  // ----- ranges of pages -----

  /** Page `i` of a range, page numbers wrapping around like addresses do. */
  function Nth(page: nat, i: nat): nat {
    (page + i) % PAGES
  }

  /** The address `i` pages after `addr`, in 64 bits. */
  function PagesAfter(addr: nat, i: nat): (r: nat)
    ensures r < WORD_MODULUS
  {
    (addr + i * PAGE_SIZE) % WORD_MODULUS
  }

  lemma NthPage(virt: nat, i: nat)
    ensures PageNumber(PagesAfter(virt, i)) == Nth(PageNumber(virt), i)
  {
    var a := virt + i * PAGE_SIZE;
    var q := a / WORD_MODULUS;
    assert a == WORD_MODULUS * q + a % WORD_MODULUS;
    assert a / PAGE_SIZE == virt / PAGE_SIZE + i == WORD_MODULUS / PAGE_SIZE * q + a % WORD_MODULUS / PAGE_SIZE;
    assert WORD_MODULUS / PAGE_SIZE * q == PAGES * (0x1_0000 * q);
    SameResidue(a / PAGE_SIZE, a % WORD_MODULUS / PAGE_SIZE, 0x1_0000 * q);
    SameResidue(virt / PAGE_SIZE + i, PageNumber(virt) + i, virt / PAGE_SIZE / PAGES);
  }

  lemma SameResidue(a: nat, b: nat, q: nat)
    requires a == PAGES * q + b
    ensures a % PAGES == b % PAGES
  {
    assert a / PAGES == q + b / PAGES;
  }

  lemma NthDistinct(page: nat, i: nat, j: nat)
    requires i < j < i + PAGES
    ensures Nth(page, i) != Nth(page, j)
  {}

  /** How many tables the pages `i` to `n` of a range still lack, given those of `keys`. */
  ghost function Cost(keys: set<Key>, page: nat, i: nat, n: nat): nat
    decreases n - i
  {
    if i >= n then 0
    else Lacking(Path(Nth(page, i)), keys) + Cost(keys + Path(Nth(page, i)), page, i + 1, n)
  }

  /** How many frames mapping those pages takes: the missing tables, and with base 0 the pages too. */
  ghost function Needed(keys: set<Key>, page: nat, i: nat, n: nat, phys: nat): int {
    Cost(keys, page, i, n) + if phys == 0 then n - i else 0
  }

  lemma NeededStep(keys: set<Key>, free: set<nat>, page: nat, i: nat, n: nat, phys: nat)
    requires i < n
    ensures Needed(keys, page, i, n, phys)
         == Lacking(Path(Nth(page, i)), keys) + Needed(keys + Path(Nth(page, i)), page, i + 1, n, phys) + if phys == 0 then 1 else 0
    ensures 0 <= Needed(keys + Path(Nth(page, i)), page, i + 1, n, phys)
    ensures |free| > 0 ==> free != {}
  {}

  /** While what is needed is there, so is what the next page needs. */
  lemma NeededEnough(keys: set<Key>, free: set<nat>, page: nat, i: nat, n: nat, phys: nat)
    requires i < n && Needed(keys, page, i, n, phys) <= |free|
    ensures Lacking(Path(Nth(page, i)), keys) + (if phys == 0 then 1 else 0) <= |free|
    ensures phys == 0 ==> free != {}
  {
    NeededStep(keys, free, page, i, n, phys);
  }

  lemma NeededDone(keys: set<Key>, page: nat, n: nat, phys: nat)
    ensures Needed(keys, page, n, n, phys) == 0
  {}

  /**
    * The pages of a range from `page` on have been mapped to `targets`, one each, and no other page
    * is affected.
    */
  ghost predicate RangeMapped(ram: seq<nat>, at: Tables, free: set<nat>, ram': seq<nat>, at': Tables, free': set<nat>,
                              offset: nat, page: nat, flags: nat, targets: seq<nat>)
  {
    && Tree(ram, at, offset) && Tree(ram', at', offset)
    && (forall k <- at :: k in at' && at'[k] == at[k])
    && (forall k <- at' | k !in at :: at'[k] in free)
    && free' <= free
    && (forall i | 0 <= i < |targets| :: Look(ram', at', offset, Nth(page, i)) == Leaf(targets[i], flags, offset))
    && (forall u: nat | forall i | 0 <= i < |targets| :: u != Nth(page, i) :: Look(ram', at', offset, u) == Look(ram, at, offset, u))
    && OutsideKept(ram, ram', at')
  }

  /** The targets follow `phys` page by page. */
  ghost predicate Based(targets: seq<nat>, phys: nat) {
    forall i | 0 <= i < |targets| :: targets[i] == PagesAfter(phys, i)
  }

  lemma BasedStart(phys: nat)
    ensures Based([], phys)
  {}

  lemma BasedStep(targets: seq<nat>, phys: nat)
    requires Based(targets, phys)
    ensures Based(targets + [PagesAfter(phys, |targets|)], phys)
  {
    hide PagesAfter;
  }

  /** Each target is a frame of its own that was free, now is not, and holds no table. */
  ghost predicate FreshTargets(free: set<nat>, at': Tables, free': set<nat>, targets: seq<nat>) {
    && (forall i | 0 <= i < |targets| :: targets[i] % PAGE_SIZE == 0)
    && (forall i | 0 <= i < |targets| :: targets[i] / PAGE_SIZE in free && targets[i] / PAGE_SIZE !in free')
    && (forall i | 0 <= i < |targets| :: targets[i] / PAGE_SIZE !in at'.Values)
    && (forall i, j | 0 <= i < j < |targets| :: targets[i] != targets[j])
  }

  lemma RangeStart(ram: seq<nat>, at: Tables, free: set<nat>, offset: nat, page: nat, flags: nat)
    requires Tree(ram, at, offset)
    ensures RangeMapped(ram, at, free, ram, at, free, offset, page, flags, [])
  {}

  lemma RangeStep(ram: seq<nat>, at: Tables, free: set<nat>, ram1: seq<nat>, at1: Tables, free1: set<nat>, ram2: seq<nat>, at2: Tables, free2: set<nat>,
                  offset: nat, page: nat, flags: nat, targets: seq<nat>, taken: set<nat>, target: nat)
    requires RangeMapped(ram, at, free, ram1, at1, free1, offset, page, flags, targets) && |targets| < PAGES
    requires Mapped(ram1, at1, free1 - taken, ram2, at2, free2, offset, Nth(page, |targets|), Leaf(target, flags, offset))
    ensures RangeMapped(ram, at, free, ram2, at2, free2, offset, page, flags, targets + [target])
  {
    hide Tree, Look, Nth, Path, Leaf;
    RangeLooks(ram, at, free, ram1, at1, free1, ram2, at2, free2, offset, page, flags, targets, taken, target);
    RangeTables(ram, at, free, ram1, at1, free1, ram2, at2, free2, offset, page, flags, targets, taken, target);
  }

  lemma RangeLooks(ram: seq<nat>, at: Tables, free: set<nat>, ram1: seq<nat>, at1: Tables, free1: set<nat>, ram2: seq<nat>, at2: Tables, free2: set<nat>,
                   offset: nat, page: nat, flags: nat, targets: seq<nat>, taken: set<nat>, target: nat)
    requires RangeMapped(ram, at, free, ram1, at1, free1, offset, page, flags, targets) && |targets| < PAGES
    requires Mapped(ram1, at1, free1 - taken, ram2, at2, free2, offset, Nth(page, |targets|), Leaf(target, flags, offset))
    ensures var all := targets + [target];
            && (forall i | 0 <= i < |all| :: Look(ram2, at2, offset, Nth(page, i)) == Leaf(all[i], flags, offset))
            && (forall u: nat | forall i | 0 <= i < |all| :: u != Nth(page, i) :: Look(ram2, at2, offset, u) == Look(ram, at, offset, u))
  {
    hide Tree, Spare, Look, Nth, Path, Leaf, Grown, OutsideKept;
    var n, all := |targets|, targets + [target];
    forall i | 0 <= i < |all|
      ensures Look(ram2, at2, offset, Nth(page, i)) == Leaf(all[i], flags, offset)
    {
      if i < n {
        NthDistinct(page, i, n);
      }
    }
    forall u: nat | forall i | 0 <= i < |all| :: u != Nth(page, i)
      ensures Look(ram2, at2, offset, u) == Look(ram, at, offset, u)
    {
      assert u != Nth(page, n);
      assert forall i | 0 <= i < n :: u != Nth(page, i);
    }
  }

  lemma RangeTables(ram: seq<nat>, at: Tables, free: set<nat>, ram1: seq<nat>, at1: Tables, free1: set<nat>, ram2: seq<nat>, at2: Tables, free2: set<nat>,
                    offset: nat, page: nat, flags: nat, targets: seq<nat>, taken: set<nat>, target: nat)
    requires RangeMapped(ram, at, free, ram1, at1, free1, offset, page, flags, targets)
    requires Mapped(ram1, at1, free1 - taken, ram2, at2, free2, offset, Nth(page, |targets|), Leaf(target, flags, offset))
    ensures forall k <- at :: k in at2 && at2[k] == at[k]
    ensures forall k <- at2 | k !in at :: at2[k] in free
    ensures free2 <= free && OutsideKept(ram, ram2, at2)
  {
    hide Tree, Spare, Look, Nth, Path, Leaf;
    forall k <- at2 | k !in at
      ensures at2[k] in free
    {
      assert if k in at1 then at1[k] == at2[k] else at2[k] in free1;
    }
    forall w | 0 <= w < |ram| && w / 512 !in at2.Values
      ensures ram2[w] == ram[w]
    {
      assert w / 512 !in at1.Values;
    }
  }

  lemma FreshStart(free: set<nat>, at: Tables)
    ensures FreshTargets(free, at, free, [])
  {}

  lemma MappedGrown(ram: seq<nat>, at: Tables, free: set<nat>, ram': seq<nat>, at': Tables, free': set<nat>, offset: nat, page: nat, v: nat)
    requires Mapped(ram, at, free, ram', at', free', offset, page, v)
    ensures Grown(at, free, at', free', Path(page))
    ensures at'.Keys == at.Keys + Path(page) && |free'| == |free| - Lacking(Path(page), at.Keys)
  {
    hide Path, Tree, Spare, OutsideKept;
  }

  lemma RangeFree(ram: seq<nat>, at: Tables, free: set<nat>, ram': seq<nat>, at': Tables, free': set<nat>,
                  offset: nat, page: nat, flags: nat, targets: seq<nat>)
    requires RangeMapped(ram, at, free, ram', at', free', offset, page, flags, targets)
    ensures free' <= free
  {}

  lemma FreshStep(free: set<nat>, at1: Tables, free1: set<nat>, at2: Tables, free2: set<nat>, path: set<Key>, targets: seq<nat>, f: nat)
    requires FreshTargets(free, at1, free1, targets) && f in free1 && f !in at1.Values && free1 <= free
    requires Grown(at1, free1 - {f}, at2, free2, path)
    ensures FreshTargets(free, at2, free2, targets + [PAGE_SIZE * f])
  {
    hide Grown;
    var all := targets + [PAGE_SIZE * f];
    forall i | 0 <= i < |all|
      ensures all[i] % PAGE_SIZE == 0 && all[i] / PAGE_SIZE in free
      ensures all[i] / PAGE_SIZE !in free2 && all[i] / PAGE_SIZE !in at2.Values
    {
      assert if i < |targets| then all[i] == targets[i] else all[i] / PAGE_SIZE == f;
      NotTaken(at1, free1 - {f}, at2, free2, path, all[i] / PAGE_SIZE);
    }
    forall i, j | 0 <= i < j < |all|
      ensures all[i] != all[j]
    {
      assert all[i] == targets[i] && all[i] / PAGE_SIZE !in free1;
    }
  }

  /** Growing takes no frame that is neither free nor a table's. */
  lemma NotTaken(at: Tables, free: set<nat>, at': Tables, free': set<nat>, path: set<Key>, g: nat)
    requires Grown(at, free, at', free', path) && g !in free && g !in at.Values
    ensures g !in free' && g !in at'.Values
  {
    assert forall k <- at' :: if k in at then at'[k] == at[k] else at'[k] in free;
  }

  /** One more page with base 0: the frame `f` was taken for it, and then the tables it lacked. */
  lemma NthFresh(ram: seq<nat>, at: Tables, free: set<nat>, ram1: seq<nat>, at1: Tables, free1: set<nat>, ram2: seq<nat>, at2: Tables, free2: set<nat>,
                 offset: nat, page: nat, flags: nat, targets: seq<nat>, f: nat, count: nat)
    requires RangeMapped(ram, at, free, ram1, at1, free1, offset, page, flags, targets) && |targets| < count <= PAGES
    requires FreshTargets(free, at1, free1, targets) && f in free1 && f !in at1.Values && |free1 - {f}| == |free1| - 1
    requires Mapped(ram1, at1, free1 - {f}, ram2, at2, free2, offset, Nth(page, |targets|), Leaf(PAGE_SIZE * f, flags, offset))
    ensures RangeMapped(ram, at, free, ram2, at2, free2, offset, page, flags, targets + [PAGE_SIZE * f])
    ensures FreshTargets(free, at2, free2, targets + [PAGE_SIZE * f])
    ensures |free2| - Needed(at2.Keys, page, |targets| + 1, count, 0) == |free1| - Needed(at1.Keys, page, |targets|, count, 0)
  {
    hide Lacking, RangeMapped, Mapped, FreshTargets, Needed, Grown, Nth, Path, Leaf;
    var nth, frame := Nth(page, |targets|), PAGE_SIZE * f;
    NeededStep(at1.Keys, free1, page, |targets|, count, 0);
    MappedGrown(ram1, at1, free1 - {f}, ram2, at2, free2, offset, nth, Leaf(frame, flags, offset));
    RangeStep(ram, at, free, ram1, at1, free1, ram2, at2, free2, offset, page, flags, targets, {f}, frame);
    RangeFree(ram, at, free, ram1, at1, free1, offset, page, flags, targets);
    FreshStep(free, at1, free1, at2, free2, Path(nth), targets, f);
  }

  /** One more page of a range with base `phys`. */
  lemma NthBased(ram: seq<nat>, at: Tables, free: set<nat>, ram1: seq<nat>, at1: Tables, free1: set<nat>, ram2: seq<nat>, at2: Tables, free2: set<nat>,
                 offset: nat, page: nat, flags: nat, targets: seq<nat>, phys: nat, count: nat)
    requires RangeMapped(ram, at, free, ram1, at1, free1, offset, page, flags, targets) && |targets| < count <= PAGES
    requires Based(targets, phys) && phys != 0
    requires Mapped(ram1, at1, free1, ram2, at2, free2, offset, Nth(page, |targets|), Leaf(PagesAfter(phys, |targets|), flags, offset))
    ensures RangeMapped(ram, at, free, ram2, at2, free2, offset, page, flags, targets + [PagesAfter(phys, |targets|)])
    ensures Based(targets + [PagesAfter(phys, |targets|)], phys)
    ensures |free2| - Needed(at2.Keys, page, |targets| + 1, count, phys) == |free1| - Needed(at1.Keys, page, |targets|, count, phys)
  {
    hide Lacking, RangeMapped, Mapped, Based, Needed, Grown, Nth, Path, Leaf, PagesAfter;
    var nth, target := Nth(page, |targets|), PagesAfter(phys, |targets|);
    NeededStep(at1.Keys, free1, page, |targets|, count, phys);
    MappedGrown(ram1, at1, free1, ram2, at2, free2, offset, nth, Leaf(target, flags, offset));
    assert free1 - {} == free1;
    RangeStep(ram, at, free, ram1, at1, free1, ram2, at2, free2, offset, page, flags, targets, {}, target);
    BasedStep(targets, phys);
  }

  // ----- what the mapped entries translate to -----

  /** Three tables a page are always enough. */
  lemma {:induction false} CostBound(keys: set<Key>, page: nat, i: nat, n: nat)
    requires i <= n
    ensures Cost(keys, page, i, n) <= 3 * (n - i)
    decreases n - i
  {
    if i < n {
      CostBound(keys + Path(Nth(page, i)), page, i + 1, n);
      PathSize(keys, Nth(page, i));
    }
  }

  lemma PathSize(keys: set<Key>, page: nat)
    ensures Lacking(Path(page), keys) <= 3
  {
    var p := Path(page);
    assert p - keys <= p;
    SubsetSize(p - keys, p);
  }

  lemma {:induction false} SubsetSize<T>(a: set<T>, b: set<T>)
    requires a <= b
    ensures |a| <= |b|
  {
    if a != {} {
      var x :| x in a;
      SubsetSize(a - {x}, b - {x});
    }
  }

  /**
    * Mapping a page makes it translate to the page of `phys` and leaves the translation of every
    * other page alone; at most three frames are used up, and no two tables share a frame.
    */
  lemma MapTranslates(ram: seq<nat>, at: Tables, free: set<nat>, ram': seq<nat>, at': Tables, free': set<nat>,
                      offset: nat, page: nat, phys: nat, flags: nat)
    requires NO_EXECUTE <= offset < WORD_MODULUS && phys < WORD_MODULUS
    requires Mapped(ram, at, free, ram', at', free', offset, page, Leaf(phys, flags, offset))
    ensures PageOf(Look(ram', at', offset, page), offset) == PageOf(phys, offset)
    ensures forall u: nat | u != page :: PageOf(Look(ram', at', offset, u), offset) == PageOf(Look(ram, at, offset, u), offset)
    ensures Key(1, page / 512) in at' && |free'| >= |free| - 3
    ensures forall j <- at', k <- at' :: j != k ==> at'[j] != at'[k]
  {
    hide PageOf, Leaf, Look, EntryOk, Usable, Spare;
    LeafReads(phys, flags, offset);
    PathSize(at.Keys, page);
    assert Key(1, page / 512) in Path(page);
  }

  // ----- runs of map

  /** Memory, tables and free frames between two calls. */
  datatype Image = Image(ram: seq<nat>, at: Tables, free: set<nat>)

  datatype Mapping = Mapping(page: nat, phys: nat, flags: nat)

  ghost predicate MapStep(offset: nat, s: Image, m: Mapping, t: Image) {
    m.phys < WORD_MODULUS && Mapped(s.ram, s.at, s.free, t.ram, t.at, t.free, offset, m.page, Leaf(m.phys, m.flags, offset))
  }

  ghost predicate MapTrace(offset: nat, ss: seq<Image>, ms: seq<Mapping>) {
    |ss| == |ms| + 1 && Tree(ss[0].ram, ss[0].at, offset) && forall i | 0 <= i < |ms| :: MapStep(offset, ss[i], ms[i], ss[i + 1])
  }

  /** A plain map from pages to physical pages, after the mappings `ms`: the last one counts. */
  function Expected(ms: seq<Mapping>, offset: nat, page: nat, before: nat): nat
    decreases |ms|
  {
    if ms == [] then before
    else
      var last := ms[|ms| - 1];
      if last.page == page then PageOf(last.phys, offset) else Expected(ms[..|ms| - 1], offset, page, before)
  }

  lemma StepTranslates(offset: nat, s: Image, m: Mapping, t: Image, page: nat)
    requires NO_EXECUTE <= offset < WORD_MODULUS && MapStep(offset, s, m, t) && Tree(s.ram, s.at, offset)
    ensures Tree(t.ram, t.at, offset) && Spare(t.free, t.at, |t.ram|, offset) && |t.ram| == |s.ram|
    ensures forall k <- s.at :: k in t.at && t.at[k] == s.at[k]
    ensures Key(1, page / 512) in t.at <==> Key(1, page / 512) in s.at || m.page / 512 == page / 512
    ensures PageOf(Look(t.ram, t.at, offset, page), offset)
         == if m.page == page then PageOf(m.phys, offset) else PageOf(Look(s.ram, s.at, offset, page), offset)
  {
    hide Tree, Spare, Look, PageOf, Leaf;
    MapTranslates(s.ram, s.at, s.free, t.ram, t.at, t.free, offset, m.page, m.phys, m.flags);
  }

  lemma {:induction false} RunLooks(offset: nat, ss: seq<Image>, ms: seq<Mapping>, page: nat)
    requires NO_EXECUTE <= offset < WORD_MODULUS && MapTrace(offset, ss, ms)
    requires Spare(ss[0].free, ss[0].at, |ss[0].ram|, offset)
    ensures var s, t := ss[0], ss[|ms|];
            && Tree(t.ram, t.at, offset) && Spare(t.free, t.at, |t.ram|, offset) && |t.ram| == |s.ram|
            && (forall k <- s.at :: k in t.at && t.at[k] == s.at[k])
            && (Key(1, page / 512) in t.at <==> Key(1, page / 512) in s.at || exists m <- ms :: m.page / 512 == page / 512)
            && PageOf(Look(t.ram, t.at, offset, page), offset)
               == Expected(ms, offset, page, PageOf(Look(s.ram, s.at, offset, page), offset))
    decreases |ms|
  {
    hide Tree, Spare, Look, PageOf, MapStep;
    if ms != [] {
      var n := |ms| - 1;
      var before, run := ss[..n + 1], ms[..n];
      forall i | 0 <= i < n
        ensures MapStep(offset, before[i], run[i], before[i + 1])
      {
        assert MapStep(offset, ss[i], ms[i], ss[i + 1]);
      }
      RunLooks(offset, before, run, page);
      assert MapStep(offset, ss[n], ms[n], ss[n + 1]);
      StepTranslates(offset, before[n], ms[n], ss[n + 1], page);
      assert ms == run + [ms[n]];
    }
  }

  /**
    * Over every run of `map` the four-level tables stay a tree, a frame that holds a table never
    * holds another or becomes free, and the pages with a last-level table are those that had one
    * and the neighbours of the pages mapped.  Those pages translate like a plain map from pages to
    * physical pages, in which a page whose table is new starts at 0.
    */
  lemma RunTranslates(offset: nat, ss: seq<Image>, ms: seq<Mapping>, page: nat)
    requires NO_EXECUTE <= offset < WORD_MODULUS && MapTrace(offset, ss, ms)
    requires Spare(ss[0].free, ss[0].at, |ss[0].ram|, offset)
    ensures var s, t, k := ss[0], ss[|ms|], Key(1, page / 512);
            && Tree(t.ram, t.at, offset) && Spare(t.free, t.at, |t.ram|, offset) && |t.ram| == |s.ram|
            && (forall k <- s.at :: k in t.at && t.at[k] == s.at[k])
            && (k in t.at <==> k in s.at || exists m <- ms :: m.page / 512 == page / 512)
            && (k in t.at ==>
                  PageOf(Look(t.ram, t.at, offset, page), offset)
                  == Expected(ms, offset, page, if k in s.at then PageOf(Look(s.ram, s.at, offset, page), offset) else 0))
  {
    hide Tree, Spare, MapTrace, PageOf, Expected;
    RunLooks(offset, ss, ms, page);
    NoPage(offset);
  }

  lemma NoPage(offset: nat)
    ensures PageOf(0, offset) == 0
  {
  }

  lemma PlainPage(f: nat, offset: nat, low: nat)
    requires Apart(f, offset) && low < PAGE_SIZE
    ensures PageOf(PAGE_SIZE * f + low, offset) == PAGE_SIZE * f
  {
    EntryReads(f, low, offset);
  }

  /** A range with a base translates page by page, as far as the addresses stay clear of the offset. */
  lemma BasedTranslates(ram: seq<nat>, at: Tables, free: set<nat>, ram': seq<nat>, at': Tables, free': set<nat>,
                        offset: nat, page: nat, flags: nat, targets: seq<nat>, phys: nat, i: nat)
    requires RangeMapped(ram, at, free, ram', at', free', offset, page, flags, targets) && Based(targets, phys)
    requires i < |targets| && NO_EXECUTE <= offset < WORD_MODULUS
    requires phys + i * PAGE_SIZE < WORD_MODULUS && Apart(phys / PAGE_SIZE + i, offset)
    ensures PageOf(Look(ram', at', offset, Nth(page, i)), offset) == PAGE_SIZE * (phys / PAGE_SIZE + i)
  {
    hide PageOf, Leaf, Look, Tree, Nth;
    var target := phys + i * PAGE_SIZE;
    assert targets[i] == target == PAGE_SIZE * (phys / PAGE_SIZE + i) + phys % PAGE_SIZE;
    LeafReads(target, flags, offset);
    PlainPage(phys / PAGE_SIZE + i, offset, phys % PAGE_SIZE);
  }

  /**
    * A range with base 0 translates to frames that were free, pairwise different, none of them a
    * table's.
    */
  lemma FreshTranslates(ram: seq<nat>, at: Tables, free: set<nat>, ram': seq<nat>, at': Tables, free': set<nat>,
                        offset: nat, page: nat, flags: nat, targets: seq<nat>)
    requires RangeMapped(ram, at, free, ram', at', free', offset, page, flags, targets)
    requires FreshTargets(free, at', free', targets) && Spare(free, at, |ram|, offset)
    requires NO_EXECUTE <= offset < WORD_MODULUS
    ensures forall i | 0 <= i < |targets| ::
              var t := PageOf(Look(ram', at', offset, Nth(page, i)), offset);
              t == targets[i] && t != 0 && t / PAGE_SIZE in free && t / PAGE_SIZE !in at'.Values
    ensures forall i, j | 0 <= i < j < |targets| ::
              PageOf(Look(ram', at', offset, Nth(page, i)), offset) != PageOf(Look(ram', at', offset, Nth(page, j)), offset)
  {
    hide PageOf, Leaf, Look, Tree, Nth;
    forall i | 0 <= i < |targets|
      ensures PageOf(Look(ram', at', offset, Nth(page, i)), offset) == targets[i] != 0
    {
      var f := targets[i] / PAGE_SIZE;
      assert Usable(f, |ram|, offset) && targets[i] == PAGE_SIZE * f;
      LeafReads(targets[i], flags, offset);
      PlainPage(f, offset, 0);
    }
  }

  class PageTable {
    /** Physical memory in 8-byte words, addressed through the higher-half window. */
    const ram: array<nat>
    const frames: FrameAllocator
    /** `hhdm::physical_memory_offset`. */
    const offset: nat
    const physAddr: nat
    ghost var at: Tables

    ghost function Spares(): set<nat>
      requires frames.Valid()
      reads frames.bitmap.data
    {
      Free(frames.Contents(), frames.bitmap.size)
    }

    ghost predicate Valid()
      reads this, ram, frames.bitmap.data
    {
      && NO_EXECUTE <= offset < WORD_MODULUS
      && frames.Valid() && (ram as object) != frames.bitmap.data
      && Tree(ram[..], at, offset)
      && physAddr == PAGE_SIZE * at[ROOT]
      && Spare(Spares(), at, ram.Length, offset)
    }

    ghost function Entry(page: nat): nat
      requires Valid()
      reads this, ram, frames.bitmap.data
    {
      Look(ram[..], at, offset, page)
    }

    /** A view of the tree `at` that starts at `physAddr`. */
    constructor (ram: array<nat>, frames: FrameAllocator, offset: nat, physAddr: nat, ghost at: Tables)
      requires NO_EXECUTE <= offset < WORD_MODULUS && frames.Valid() && (ram as object) != frames.bitmap.data
      requires Tree(ram[..], at, offset) && physAddr == PAGE_SIZE * at[ROOT]
      requires Spare(Free(frames.Contents(), frames.bitmap.size), at, ram.Length, offset)
      ensures Valid() && this.at == at && this.ram == ram && this.frames == frames && this.offset == offset
    {
      this.ram, this.frames, this.offset, this.physAddr, this.at := ram, frames, offset, physAddr, at;
    }

    /** `page_table_clear`. */
    method ClearTable(table: nat)
      requires table % PAGE_SIZE == 0 && table / 8 + 512 <= ram.Length
      modifies ram
      ensures forall x | 0 <= x < ram.Length :: ram[x] == if x / 512 == table / PAGE_SIZE then 0 else old(ram[x])
    {
      for n := 0 to 512
        invariant forall x | 0 <= x < ram.Length ::
                    ram[x] == if table / 8 <= x < table / 8 + n then 0 else old(ram[x])
      {
        ram[table / 8 + n] := 0;
      }
    }

    /** What the walk needs whether or not there is a tree. */
    ghost predicate Wired()
      reads this, frames.bitmap.data
    {
      && NO_EXECUTE <= offset < WORD_MODULUS && 512 <= ram.Length
      && frames.Valid() && (ram as object) != frames.bitmap.data
      && forall f <- Spares() :: Usable(f, ram.Length, offset)
    }

    /** There is a tree below the root table. */
    ghost predicate Standing()
      reads this, ram
    {
      HasTree(ram[..], physAddr / PAGE_SIZE, offset)
    }

    /** The walk is in frame 0: frames ran out, and an entry of the tree now names that frame. */
    ghost predicate Lost()
      reads this, ram, frames.bitmap.data
    {
      Wired() && Spares() == {} && !Standing() && forall x | 0 <= x < 512 :: ram[x] == 0
    }

    ghost predicate AtEntry(entry: nat, k: Key, i: nat)
      reads this, ram, frames.bitmap.data
    {
      Valid() && k in at && 1 < k.level && i < 512 && entry == 512 * at[k] + i
    }

    lemma ValidWired()
      requires Valid()
      ensures Wired() && Standing() && ROOT in at
    {
      hide Free, Bits, EntryOk, Apart;
      assert Usable(at[ROOT], ram.Length, offset);
      TreeStands(ram[..], at, offset);
    }

    /** `frame::alloc_frames(1)`. */
    method NewFrame() returns (frame: nat, ghost f: nat)
      requires Wired()
      modifies frames.bitmap.data
      ensures ram[..] == old(ram[..]) && frames.Valid() && frame < WORD_MODULUS && frame == PAGE_SIZE * f
      ensures if old(Spares()) == {} then f == 0 && Spares() == {}
              else f in old(Spares()) && Spares() == old(Spares()) - {f} && |Spares()| == old(|Spares()|) - 1
      ensures old(Valid()) ==> Valid() && (old(Spares()) != {} ==> f !in at.Values)
    {
      hide Free, Bits, Tree, FirstFree, Painted;
      TakeFrame(frames.Contents(), frames.bitmap.size);
      f := FirstFree(frames.Contents(), 0, Limit(frames.bitmap.size));
      if Spares() == {} {
        f := 0;
      }
      frame := frames.AllocFrames(1);
    }

    /** `page_table_create` on the entry at word `entry`. While the walk is in the tree, that is entry
      * `i` of table `k`: it has a table below it afterwards, provided it had one or a frame is free.
      * Otherwise the walk goes on in frame 0, the answer of a failed `alloc_frames`, and no tree is
      * left below the root.
      */
    method Create(entry: nat, ghost k: Key, ghost i: nat) returns (table: nat)
      requires 1 < k.level && (AtEntry(entry, k, i) || (Lost() && entry < 512))
      modifies `at, ram, frames.bitmap.data
      ensures if old(AtEntry(entry, k, i) && (Child(k, i) in at || Spares() != {})) then
                && Valid() && Child(k, i) in at && table == PAGE_SIZE * at[Child(k, i)]
                && Widened(old(ram[..]), old(at), old(Spares()), ram[..], at, Spares(), offset, {Child(k, i)})
              else table == 0 && Lost()
    {
      hide And, Or, Clear, Free, Bits, Apart, Tree, Spare, Widened, Created, PageOf, Child;
      ghost var was, spares, c, inTree := ram[..], Spares(), Child(k, i), AtEntry(entry, k, i);
      if inTree {
        ValidWired();
        EntryAt(was, at, offset, k, i);
      }
      if ram[entry] == 0 {
        var frame, f := NewFrame();
        if inTree && spares != {} {
          NewTable(was, at, spares, offset, k, i, f);
        }
        NullApart(offset);
        TableEntry(f);
        EntryReads(f, 7, offset);
        ram[entry] := Or(Or(Or(frame, PRESENT), READ_WRITE), USER);
        table := PageOf(ram[entry], offset);
        ClearTable(table);
        if spares == {} {
          OutOfFrames(was, at, offset, physAddr / PAGE_SIZE, k, i, entry, inTree, ram[..]);
        } else {
          at := at[c := f];
          IsCreated(was, ram[..], entry, f);
          WidenedFacts(was, old(at), spares, ram[..], at, Spares(), offset, {c});
        }
      } else {
        ghost var f := at[c];
        EntryReads(f, ram[entry] % 4096, offset);
        table := PageOf(ram[entry], offset);
        WidenedNot(was, at, spares, offset, c);
        WidenedFacts(was, at, spares, was, at, spares, offset, {c});
      }
    }

    /** The flags of an entry, collected one by one. */
    method EntryFlags(flags: nat) returns (archFlags: nat)
      ensures archFlags == ArchFlags(flags)
    {
      hide And, Or;
      archFlags := 0;
      if And(flags, PRESENT) != 0 {
        archFlags := Or(archFlags, PRESENT);
      }
      if And(flags, READ_WRITE) != 0 {
        archFlags := Or(archFlags, READ_WRITE);
      }
      if And(flags, USER) != 0 {
        archFlags := Or(archFlags, USER);
      }
      if And(flags, EXECUTABLE) == 0 {
        archFlags := Or(archFlags, NO_EXECUTE);
      }
    }

    /** The walk to `page` has made sure of the tables of `path` and arrived at table `k`, or is in
      * frame 0 because the free frames were too few.
      */
    ghost predicate Walked(was: seq<nat>, at0: Tables, free0: set<nat>, page: nat, path: set<Key>, k: Key, table: nat)
      reads this, ram, frames.bitmap.data
    {
      if Valid() then
        && k in at && table == PAGE_SIZE * at[k]
        && Widened(was, at0, free0, ram[..], at, Spares(), offset, path)
        && Lacking(Path(page), at.Keys) - |Spares()| == Lacking(Path(page), at0.Keys) - |free0|
      else Lost() && table == 0 && Lacking(Path(page), at0.Keys) > |free0|
    }

    lemma NotBoth()
      requires Lost()
      ensures !Valid()
    {
      hide Free, Bits, Tree, Spare, Wired, HasTree;
      if Valid() {
        ValidWired();
      }
    }

    /** One step of the walk to `page`. */
    method Enter(table: nat, index: nat, ghost k: Key, ghost page: nat,
                 ghost was: seq<nat>, ghost at0: Tables, ghost free0: set<nat>, ghost path: set<Key>) returns (next: nat)
      requires Walked(was, at0, free0, page, path, k, table) && index < 512 && 1 < k.level && Child(k, index) in Path(page)
      modifies `at, ram, frames.bitmap.data
      ensures Walked(was, at0, free0, page, path + {Child(k, index)}, Child(k, index), next)
    {
      hide Lacking, Free, Bits, Tree, Spare, Widened, Path, Child, Standing;
      ghost var ram1, at1, free1, inTree := ram[..], at, Spares(), Valid();
      next := Create(table / 8 + index, k, index);
      if inTree && (Child(k, index) in at1 || free1 != {}) {
        WidenedGrown(ram1, at1, free1, ram[..], at, Spares(), offset, Child(k, index), Path(page));
        WidenedTwice(was, at0, free0, ram1, at1, free1, ram[..], at, Spares(), offset, path, {Child(k, index)});
      } else {
        NotBoth();
        if inTree && Lacking(Path(page), at1.Keys) <= |free1| {
          HasSpare(at1, free1, Child(k, index), Path(page));
        }
      }
    }

    /** The tables stay a tree, with the page mapped, exactly if as many frames are free as the path
      * lacks tables.
      */
    method Map(virt: nat, phys: nat, flags: nat)
      requires Valid() && virt < WORD_MODULUS && phys < WORD_MODULUS
      modifies `at, ram, frames.bitmap.data
      ensures old(Lacking(Path(PageNumber(virt)), at.Keys) <= |Spares()|) ==>
                Valid() && Mapped(old(ram[..]), old(at), old(Spares()), ram[..], at, Spares(), offset,
                                  PageNumber(virt), Leaf(phys, flags, offset))
      ensures old(Lacking(Path(PageNumber(virt)), at.Keys) <= |Spares()|) <==> Standing()
    {
      hide Lacking, Free, Bits, Tree, Spare, Widened, Mapped, And, Or, Clear, PageOf, Child, Path, PageNumber, HasTree;
      ghost var was, at0, free0, page := ram[..], at, Spares(), PageNumber(virt);
      ghost var k3, k2, k1 := Key(3, page / 512 / 512 / 512), Key(2, page / 512 / 512), Key(1, page / 512);
      Indexes(virt);
      Steps(page);
      OnPath(page);
      TreeRoot(was, at, offset);
      WidenedStart(was, at, free0, offset);
      var l4Index := virt / 0x80_0000_0000 % 512;
      var l3Index := virt / 0x4000_0000 % 512;
      var l2Index := virt / 0x20_0000 % 512;
      var l1Index := virt / 0x1000 % 512;
      var l3Table := Enter(physAddr, l4Index, ROOT, page, was, at0, free0, {});
      var l2Table := Enter(l3Table, l3Index, k3, page, was, at0, free0, {} + {k3});
      var l1Table := Enter(l2Table, l2Index, k2, page, was, at0, free0, {} + {k3} + {k2});
      assert {} + {k3} + {k2} + {k1} == Path(page);
      ghost var ram1, inTree := ram[..], Valid();
      if inTree {
        MappedIf(was, at0, free0, ram1, at, Spares(), offset, page, Leaf(phys, flags, offset));
        WidenedAll(was, at0, free0, ram1, at, Spares(), offset, Path(page));
      }
      var archFlags := EntryFlags(flags);
      ram[l1Table / 8 + l1Index] := Or(PageOf(phys, offset), archFlags);
      if inTree {
        MappedFacts(was, at0, free0, ram[..], at, Spares(), offset, page, Leaf(phys, flags, offset));
        ValidWired();
      } else {
        FrameZero(ram1, ram[..], physAddr / PAGE_SIZE, offset);
      }
    }

    /** What `MapRange` has done once the pages up to `|targets|` are mapped. */
    ghost predicate Progress(was: seq<nat>, at0: Tables, free0: set<nat>, page: nat, phys: nat, count: nat, flags: nat, targets: seq<nat>)
      reads this, ram, frames.bitmap.data
    {
      && Valid()
      && RangeMapped(was, at0, free0, ram[..], at, Spares(), offset, page, flags, targets)
      && (phys != 0 ==> Based(targets, phys))
      && (phys == 0 ==> FreshTargets(free0, at, Spares(), targets))
      && |Spares()| - Needed(at.Keys, page, |targets|, count, phys) == |free0| - Needed(at0.Keys, page, 0, count, phys)
    }

    /** The body of the loop of `map_range`. */
    method MapNth(virt: nat, phys: nat, i: nat, ghost count: nat, flags: nat,
                  ghost was: seq<nat>, ghost at0: Tables, ghost free0: set<nat>, ghost targets: seq<nat>)
      returns (ghost target: nat)
      requires Progress(was, at0, free0, PageNumber(virt), phys, count, flags, targets)
      requires |targets| == i < count <= PAGES && Needed(at0.Keys, PageNumber(virt), 0, count, phys) <= |free0|
      modifies `at, ram, frames.bitmap.data
      ensures Progress(was, at0, free0, PageNumber(virt), phys, count, flags, targets + [target])
    {
      hide Lacking, Needed, Free, Bits, Tree, Spare, Mapped, RangeMapped, FreshTargets, Based, Leaf, PageNumber, Nth,
           Path, PagesAfter;
      ghost var ram1, at1, free1, page := ram[..], at, Spares(), PageNumber(virt);
      NthPage(virt, i);
      NeededEnough(at.Keys, free1, page, i, count, phys);
      ValidWired();
      if phys == 0 {
        var frame, f := NewFrame();
        target := frame;
        Map(PagesAfter(virt, i), frame, flags);
        NthFresh(was, at0, free0, ram1, at1, free1, ram[..], at, Spares(), offset, page, flags, targets, f, count);
      } else {
        target := PagesAfter(phys, i);
        Map(PagesAfter(virt, i), PagesAfter(phys, i), flags);
        NthBased(was, at0, free0, ram1, at1, free1, ram[..], at, Spares(), offset, page, flags, targets, phys, count);
      }
    }

    /**
      * With a base, page `i` is mapped `i` pages after it; with base 0 each page gets a frame of its
      * own. `targets` lists what the pages were mapped to.
      */
    method MapRange(virt: nat, phys: nat, count: nat, flags: nat) returns (ghost targets: seq<nat>)
      requires Valid() && virt < WORD_MODULUS && phys < WORD_MODULUS && count <= PAGES
      requires Needed(at.Keys, PageNumber(virt), 0, count, phys) <= |Spares()|
      modifies `at, ram, frames.bitmap.data
      ensures Valid() && |targets| == count
      ensures RangeMapped(old(ram[..]), old(at), old(Spares()), ram[..], at, Spares(), offset, PageNumber(virt), flags, targets)
      ensures phys != 0 ==> Based(targets, phys)
      ensures phys == 0 ==> FreshTargets(old(Spares()), at, Spares(), targets)
      ensures |Spares()| == old(|Spares()|) - old(Needed(at.Keys, PageNumber(virt), 0, count, phys))
    {
      hide Needed, Free, Bits, Tree, Spare, RangeMapped, FreshTargets, Based, PageNumber;
      ghost var was, at0, free0, page := ram[..], at, Spares(), PageNumber(virt);
      targets := [];
      RangeStart(was, at0, free0, offset, page, flags);
      FreshStart(free0, at0);
      BasedStart(phys);
      for i := 0 to count
        invariant |targets| == i && Progress(was, at0, free0, page, phys, count, flags, targets)
      {
        ghost var target := MapNth(virt, phys, i, count, flags, was, at0, free0, targets);
        targets := targets + [target];
      }
      NeededDone(at.Keys, page, count, phys);
    }

    method TranslateAddr(virt: nat) returns (phys: nat)
      requires Valid() && virt < WORD_MODULUS && Key(1, PageNumber(virt) / 512) in at
      ensures phys == PageOf(Entry(PageNumber(virt)), offset)
    {
      hide Free, Bits, Tree, Spare, Usable, Look, And, Or, Clear, PageOf, PageNumber;
      ghost var page := PageNumber(virt);
      Indexes(virt);
      Steps(page);
      Above(ram[..], at, offset, page);
      var l4Index := virt / 0x80_0000_0000 % 512;
      var l3Index := virt / 0x4000_0000 % 512;
      var l2Index := virt / 0x20_0000 % 512;
      var l1Index := virt / 0x1000 % 512;
      ghost var k3, k2, k1 := Key(3, page / 512 / 512 / 512), Key(2, page / 512 / 512), Key(1, page / 512);
      Down(ram[..], at, offset, ROOT, l4Index, physAddr);
      var l3Table := And(ram[physAddr / 8 + l4Index], TABLE_MASK);
      Down(ram[..], at, offset, k3, l3Index, l3Table);
      var l2Table := And(ram[l3Table / 8 + l3Index], TABLE_MASK);
      Down(ram[..], at, offset, k2, l2Index, l2Table);
      var l1Table := And(ram[l2Table / 8 + l2Index], TABLE_MASK);
      LookIs(ram[..], at, offset, page, l1Table / 8 + l1Index);
      return PageOf(ram[l1Table / 8 + l1Index], offset);
    }
  }
}

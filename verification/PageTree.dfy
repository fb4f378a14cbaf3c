/** The tree a page table keeps in memory: which frame holds which table, and what a page maps to. */
module PageTrees {
  import opened Basics
  import opened Masks
  import opened Bitmaps
  import opened Paging
  import opened Frames

  /**
    * A table of level 1 to 4 by the pages it serves: those whose number, divided by 512 once per
    * level, is `prefix`.
    */
  datatype Key = Key(level: nat, prefix: nat)

  const ROOT := Key(4, 0)

  type Tables = map<Key, nat>

  function Child(k: Key, i: nat): Key
    requires k.level > 0
  {
    Key(k.level - 1, 512 * k.prefix + i)
  }

  function Parent(k: Key): Key {
    Key(k.level + 1, k.prefix / 512)
  }

  /** The tables below the root on the way to `page`. */
  function Path(page: nat): set<Key> {
    {Key(1, page / 512), Key(2, page / 512 / 512), Key(3, page / 512 / 512 / 512)}
  }

  /** A frame that exists, is not frame 0, and is named by the bits the walk keeps. */
  ghost predicate Usable(f: nat, words: nat, offset: nat) {
    0 < f < PAGES && 512 * f + 512 <= words && Apart(f, offset)
  }

  /** Entry `i` of an upper table: zero when the table below does not exist, its frame otherwise. */
  ghost predicate EntryOk(ram: seq<nat>, at: Tables, k: Key, i: nat)
    requires k in at && k.level > 0 && 512 * at[k] + i < |ram|
  {
    var e := ram[512 * at[k] + i];
    if Child(k, i) in at then e != 0 && e / 4096 == at[Child(k, i)] else e == 0
  }

  ghost predicate Placed(at: Tables, words: nat, offset: nat) {
    && ROOT in at
    && (forall k <- at :: 1 <= k.level <= 4 && Usable(at[k], words, offset))
    && (forall k <- at :: if k.level == 4 then k == ROOT else Parent(k) in at)
    && (forall j <- at, k <- at :: at[j] == at[k] ==> j == k)
  }

  ghost predicate Tree(ram: seq<nat>, at: Tables, offset: nat) {
    && Placed(at, |ram|, offset)
    && (forall k <- at, i | 1 < k.level && 0 <= i < 512 :: EntryOk(ram, at, k, i))
  }

  /** The entry in force for `page`; 0 where there is no last-level table. */
  ghost function Look(ram: seq<nat>, at: Tables, offset: nat, page: nat): nat
    requires Tree(ram, at, offset)
  {
    var k := Key(1, page / 512);
    if k in at then ram[512 * at[k] + page % 512] else 0
  }

  lemma LookIs(ram: seq<nat>, at: Tables, offset: nat, page: nat, w: nat)
    requires Tree(ram, at, offset) && Key(1, page / 512) in at && w == 512 * at[Key(1, page / 512)] + page % 512
    ensures w < |ram| && Look(ram, at, offset, page) == ram[w]
  {
    assert Usable(at[Key(1, page / 512)], |ram|, offset);
  }

  /** A cleared level-4 table alone is a tree in which no page has an entry. */
  lemma EmptyTree(ram: seq<nat>, offset: nat, f: nat)
    requires Usable(f, |ram|, offset) && forall w | 512 * f <= w < 512 * f + 512 :: ram[w] == 0
    ensures Tree(ram, map[ROOT := f], offset)
    ensures forall page: nat :: Look(ram, map[ROOT := f], offset, page) == 0
  {
    hide Apart;
    var at: Tables := map[ROOT := f];
    forall k <- at, i | 1 < k.level && 0 <= i < 512
      ensures EntryOk(ram, at, k, i)
    {
      assert k == ROOT && Child(k, i) !in at;
    }
  }

  /** The words of frames that hold no table of `at` are the same. */
  ghost predicate OutsideKept(before: seq<nat>, after: seq<nat>, at: Tables) {
    |before| == |after| && forall w | 0 <= w < |before| && w / 512 !in at.Values :: after[w] == before[w]
  }

  /** How many tables of `path` are not among `keys`. */
  ghost function Lacking(path: set<Key>, keys: set<Key>): nat {
    |path - keys|
  }

  /** The tables have grown by `path`, into frames that were free and now are not. */
  ghost predicate Grown(at: Tables, free: set<nat>, at': Tables, free': set<nat>, path: set<Key>) {
    && (forall k :: k in at' <==> k in at || k in path)
    && (forall k <- at :: at'[k] == at[k])
    && (forall k <- at' | k !in at :: at'[k] in free)
    && (forall f :: f in free' <==> f in free && forall k <- at' | k !in at :: at'[k] != f)
    && |free'| == |free| - Lacking(path, at.Keys)
  }

  lemma GrownNot(at: Tables, free: set<nat>, k: Key)
    requires k in at
    ensures Grown(at, free, at, free, {k})
  {
    assert {k} - at.Keys == {};
  }

  lemma GrownOne(at: Tables, free: set<nat>, k: Key, f: nat)
    requires k !in at && f in free
    ensures Grown(at, free, at[k := f], free - {f}, {k})
  {
    assert {k} - at.Keys == {k};
  }

  lemma CountTwice(a: set<Key>, p: set<Key>, q: set<Key>)
    ensures Lacking(p + q, a) == Lacking(p, a) + Lacking(q, a + p)
  {
    assert (p + q) - a == (p - a) + (q - (a + p));
  }

  lemma GrownTwice(at: Tables, free: set<nat>, at1: Tables, free1: set<nat>, p: set<Key>, at2: Tables, free2: set<nat>, q: set<Key>)
    requires Grown(at, free, at1, free1, p) && Grown(at1, free1, at2, free2, q)
    ensures Grown(at, free, at2, free2, p + q)
  {
    hide Grown;
    GrownCount(at, free, at1, free1, p, at2, free2, q);
    GrownTables(at, free, at1, free1, p, at2, free2, q);
    forall f
      ensures f in free2 <==> f in free && forall k <- at2 | k !in at :: at2[k] != f
    {
      GrownFree(at, free, at1, free1, p, at2, free2, q, f);
    }
    GrownIf(at, free, at2, free2, p + q);
  }

  lemma GrownIf(at: Tables, free: set<nat>, at': Tables, free': set<nat>, path: set<Key>)
    requires forall k :: k in at' <==> k in at || k in path
    requires forall k <- at :: at'[k] == at[k]
    requires forall k <- at' | k !in at :: at'[k] in free
    requires forall f :: f in free' <==> f in free && forall k <- at' | k !in at :: at'[k] != f
    requires |free'| == |free| - Lacking(path, at.Keys)
    ensures Grown(at, free, at', free', path)
  {}

  lemma GrownCount(at: Tables, free: set<nat>, at1: Tables, free1: set<nat>, p: set<Key>, at2: Tables, free2: set<nat>, q: set<Key>)
    requires Grown(at, free, at1, free1, p) && Grown(at1, free1, at2, free2, q)
    ensures |free2| == |free| - Lacking(p + q, at.Keys)
  {
    hide Lacking;
    CountTwice(at.Keys, p, q);
    assert at1.Keys == at.Keys + p;
  }

  lemma GrownTables(at: Tables, free: set<nat>, at1: Tables, free1: set<nat>, p: set<Key>, at2: Tables, free2: set<nat>, q: set<Key>)
    requires Grown(at, free, at1, free1, p) && Grown(at1, free1, at2, free2, q)
    ensures forall k :: k in at2 <==> k in at || k in p + q
    ensures forall k <- at :: at2[k] == at[k]
    ensures forall k <- at2 | k !in at :: at2[k] in free
  {
    forall k <- at2 | k !in at
      ensures at2[k] in free
    {
      assert k in at1 || at2[k] in free1;
    }
  }

  lemma GrownFree(at: Tables, free: set<nat>, at1: Tables, free1: set<nat>, p: set<Key>, at2: Tables, free2: set<nat>, q: set<Key>, f: nat)
    requires Grown(at, free, at1, free1, p) && Grown(at1, free1, at2, free2, q)
    ensures f in free2 <==> f in free && forall k <- at2 | k !in at :: at2[k] != f
  {
    assert f in free2 <==> f in free1 && forall k <- at2 | k !in at1 :: at2[k] != f;
    assert f in free1 <==> f in free && forall k <- at1 | k !in at :: at1[k] != f;
    assert forall k <- at1 :: k in at2 && at2[k] == at1[k];
  }

  // ----- creating a table -----

  /** Memory after entry `w` got a new, cleared table in frame `f`. */
  function Created(ram: seq<nat>, w: nat, f: nat): (r: seq<nat>)
    ensures |r| == |ram|
  {
    seq(|ram|, x requires 0 <= x < |ram| => if x == w then 4096 * f + 7 else if x / 512 == f then 0 else ram[x])
  }

  lemma CreateTree(ram: seq<nat>, at: Tables, offset: nat, k: Key, i: nat, f: nat)
    requires Tree(ram, at, offset) && k in at && 1 < k.level && i < 512 && Child(k, i) !in at
    requires Usable(f, |ram|, offset) && forall j <- at :: at[j] != f
    ensures Tree(Created(ram, 512 * at[k] + i, f), at[Child(k, i) := f], offset)
  {
    hide Usable;
    var w, c := 512 * at[k] + i, Child(k, i);
    var ram', at' := Created(ram, w, f), at[c := f];
    assert Usable(at[k], |ram|, offset);
    CreatePlaced(at, |ram|, offset, k, i, f);
    forall j <- at', n | 1 < j.level && 0 <= n < 512
      ensures 512 * at'[j] + n < |ram| && EntryOk(ram', at', j, n)
    {
      CreateEntry(ram, at, offset, k, i, f, j, n);
    }
  }

  lemma CreatePlaced(at: Tables, words: nat, offset: nat, k: Key, i: nat, f: nat)
    requires Placed(at, words, offset) && k in at && 1 < k.level && i < 512 && Child(k, i) !in at
    requires Usable(f, words, offset) && forall j <- at :: at[j] != f
    ensures Placed(at[Child(k, i) := f], words, offset)
  {
    hide Usable;
    assert Parent(Child(k, i)) == k;
  }

  lemma CreateEntry(ram: seq<nat>, at: Tables, offset: nat, k: Key, i: nat, f: nat, j: Key, n: nat)
    requires Tree(ram, at, offset) && k in at && 1 < k.level && i < 512 && Child(k, i) !in at
    requires Usable(f, |ram|, offset) && forall j <- at :: at[j] != f
    requires j in at[Child(k, i) := f] && 1 < j.level && n < 512
    ensures var at' := at[Child(k, i) := f];
            512 * at'[j] + n < |ram| && EntryOk(Created(ram, 512 * at[k] + i, f), at', j, n)
  {
    hide Apart, Created;
    var w, c := 512 * at[k] + i, Child(k, i);
    var ram' := Created(ram, w, f);
    assert Usable(at[k], |ram|, offset);
    if j == c {
      CreatedAt(ram, w, f, 512 * f + n);
      assert w / 512 == at[k] != f && (512 * f + n) / 512 == f;
      assert Parent(Child(j, n)) == j;
    } else {
      assert Usable(at[j], |ram|, offset);
      assert EntryOk(ram, at, j, n);
      CreatedAt(ram, w, f, 512 * at[j] + n);
      assert (512 * at[j] + n) / 512 == at[j] != f;
      ChildrenDiffer(at, k, i, j, n);
    }
  }

  lemma CreatedAt(ram: seq<nat>, w: nat, f: nat, x: nat)
    requires x < |ram|
    ensures Created(ram, w, f)[x] == if x == w then 4096 * f + 7 else if x / 512 == f then 0 else ram[x]
  {}

  /** Different entries of different tables are different words and lead to different tables. */
  lemma ChildrenDiffer(at: Tables, k: Key, i: nat, j: Key, n: nat)
    requires k in at && j in at && (at[j] == at[k] ==> j == k)
    requires i < 512 && n < 512 && 0 < k.level && 0 < j.level
    ensures 512 * at[j] + n == 512 * at[k] + i <==> Child(j, n) == Child(k, i)
  {
    assert 512 * at[j] + n == 512 * at[k] + i ==> at[j] == at[k];
    assert Child(j, n) == Child(k, i) ==> j == k;
  }

  /** A new table changes what no page maps to. */
  lemma CreateLooks(ram: seq<nat>, at: Tables, offset: nat, k: Key, i: nat, f: nat, page: nat)
    requires Tree(ram, at, offset) && k in at && 1 < k.level && i < 512 && Child(k, i) !in at
    requires Usable(f, |ram|, offset) && forall j <- at :: at[j] != f
    requires Tree(Created(ram, 512 * at[k] + i, f), at[Child(k, i) := f], offset)
    ensures Look(Created(ram, 512 * at[k] + i, f), at[Child(k, i) := f], offset, page) == Look(ram, at, offset, page)
  {
    hide Tree, Apart, EntryOk, Child, Parent, Look;
    var w, j, at' := 512 * at[k] + i, Key(1, page / 512), at[Child(k, i) := f];
    var ram' := Created(ram, w, f);
    TableInside(ram, at, offset, k);
    assert w / 512 == at[k];
    if j in at' {
      TableInside(ram', at', offset, j);
      assert (512 * at'[j] + page % 512) / 512 == at'[j];
      LookIs(ram', at', offset, page, 512 * at'[j] + page % 512);
      if j in at {
        LookIs(ram, at, offset, page, 512 * at[j] + page % 512);
        OtherWord(ram, at, offset, k, i, j, page % 512);
      } else {
        LookNone(ram, at, offset, page);
      }
    } else {
      LookNone(ram, at, offset, page);
      LookNone(ram', at', offset, page);
    }
  }

  lemma TableInside(ram: seq<nat>, at: Tables, offset: nat, k: Key)
    requires Tree(ram, at, offset) && k in at
    ensures 512 * at[k] + 512 <= |ram|
  {
    assert Usable(at[k], |ram|, offset);
  }

  lemma LookNone(ram: seq<nat>, at: Tables, offset: nat, page: nat)
    requires Tree(ram, at, offset) && Key(1, page / 512) !in at
    ensures Look(ram, at, offset, page) == 0
  {}

  /** An entry of an upper table is no word of a last-level table. */
  lemma OtherWord(ram: seq<nat>, at: Tables, offset: nat, k: Key, i: nat, j: Key, n: nat)
    requires Tree(ram, at, offset) && k in at && 1 < k.level && i < 512 && j in at && j.level == 1 && n < 512
    ensures 512 * at[j] + n != 512 * at[k] + i
  {
    assert at[j] != at[k];
  }

  /** A new table touches no word outside the tables. */
  lemma CreateOutside(ram: seq<nat>, at: Tables, k: Key, i: nat, f: nat)
    requires k in at && 0 < k.level && i < 512 && Child(k, i) !in at
    ensures OutsideKept(ram, Created(ram, 512 * at[k] + i, f), at[Child(k, i) := f])
  {
    var at' := at[Child(k, i) := f];
    assert at'[Child(k, i)] == f && at'[k] == at[k];
    assert (512 * at[k] + i) / 512 == at[k];
  }

  // ----- writing a last-level entry -----

  lemma LeafWritten(ram: seq<nat>, at: Tables, offset: nat, page: nat, v: nat)
    requires Tree(ram, at, offset) && Key(1, page / 512) in at
    requires 512 * at[Key(1, page / 512)] + page % 512 < |ram|
    ensures var ram' := ram[512 * at[Key(1, page / 512)] + page % 512 := v];
            && Tree(ram', at, offset)
            && (forall u: nat :: Look(ram', at, offset, u) == if u == page then v else Look(ram, at, offset, u))
            && OutsideKept(ram, ram', at)
  {
    hide Apart;
    var k := Key(1, page / 512);
    var w := 512 * at[k] + page % 512;
    var ram' := ram[w := v];
    assert w / 512 == at[k];
    forall j <- at, i | 1 < j.level && 0 <= i < 512
      ensures EntryOk(ram', at, j, i)
    {
      assert EntryOk(ram, at, j, i);
      assert (512 * at[j] + i) / 512 == at[j];
    }
    assert Tree(ram', at, offset);
    forall u: nat
      ensures Look(ram', at, offset, u) == if u == page then v else Look(ram, at, offset, u)
    {
      var j := Key(1, u / 512);
      if j in at {
        assert Usable(at[j], |ram|, offset);
        assert (512 * at[j] + u % 512) / 512 == at[j];
        assert (512 * at[j] + u % 512) % 512 == u % 512;
        assert u == 512 * (u / 512) + u % 512 && page == 512 * (page / 512) + page % 512;
      }
    }
  }

  // ----- the frames behind the tables -----

  /** No free frame holds a table, and any of them could. */
  ghost predicate Spare(free: set<nat>, at: Tables, words: nat, offset: nat) {
    forall f <- free :: Usable(f, words, offset) && f !in at.Values
  }

  /** Taking the lowest free frame. */
  lemma TakeFrame(bits: seq<bool>, size: nat)
    requires Limit(size) <= |bits|
    ensures var f := FirstFree(bits, 0, Limit(size));
            if f == Limit(size) then Free(bits, size) == {}
            else f in Free(bits, size) && Free(Painted(bits, f, f + 1, false), size) == Free(bits, size) - {f}
  {}

  /**
    * Memory, tables and free frames after the tables of `path` were made sure of: the tree has
    * grown into free frames, every page maps to what it did, and no word outside the tables has
    * changed.
    */
  ghost predicate Widened(ram: seq<nat>, at: Tables, free: set<nat>, ram': seq<nat>, at': Tables, free': set<nat>, offset: nat, path: set<Key>) {
    && Tree(ram, at, offset) && Tree(ram', at', offset)
    && Spare(free', at', |ram'|, offset)
    && at'[ROOT] == at[ROOT]
    && Grown(at, free, at', free', path)
    && (forall page: nat :: Look(ram', at', offset, page) == Look(ram, at, offset, page))
    && OutsideKept(ram, ram', at')
  }

  lemma WidenedNot(ram: seq<nat>, at: Tables, free: set<nat>, offset: nat, k: Key)
    requires Tree(ram, at, offset) && Spare(free, at, |ram|, offset) && k in at
    ensures Widened(ram, at, free, ram, at, free, offset, {k})
  {
    hide Spare, EntryOk, Usable;
    GrownNot(at, free, k);
  }

  lemma WidenedOne(ram: seq<nat>, at: Tables, free: set<nat>, offset: nat, k: Key, i: nat, f: nat)
    requires Tree(ram, at, offset) && Spare(free, at, |ram|, offset)
    requires k in at && 1 < k.level && i < 512 && Child(k, i) !in at && f in free
    ensures Widened(ram, at, free, Created(ram, 512 * at[k] + i, f), at[Child(k, i) := f], free - {f}, offset, {Child(k, i)})
  {
    hide EntryOk, Usable, Look, OutsideKept, Grown;
    CreateTree(ram, at, offset, k, i, f);
    CreateOutside(ram, at, k, i, f);
    GrownOne(at, free, Child(k, i), f);
    forall page: nat
      ensures Look(Created(ram, 512 * at[k] + i, f), at[Child(k, i) := f], offset, page) == Look(ram, at, offset, page)
    {
      CreateLooks(ram, at, offset, k, i, f, page);
    }
  }

  lemma WidenedFacts(ram: seq<nat>, at: Tables, free: set<nat>, ram': seq<nat>, at': Tables, free': set<nat>, offset: nat, path: set<Key>)
    requires Widened(ram, at, free, ram', at', free', offset, path)
    ensures Tree(ram', at', offset) && Spare(free', at', |ram'|, offset) && ROOT in at && ROOT in at' && at'[ROOT] == at[ROOT]
    ensures forall k <- path :: k in at'
  {
    hide EntryOk, Usable, OutsideKept;
  }

  /** Entry `i` of table `k`, read: zero, or the frame of the table below. */
  lemma EntryAt(ram: seq<nat>, at: Tables, offset: nat, k: Key, i: nat)
    requires Tree(ram, at, offset) && k in at && 1 < k.level && i < 512
    ensures 512 * at[k] + i < |ram|
    ensures if Child(k, i) in at then Usable(at[Child(k, i)], |ram|, offset) && ram[512 * at[k] + i] / 4096 == at[Child(k, i)] && ram[512 * at[k] + i] != 0
            else ram[512 * at[k] + i] == 0
  {
    hide Apart;
    assert Usable(at[k], |ram|, offset) && EntryOk(ram, at, k, i);
  }

  /** One step of a walk: the masked entry is the address of the table below. */
  lemma Down(ram: seq<nat>, at: Tables, offset: nat, k: Key, i: nat, table: nat)
    requires Tree(ram, at, offset) && k in at && 1 < k.level && i < 512 && table == 4096 * at[k] && Child(k, i) in at
    ensures table / 8 + i < |ram| && And(ram[table / 8 + i], TABLE_MASK) == 4096 * at[Child(k, i)]
    ensures Usable(at[Child(k, i)], |ram|, offset)
  {
    hide Tree, And, Apart, PageOf;
    EntryAt(ram, at, offset, k, i);
    EntryReads(at[Child(k, i)], ram[table / 8 + i] % 4096, offset);
  }

  /** A free frame is apart from table `k`, and becomes the one below it. */
  lemma NewTable(ram: seq<nat>, at: Tables, free: set<nat>, offset: nat, k: Key, i: nat, f: nat)
    requires Tree(ram, at, offset) && Spare(free, at, |ram|, offset)
    requires k in at && 1 < k.level && i < 512 && Child(k, i) !in at && f in free
    ensures Usable(f, |ram|, offset) && (512 * at[k] + i) / 512 != f
    ensures Widened(ram, at, free, Created(ram, 512 * at[k] + i, f), at[Child(k, i) := f], free - {f}, offset, {Child(k, i)})
  {
    hide Tree, Usable, Widened, Created;
    assert at[k] in at.Values;
    WidenedOne(ram, at, free, offset, k, i, f);
  }

  lemma IsCreated(ram: seq<nat>, now: seq<nat>, w: nat, f: nat)
    requires |now| == |ram| && w < |ram| && w / 512 != f
    requires forall x | 0 <= x < |ram| :: now[x] == if x / 512 == f then 0 else ram[w := 4096 * f + 7][x]
    ensures now == Created(ram, w, f)
  {}

  lemma WidenedTwice(ram: seq<nat>, at: Tables, free: set<nat>, ram1: seq<nat>, at1: Tables, free1: set<nat>,
                     ram2: seq<nat>, at2: Tables, free2: set<nat>, offset: nat, p: set<Key>, q: set<Key>)
    requires Widened(ram, at, free, ram1, at1, free1, offset, p)
    requires Widened(ram1, at1, free1, ram2, at2, free2, offset, q)
    ensures Widened(ram, at, free, ram2, at2, free2, offset, p + q)
  {
    hide Tree, Spare, Look, Grown;
    GrownTwice(at, free, at1, free1, p, at2, free2, q);
    forall w | 0 <= w < |ram| && w / 512 !in at2.Values
      ensures ram2[w] == ram[w]
    {
      if w / 512 in at1.Values {
        GrownValue(at1, free1, at2, free2, q, w / 512);
      }
    }
  }

  lemma GrownValue(at: Tables, free: set<nat>, at': Tables, free': set<nat>, q: set<Key>, f: nat)
    requires Grown(at, free, at', free', q) && f in at.Values
    ensures f in at'.Values
  {
    var k :| k in at && at[k] == f;
    assert k in at' && at'[k] == f;
  }

  // ----- mapping a page -----

  /** `page` has been given the entry `v`: no other page is affected. */
  ghost predicate Mapped(ram: seq<nat>, at: Tables, free: set<nat>, ram': seq<nat>, at': Tables, free': set<nat>, offset: nat, page: nat, v: nat) {
    && Tree(ram, at, offset) && Tree(ram', at', offset)
    && Spare(free', at', |ram'|, offset)
    && at'[ROOT] == at[ROOT]
    && Grown(at, free, at', free', Path(page))
    && (forall u: nat :: Look(ram', at', offset, u) == if u == page then v else Look(ram, at, offset, u))
    && OutsideKept(ram, ram', at')
  }

  lemma OutsideTwice(a: seq<nat>, b: seq<nat>, c: seq<nat>, at: Tables)
    requires OutsideKept(a, b, at) && OutsideKept(b, c, at)
    ensures OutsideKept(a, c, at)
  {}

  lemma MappedIf(ram: seq<nat>, at: Tables, free: set<nat>, ram1: seq<nat>, at1: Tables, free1: set<nat>, offset: nat, page: nat, v: nat)
    requires Widened(ram, at, free, ram1, at1, free1, offset, Path(page))
    ensures Key(1, page / 512) in at1
    ensures 512 * at1[Key(1, page / 512)] + page % 512 < |ram1|
    ensures Mapped(ram, at, free, ram1[512 * at1[Key(1, page / 512)] + page % 512 := v], at1, free1, offset, page, v)
  {
    hide Tree, Spare, Look, Grown, OutsideKept;
    assert Key(1, page / 512) in Path(page);
    WidenedFacts(ram, at, free, ram1, at1, free1, offset, Path(page));
    var w := 512 * at1[Key(1, page / 512)] + page % 512;
    LookIs(ram1, at1, offset, page, w);
    LeafWritten(ram1, at1, offset, page, v);
    OutsideTwice(ram, ram1, ram1[w := v], at1);
  }

  /** Each table created takes one frame and one off those a path lacks. */
  lemma StillLacking(at: Tables, free: set<nat>, at1: Tables, free1: set<nat>, k: Key, path: set<Key>)
    requires Grown(at, free, at1, free1, {k}) && k in path
    ensures Lacking(path, at1.Keys) - |free1| == Lacking(path, at.Keys) - |free|
  {
    hide Lacking;
    assert at1.Keys == at.Keys + {k};
    LackingLess(path, at.Keys, k);
  }

  lemma LackingLess(path: set<Key>, keys: set<Key>, k: Key)
    requires k in path
    ensures Lacking(path, keys + {k}) + Lacking({k}, keys) == Lacking(path, keys)
  {
    if k in keys {
      assert {k} - keys == {} && keys + {k} == keys;
    } else {
      assert {k} - keys == {k};
      assert path - keys == (path - (keys + {k})) + {k};
    }
  }

  lemma HasSpare(at: Tables, free: set<nat>, k: Key, path: set<Key>)
    requires k in path && Lacking(path, at.Keys) <= |free|
    ensures k in at || free != {}
  {
    if k !in at {
      assert k in path - at.Keys;
    }
  }

  lemma TreeRoot(ram: seq<nat>, at: Tables, offset: nat)
    requires Tree(ram, at, offset)
    ensures ROOT in at
  {}

  lemma WidenedGrown(ram: seq<nat>, at: Tables, free: set<nat>, ram1: seq<nat>, at1: Tables, free1: set<nat>, offset: nat, k: Key, path: set<Key>)
    requires Widened(ram, at, free, ram1, at1, free1, offset, {k}) && k in path
    ensures Lacking(path, at1.Keys) - |free1| == Lacking(path, at.Keys) - |free|
  {
    StillLacking(at, free, at1, free1, k, path);
  }

  lemma WidenedStart(ram: seq<nat>, at: Tables, free: set<nat>, offset: nat)
    requires Tree(ram, at, offset) && Spare(free, at, |ram|, offset)
    ensures Widened(ram, at, free, ram, at, free, offset, {})
  {
    hide Spare, EntryOk, Usable;
    assert {} - at.Keys == {};
  }

  /** A path that has been walked lacks nothing. */
  lemma WidenedAll(ram: seq<nat>, at: Tables, free: set<nat>, ram1: seq<nat>, at1: Tables, free1: set<nat>, offset: nat, path: set<Key>)
    requires Widened(ram, at, free, ram1, at1, free1, offset, path)
    ensures Lacking(path, at1.Keys) == 0
  {
    hide Tree, Spare, Look, OutsideKept;
    assert path - at1.Keys == {};
  }

  lemma MappedFacts(ram: seq<nat>, at: Tables, free: set<nat>, ram': seq<nat>, at': Tables, free': set<nat>, offset: nat, page: nat, v: nat)
    requires Mapped(ram, at, free, ram', at', free', offset, page, v)
    ensures Tree(ram', at', offset) && Spare(free', at', |ram'|, offset) && ROOT in at && ROOT in at' && at'[ROOT] == at[ROOT]
  {}

  /** The tables above a last-level table exist. */
  lemma Above(ram: seq<nat>, at: Tables, offset: nat, page: nat)
    requires Tree(ram, at, offset) && Key(1, page / 512) in at
    ensures Key(2, page / 512 / 512) in at && Key(3, page / 512 / 512 / 512) in at && ROOT in at
  {
    assert Parent(Key(1, page / 512)) == Key(2, page / 512 / 512);
    assert Parent(Key(2, page / 512 / 512)) == Key(3, page / 512 / 512 / 512);
  }

  // ----- out of frames -----

  /** Some tables can be read from the words, starting with the root in frame `root`. */
  ghost predicate HasTree(ram: seq<nat>, root: nat, offset: nat) {
    exists at: Tables {:trigger Tree(ram, at, offset)} :: Tree(ram, at, offset) && at[ROOT] == root
  }

  lemma TreeStands(ram: seq<nat>, at: Tables, offset: nat)
    requires Tree(ram, at, offset)
    ensures ROOT in at && HasTree(ram, at[ROOT], offset)
  {}

  /** No table lies in frame 0, so what that frame holds is all the same. */
  lemma FrameZero(ram: seq<nat>, ram': seq<nat>, root: nat, offset: nat)
    requires |ram'| == |ram| && forall x | 512 <= x < |ram| :: ram'[x] == ram[x]
    ensures HasTree(ram', root, offset) ==> HasTree(ram, root, offset)
  {
    hide Apart, Child, Parent;
    if HasTree(ram', root, offset) {
      var at: Tables :| Tree(ram', at, offset) && at[ROOT] == root;
      forall k <- at, i | 1 < k.level && 0 <= i < 512
        ensures EntryOk(ram, at, k, i)
      {
        assert Usable(at[k], |ram|, offset) && EntryOk(ram', at, k, i);
      }
      assert Tree(ram, at, offset);
    }
  }

  /** `ram'` is `ram` with 7 in entry `i` of table `k`, which led nowhere, but for frame 0. */
  ghost predicate Broken(ram: seq<nat>, at: Tables, offset: nat, k: Key, i: nat, ram': seq<nat>) {
    && Tree(ram, at, offset) && k in at && 1 < k.level && i < 512 && Child(k, i) !in at && |ram'| == |ram|
    && forall x | 512 <= x < |ram| :: ram'[x] == if x == 512 * at[k] + i then 7 else ram[x]
  }

  /** A tree in the words of `ram'` has the upper tables it had in `ram`. */
  lemma {:induction false} SameUpper(ram: seq<nat>, at: Tables, offset: nat, k: Key, i: nat, ram': seq<nat>, at': Tables, j: Key)
    requires Broken(ram, at, offset, k, i, ram') && Tree(ram', at', offset) && at'[ROOT] == at[ROOT]
    requires j in at && 1 < j.level
    ensures j in at' && at'[j] == at[j]
    decreases 4 - j.level
  {
    hide Apart;
    if j != ROOT {
      var up, n := Parent(j), j.prefix % 512;
      assert up in at && Child(up, n) == j;
      SameUpper(ram, at, offset, k, i, ram', at', up);
      assert Usable(at[up], |ram|, offset);
      assert EntryOk(ram, at, up, n) && EntryOk(ram', at', up, n);
      ChildrenDiffer(at, k, i, up, n);
    }
  }

  lemma NotSeven(ram: seq<nat>, at: Tables, offset: nat, k: Key, i: nat)
    requires Tree(ram, at, offset) && k in at && 1 < k.level && i < 512
    ensures 512 * at[k] + i < |ram| && ram[512 * at[k] + i] != 7
  {
    EntryAt(ram, at, offset, k, i);
  }

  lemma BrokenWord(ram: seq<nat>, at: Tables, offset: nat, k: Key, i: nat, ram': seq<nat>)
    requires Broken(ram, at, offset, k, i, ram')
    ensures ROOT in at && k in at && 1 < k.level && i < 512 && 512 * at[k] + i < |ram'| && ram'[512 * at[k] + i] == 7
  {
    assert Usable(at[k], |ram|, offset);
  }

  /** An entry that names frame 0 belongs to no tree. */
  lemma BrokenTree(ram: seq<nat>, at: Tables, offset: nat, k: Key, i: nat, ram': seq<nat>)
    requires Broken(ram, at, offset, k, i, ram')
    ensures ROOT in at && !HasTree(ram', at[ROOT], offset)
  {
    hide Tree, Broken;
    BrokenWord(ram, at, offset, k, i, ram');
    forall at': Tables | Tree(ram', at', offset)
      ensures ROOT in at' && at'[ROOT] != at[ROOT]
    {
      TreeRoot(ram', at', offset);
      if at'[ROOT] == at[ROOT] {
        SameUpper(ram, at, offset, k, i, ram', at', k);
        NotSeven(ram', at', offset, k, i);
        assert false;
      }
    }
  }

  /** A table that was to be created in frame 0 leaves no tree; further ones in that frame bring none back. */
  lemma OutOfFrames(was: seq<nat>, at: Tables, offset: nat, root: nat, k: Key, i: nat, entry: nat, inTree: bool, now: seq<nat>)
    requires |now| == |was| && forall x | 512 <= x < |was| :: now[x] == if x == entry then 7 else was[x]
    requires if inTree then Broken(was, at, offset, k, i, now) && root == at[ROOT]
             else entry < 512 && !HasTree(was, root, offset)
    ensures !HasTree(now, root, offset)
  {
    hide Tree, Broken, HasTree;
    if inTree {
      BrokenTree(was, at, offset, k, i, now);
    } else {
      FrameZero(was, now, root, offset);
    }
  }
}

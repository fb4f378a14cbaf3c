/** Whole runs of the multi-area manager: what its words, counters and areas keep. */
module ManagerRuns {
  import opened Tags
  import opened Heaps
  import opened Ops
  import opened Reps
  import opened AllocAreas
  import opened Invariants
  import opened MemoryPool
  import opened ManagerHeaps
  import opened MultiAreaManager
  import Runs

  // `reply` is what the callback for new areas answers if it is called.
  datatype Call = Malloc(bytes: nat, reply: nat) | Memalign(bytes: nat, align: nat, reply: nat) | Release(ptr: nat)

  // What the manager asks of its callers and of the callback.
  ghost predicate Legal(man: Man, call: Call)
    requires ManOk(man)
  {
    match call
    case Malloc(bytes, reply) => bytes <= MAX_SMALL && AllocReady(man, Padded(bytes), 0, reply)
    case Memalign(bytes, align, reply) =>
      bytes <= MAX_SMALL && align < 16384 && (PowerOfTwo(align) ==> AllocReady(man, Padded(bytes), AlignOf(align), reply))
    case Release(p) => p == 0 || IsUser(man, p)
  }

  // The manager after the call and the pointer it returns, as the methods of Manager specify
  // them; `del` says whether there is a callback to hand areas back to.
  ghost function Effect(man: Man, call: Call, del: bool): (Man, nat)
    requires ManOk(man) && Legal(man, call)
  {
    match call
    case Malloc(bytes, reply) => ManAlloc(man, Padded(bytes), 0, reply)
    case Memalign(bytes, align, reply) =>
      if PowerOfTwo(align) then ManAlloc(man, Padded(bytes), AlignOf(align), reply) else (man, 0)
    case Release(p) => (if p == 0 then man else ManFree(man, p, del), 0)
  }

  // The user block whose contents a call ends.
  function Target(call: Call): nat { if call.Release? then call.ptr else 0 }

  // ----- what a call adds and takes away

  /** `words` more user words in `area`, and `grown` more words of areas. */
  datatype Change = Change(area: nat, words: int, grown: int)

  ghost function AllocChange(man: Man, k: Man, r: nat): Change {
    if r !in k.heap.blocks then Change(man.main, 0, 0)
    else
      var a := k.heap.blocks[r].area;
      Change(a, k.heap.blocks[r].w, if a in k.heap.areas && a !in man.heap.areas then k.heap.areas[a].len else 0)
  }

  ghost function FreeChange(man: Man, k: Man, p: nat): Change {
    if p !in man.heap.blocks then Change(man.main, 0, 0)
    else
      var a := man.heap.blocks[p].area;
      Change(a, 0 - man.heap.blocks[p].w, if a in man.heap.areas && a !in k.heap.areas then 0 - man.heap.areas[a].len else 0)
  }

  ghost function ChangeOf(man: Man, k: Man, call: Call, r: nat): Change {
    if call.Release? then FreeChange(man, k, call.ptr) else AllocChange(man, k, r)
  }

  // The words after a change of the user words of one area.
  ghost function After(before: int, c: Change, a: nat): int {
    before + if a == c.area then c.words else 0
  }

  ghost function UserTotal(man: Man): int {
    Total(LiveByArea(man.heap)) - DESC * |man.chain|
  }

  /** Between man and k exactly `c` has been added, and only block `x` may be gone. */
  ghost predicate Changed(man: Man, k: Man, c: Change, x: nat) {
    && ManOk(k) && k.main == man.main && man.main in man.heap.areas && man.main in k.heap.areas
    && k.heap.areas[man.main] == man.heap.areas[man.main]
    && (forall a {:trigger UserWords(k, a)} :: a in k.heap.areas ==>
          UserWords(k, a) == After(if a in man.heap.areas then UserWords(man, a) else 0, c, a) &&
          (a !in man.heap.areas ==> a == c.area && c.words > 0))
    && Total(LenByArea(k.heap)) == Total(LenByArea(man.heap)) + c.grown && UserTotal(k) == UserTotal(man) + c.words
    && (forall q {:trigger IsUser(man, q)} :: IsUser(man, q) && q != x ==> IsUser(k, q) && SameBlock(man.heap, k.heap, q))
  }

  lemma NoBlockAtNull(man: Man)
    requires ManOk(man)
    ensures 0 !in man.heap.blocks && man.main in man.heap.areas
  {
    hide Laid, Homed, ClassOf, Coalesced, Flagged, Kinds;
  }

  lemma NothingChanged(man: Man, x: nat)
    requires ManOk(man)
    ensures Changed(man, man, Change(man.main, 0, 0), x)
  {
    hide ManOk, Total, LiveWords;
    NoBlockAtNull(man);
  }

  lemma AllocChanges(man: Man, n: nat, align: nat, reply: nat)
    requires AllocReady(man, n, align, reply)
    ensures var (k, r) := ManAlloc(man, n, align, reply); Changed(man, k, AllocChange(man, k, r), 0)
  {
    hide ManOk, ManAlloc, Search, Total, LiveWords, UserAdded, ReplyOk, Outgrown, Changed, Skip, Fence, LenByArea,
         AreaFor, Cuttable, CutsFresh, Vacant, Grow, CarveOut, Separable, WF;
    NoBlockAtNull(man);
    var (k, r) := ManAlloc(man, n, align, reply);
    SearchedNone(man, n, align, reply);
    if Search(man.heap, 0, n, align) != 0 {
      AllocFound(man, n, align, reply);
      UserPlaced(man, k, r, n);
      FoundTotals(man, k, r, n);
      FoundChange(man, k, r, n);
    } else if reply == 0 {
      NothingChanged(man, 0);
    } else {
      var len := AreaFor(n, align);
      var k0 := FreshPlan(man, n, align, reply, len, Skip(0, reply + 8, align));
      FreshTotals(man, k, r, n, reply, len);
      FreshChange(man, k, r, n, reply, len);
    }
  }

  lemma SearchedNone(man: Man, n: nat, align: nat, reply: nat)
    requires AllocReady(man, n, align, reply)
    ensures Search(man.heap, 0, n, align) == 0 && reply == 0 ==> ManAlloc(man, n, align, reply) == (man, 0)
  {
    hide ManOk, Search, AllocFresh;
  }

  lemma UserPlaced(man: Man, k: Man, r: nat, n: nat)
    requires ManOk(man) && ManOk(k) && k.heap.areas == man.heap.areas && UserAdded(man, k, r, n)
    ensures r in k.heap.blocks && k.heap.blocks[r].area in k.heap.areas
  {
    hide Laid, Homed, Listed, ClassOf, Coalesced, Flagged, Kinds, Registered, UserWords;
    HasDescriptor(man, k.heap, r);
  }

  lemma FoundChange(man: Man, k: Man, r: nat, n: nat)
    requires ManOk(man) && ManOk(k) && k.chain == man.chain && k.heap.areas == man.heap.areas && UserAdded(man, k, r, n)
    requires r in k.heap.blocks && k.heap.blocks[r].area in k.heap.areas
    requires Total(LenByArea(k.heap)) == Total(LenByArea(man.heap))
    requires Total(LiveByArea(k.heap)) == Total(LiveByArea(man.heap)) + k.heap.blocks[r].w
    ensures Changed(man, k, AllocChange(man, k, r), 0)
  {
    hide ManOk, Total, UserWords, LiveByArea, LenByArea, SameBlock;
    NoBlockAtNull(man);
  }

  lemma FreshChange(man: Man, k: Man, r: nat, n: nat, a: nat, len: nat)
    requires ManOk(man) && ManOk(k) && k.chain == [a] + man.chain && UserAdded(man, k, r, n) && n > 0
    requires k.heap.areas == man.heap.areas[a := Area(len, Fence(a + 2, len == WORDS_2M))] && a !in man.heap.areas
    requires r in k.heap.blocks && k.heap.blocks[r].area == a
    requires Total(LenByArea(k.heap)) == Total(LenByArea(man.heap)) + len
    requires Total(LiveByArea(k.heap)) == Total(LiveByArea(man.heap)) + DESC + k.heap.blocks[r].w
    ensures Changed(man, k, AllocChange(man, k, r), 0)
  {
    hide ManOk, Total, UserWords, LiveByArea, LenByArea, SameBlock, Fence;
    NoBlockAtNull(man);
  }

  lemma FreeChanges(man: Man, p: nat, del: bool)
    requires ManOk(man) && IsUser(man, p)
    ensures var k := ManFree(man, p, del); Changed(man, k, FreeChange(man, k, p), p)
  {
    hide ManOk, ManFree, Total, LiveWords, UserRemoved, Changed, TryMerge, LenByArea, LiveByArea, WF, LastUser,
         Registered, IsUser;
    NoBlockAtNull(man);
    UserBlock(man, p);
    var k := ManFree(man, p, del);
    var a := man.heap.blocks[p].area;
    if Drops(man, p, del) {
      FreeDrops(man, p);
      DropsSame(man, p, del);
      LastGone(man, p);
      DropTotals(man, k, p);
      DropChange(man, k, p);
    } else {
      var (g, q) := TryMerge(man.heap, p);
      KeepPlan(man, p, g, q, del);
      KeepTotals(man, k, p);
      KeepChange(man, k, p);
    }
  }

  lemma UserBlock(man: Man, p: nat)
    requires ManOk(man) && IsUser(man, p)
    ensures p in man.heap.blocks && IsLive(man.heap, p) && WF(man.heap, 0)
  {
    hide WF, Coalesced, Flagged, Kinds, Registered;
  }

  lemma LastGone(man: Man, p: nat)
    requires ManOk(man) && LastUser(man, p)
    ensures var a := man.heap.blocks[p].area;
            && Registered(man) && a in man.chain && a in man.heap.areas && a != man.main
            && UserWords(man, a) == man.heap.blocks[p].w
            && ManFree(man, p, true).chain == Without(man.chain, a) && (ManOk(ManFree(man, p, true)) ==> Registered(ManFree(man, p, true)))
  {
    hide WF, Coalesced, Flagged, Kinds, Registered, TryMerge, DropArea, LiveWords, UserWords, Free;
    UserArea(man, p);
  }

  lemma DropChange(man: Man, k: Man, p: nat)
    requires ManOk(man) && ManOk(k) && IsUser(man, p) && UserRemoved(man, k, p)
    requires var a := man.heap.blocks[p].area;
             && a in man.heap.areas && a != man.main && k.heap.areas == man.heap.areas - {a}
             && Total(LenByArea(k.heap)) + man.heap.areas[a].len == Total(LenByArea(man.heap))
             && Total(LiveByArea(k.heap)) + man.heap.blocks[p].w + DESC == Total(LiveByArea(man.heap))
             && |k.chain| == |man.chain| - 1
    ensures Changed(man, k, FreeChange(man, k, p), p)
  {
    hide ManOk, Total, UserWords, LiveByArea, LenByArea, SameBlock, IsUser;
    UserBlock(man, p);
    NoBlockAtNull(man);
  }

  lemma KeepChange(man: Man, k: Man, p: nat)
    requires ManOk(man) && ManOk(k) && IsUser(man, p) && UserRemoved(man, k, p)
    requires k.heap.areas == man.heap.areas && k.chain == man.chain
    requires Total(LenByArea(k.heap)) == Total(LenByArea(man.heap))
    requires Total(LiveByArea(k.heap)) + man.heap.blocks[p].w == Total(LiveByArea(man.heap))
    ensures Changed(man, k, FreeChange(man, k, p), p)
  {
    hide ManOk, Total, UserWords, LiveByArea, LenByArea, SameBlock, IsUser;
    UserBlock(man, p);
    NoBlockAtNull(man);
  }

  /** Every call keeps the invariant of the manager's heap, and adds to its areas, their sizes
      and their user words exactly what ChangeOf reads off the block allocated or freed. */
  lemma EffectOk(man: Man, call: Call, del: bool)
    requires ManOk(man) && Legal(man, call)
    ensures var (k, r) := Effect(man, call, del); Changed(man, k, ChangeOf(man, k, call, r), Target(call))
  {
    hide ManOk, ManAlloc, ManFree, AllocReady, IsUser, Changed, Padded, AlignOf, PowerOfTwo;
    NoBlockAtNull(man);
    match call {
      case Malloc(bytes, reply) =>
        AllocChanges(man, Padded(bytes), 0, reply);
      case Memalign(bytes, align, reply) =>
        if PowerOfTwo(align) {
          AllocChanges(man, Padded(bytes), AlignOf(align), reply);
        } else {
          NothingChanged(man, 0);
        }
      case Release(p) =>
        if p == 0 {
          NothingChanged(man, 0);
        } else {
          FreeChanges(man, p, del);
        }
    }
  }

  // ----- what an observer sees

  // The words, the list heads, the areas they represent, the counter and link of the main
  // area, and the two totals of the manager.
  datatype Snapshot =
    Snapshot(words: seq<nat>, heads: seq<nat>, man: Man, mainAlloced: nat, mainNext: nat, size: nat, alloced: nat)

  ghost function Seen(m: Manager): Snapshot
    reads m, m.mem, m.heads
  {
    Snapshot(m.mem[..], m.heads[..], m.man, m.mainAlloced, m.mainNext, m.size, m.allocedSize)
  }

  // The i-th descriptor names its area and links to the next one.
  ghost predicate LinkOk(m: seq<nat>, chain: seq<nat>, i: nat)
    requires i < |chain|
  {
    var a := chain[i]; a + 5 < |m| && m[a + 2] == a && m[a + 4] == DescAt(chain, i + 1)
  }

  // Tags, lists and the chain of descriptors can be read from the words.
  ghost predicate Parsed(s: Snapshot) {
    && Rep(s.words, s.heads, s.man.heap) && s.mainNext == DescAt(s.man.chain, 0)
    && forall i {:trigger LinkOk(s.words, s.man.chain, i)} :: 0 <= i < |s.man.chain| ==> LinkOk(s.words, s.man.chain, i)
  }

  // alloced_size in the descriptor of area a
  ghost function Counter(s: Snapshot, a: nat): nat {
    if a == s.man.main then s.mainAlloced else if a + 3 < |s.words| then s.words[a + 3] else 0
  }

  /** Every descriptor counts the user bytes of its area, `size` is the sum of the areas' sizes,
      and `alloced_size` that of all user blocks. */
  ghost predicate Counted(s: Snapshot) {
    && (forall a {:trigger UserWords(s.man, a)} :: a in s.man.heap.areas ==> Counter(s, a) == 8 * UserWords(s.man, a))
    && s.size == 8 * Total(LenByArea(s.man.heap)) && s.alloced == 8 * UserTotal(s.man)
  }

  // The counters and totals move by what the call changes.
  ghost predicate Booked(s: Snapshot, c: Change, t: Snapshot) {
    && t.size == s.size + 8 * c.grown && t.alloced == s.alloced + 8 * c.words
    && forall a {:trigger Counter(t, a)} :: a in t.man.heap.areas ==>
         Counter(t, a) == (if a in s.man.heap.areas then Counter(s, a) else 0) + if a == c.area then 8 * c.words else 0
  }

  ghost predicate Stepped(del: bool, s: Snapshot, call: Call, t: Snapshot)
    requires ManOk(s.man)
  {
    && Legal(s.man, call)
    && var (k, r) := Effect(s.man, call, del);
       && t.man == k && Parsed(t) && Booked(s, ChangeOf(s.man, k, call, r), t)
       && UsersSame(s.words, t.words, s.man, Target(call))
  }

  lemma ValidSeen(m: Manager)
    requires m.Valid()
    ensures ManOk(m.man) && Parsed(Seen(m)) && Counted(Seen(m))
  {
    hide ManOk, Rep, Total, LiveWords, UserWords;
    var s := Seen(m);
    NoBlockAtNull(m.man);
    forall i | 0 <= i < |s.man.chain| ensures LinkOk(s.words, s.man.chain, i) {
      assert DescriptorOk(s.words, s.man.chain, Counts(s.man), i);
    }
    forall a | a in s.man.heap.areas ensures Counter(s, a) == 8 * UserWords(s.man, a) {
      if a != s.man.main {
        InChain(s.man, a);
        var i :| 0 <= i < |s.man.chain| && s.man.chain[i] == a;
        assert DescriptorOk(s.words, s.man.chain, Counts(s.man), i);
      }
    }
  }

  lemma InChain(man: Man, a: nat)
    requires ManOk(man)
    ensures a in man.chain <==> a in man.heap.areas && a != man.main
  {
    hide WF, Coalesced, Flagged, Kinds;
  }

  lemma Books(s: Snapshot, t: Snapshot, c: Change, x: nat)
    requires Counted(s) && Counted(t) && Changed(s.man, t.man, c, x)
    ensures Booked(s, c, t)
  {
    hide ManOk, Total, UserWords, SameBlock, IsUser, LenByArea, LiveByArea;
    forall a | a in t.man.heap.areas
      ensures Counter(t, a) == (if a in s.man.heap.areas then Counter(s, a) else 0) + if a == c.area then 8 * c.words else 0 {
      assert Counter(t, a) == 8 * UserWords(t.man, a);
      assert a in s.man.heap.areas ==> Counter(s, a) == 8 * UserWords(s.man, a);
    }
  }

  lemma StepCounted(s: Snapshot, t: Snapshot, c: Change, x: nat)
    requires Counted(s) && Booked(s, c, t) && Changed(s.man, t.man, c, x)
    ensures Counted(t)
  {
    hide ManOk, Total, UserWords, SameBlock, IsUser, LenByArea, LiveByArea, Counter;
    forall a | a in t.man.heap.areas ensures Counter(t, a) == 8 * UserWords(t.man, a) {
      assert a in s.man.heap.areas ==> Counter(s, a) == 8 * UserWords(s.man, a);
    }
  }

  // The range a call may bring in lies within the managed words.
  ghost predicate Inside(m: Manager, call: Call)
    reads m`mem
  {
    match call
    case Malloc(bytes, reply) => m.Inside(Padded(bytes), 0, reply)
    case Memalign(bytes, align, reply) => m.Inside(Padded(bytes), AlignOf(align), reply)
    case Release(_) => true
  }

  /** A call of the manager is a step of a run. */
  method Perform(m: Manager, call: Call) returns (ptr: nat)
    requires m.Valid() && ManOk(m.man) && Legal(m.man, call) && Inside(m, call)
    modifies m`man, m`mainAlloced, m`mainNext, m`size, m`allocedSize, m.mem, m.heads
    ensures m.Valid() && Stepped(m.hasDelmem, old(Seen(m)), call, Seen(m))
    ensures ptr == Effect(old(m.man), call, m.hasDelmem).1
  {
    hide ManOk, Rep, ManAlloc, ManFree, UsersSame, Descriptors, Total, LiveWords, Padded, PowerOfTwo, AlignOf,
         ReplyOk, Outgrown, Separable, SmallRequest, Counted, Parsed, Booked, Changed;
    ghost var s := Seen(m);
    ValidSeen(m);
    EffectOk(m.man, call, m.hasDelmem);
    SelfUsers(m.mem[..], m.heads[..], m.man);
    ptr := 0;
    var fault;
    match call {
      case Malloc(bytes, reply) =>
        ptr, fault := m.Alloc(bytes, reply);
      case Memalign(bytes, align, reply) =>
        ptr, fault := m.AlignedAlloc(bytes, align, reply);
      case Release(p) =>
        m.Free(p);
    }
    ValidSeen(m);
    ghost var k := Effect(s.man, call, m.hasDelmem);
    Books(s, Seen(m), ChangeOf(s.man, k.0, call, k.1), Target(call));
  }

  // ----- runs

  // ss is the sequence of states of the run `calls`.
  ghost predicate Trace(del: bool, ss: seq<Snapshot>, calls: seq<Call>)
    requires |ss| == |calls| + 1 && ManOk(ss[0].man)
    decreases |calls|
  {
    calls == [] ||
    (Stepped(del, ss[0], calls[0], ss[1]) && (StepOk(del, ss[0], calls[0], ss[1]); Trace(del, ss[1..], calls[1..])))
  }

  ghost function Last(ss: seq<Snapshot>): Snapshot
    requires ss != []
  {
    ss[|ss| - 1]
  }

  lemma StepOk(del: bool, s: Snapshot, call: Call, t: Snapshot)
    requires ManOk(s.man) && Stepped(del, s, call, t)
    ensures ManOk(t.man) && Parsed(t)
  {
    hide ManOk, Effect, Legal, Parsed, Booked;
    EffectOk(s.man, call, del);
    ChangedOk(s.man, t.man, ChangeOf(s.man, t.man, call, Effect(s.man, call, del).1), Target(call));
  }

  lemma ChangedOk(man: Man, k: Man, c: Change, x: nat)
    requires Changed(man, k, c, x)
    ensures ManOk(k) && k.main == man.main && k.main in k.heap.areas && man.main in man.heap.areas
    ensures k.heap.areas[k.main] == man.heap.areas[man.main]
  {
    hide ManOk, Total, UserWords, SameBlock, IsUser;
  }

  // Every call of a run is legal when its turn comes.
  ghost predicate LegalRun(man: Man, calls: seq<Call>, del: bool)
    requires ManOk(man)
    decreases |calls|
  {
    calls == [] ||
    (Legal(man, calls[0]) && (KeepsOk(man, calls[0], del); LegalRun(Effect(man, calls[0], del).0, calls[1..], del)))
  }

  lemma KeepsOk(man: Man, call: Call, del: bool)
    requires ManOk(man) && Legal(man, call)
    ensures ManOk(Effect(man, call, del).0)
  {
    hide ManOk, Effect, Legal;
    EffectOk(man, call, del);
    var (k, r) := Effect(man, call, del);
    ChangedOk(man, k, ChangeOf(man, k, call, r), Target(call));
  }

  /** A whole sequence of calls leaves a valid manager, and its states are a trace: the theorems
      on traces hold of every manager there is. */
  method PerformAll(m: Manager, calls: seq<Call>) returns (ghost ss: seq<Snapshot>)
    requires m.Valid() && ManOk(m.man) && LegalRun(m.man, calls, m.hasDelmem)
    requires forall i :: 0 <= i < |calls| ==> Inside(m, calls[i])
    modifies m`man, m`mainAlloced, m`mainNext, m`size, m`allocedSize, m.mem, m.heads
    ensures m.Valid() && |ss| == |calls| + 1 && ss[0] == old(Seen(m)) && Last(ss) == Seen(m)
    ensures ManOk(ss[0].man) && Trace(m.hasDelmem, ss, calls)
    decreases |calls|
  {
    hide ManOk, Legal, Effect, Stepped, Inside;
    ghost var s := Seen(m);
    ss := [s];
    if calls != [] {
      var ptr := PerformFirst(m, calls);
      ghost var rest := PerformAll(m, calls[1..]);
      ss := [s] + rest;
      TraceMore(m.hasDelmem, s, rest, calls);
    }
  }

  method PerformFirst(m: Manager, calls: seq<Call>) returns (ptr: nat)
    requires m.Valid() && ManOk(m.man) && calls != [] && LegalRun(m.man, calls, m.hasDelmem) && Inside(m, calls[0])
    modifies m`man, m`mainAlloced, m`mainNext, m`size, m`allocedSize, m.mem, m.heads
    ensures m.Valid() && Stepped(m.hasDelmem, old(Seen(m)), calls[0], Seen(m))
    ensures ManOk(m.man) && LegalRun(m.man, calls[1..], m.hasDelmem)
  {
    hide ManOk, Rep, Legal, Effect, Parsed, Booked, UsersSame, Inside;
    KeepsOk(m.man, calls[0], m.hasDelmem);
    ptr := Perform(m, calls[0]);
  }

  lemma TraceMore(del: bool, s: Snapshot, rest: seq<Snapshot>, calls: seq<Call>)
    requires ManOk(s.man) && calls != [] && |rest| == |calls|
    requires Stepped(del, s, calls[0], rest[0]) && ManOk(rest[0].man) && Trace(del, rest, calls[1..])
    ensures Trace(del, [s] + rest, calls)
  {
    hide ManOk, Stepped;
    assert ([s] + rest)[1..] == rest;
    StepOk(del, s, calls[0], rest[0]);
  }

  /** Over every run: the heap is well formed and coalesced, SIZE_FLAG follows the area, and tags,
      lists and descriptors can be read from the words; and if counters and totals agree with the
      areas at first, they still do after all the calls have moved them. */
  lemma {:induction false} RunOk(del: bool, ss: seq<Snapshot>, calls: seq<Call>)
    requires |ss| == |calls| + 1 && ManOk(ss[0].man) && Trace(del, ss, calls) && Parsed(ss[0]) && Counted(ss[0])
    ensures ManOk(Last(ss).man) && Parsed(Last(ss)) && Counted(Last(ss))
    decreases |calls|
  {
    hide ManOk, Stepped, Parsed, Counted;
    if calls != [] {
      StepOk(del, ss[0], calls[0], ss[1]);
      StepSums(del, ss[0], calls[0], ss[1]);
      RunOk(del, ss[1..], calls[1..]);
    }
  }

  lemma StepSums(del: bool, s: Snapshot, call: Call, t: Snapshot)
    requires ManOk(s.man) && Stepped(del, s, call, t) && Counted(s)
    ensures Counted(t)
  {
    hide ManOk, Effect, Legal, Parsed, Counted, Booked, Changed;
    EffectOk(s.man, call, del);
    StepCounted(s, t, ChangeOf(s.man, t.man, call, Effect(s.man, call, del).1), Target(call));
  }

  /** Isolation over every run: a user block that is not freed stays in place with every payload
      word as it was, while areas come and go around it. */
  lemma {:induction false} RunIsolates(del: bool, ss: seq<Snapshot>, calls: seq<Call>, x: nat)
    requires |ss| == |calls| + 1 && ManOk(ss[0].man) && Trace(del, ss, calls)
    requires IsUser(ss[0].man, x) && (forall i :: 0 <= i < |calls| ==> Target(calls[i]) != x)
    requires x + ss[0].man.heap.blocks[x].w <= |ss[0].words|
    ensures var w := ss[0].man.heap.blocks[x].w;
            IsUser(Last(ss).man, x) && Last(ss).man.heap.blocks[x].w == w && PayloadSame(ss[0].words, Last(ss).words, x, w)
    decreases |calls|
  {
    hide ManOk, Stepped, PayloadSame, Effect;
    var w := ss[0].man.heap.blocks[x].w;
    if calls == [] {
      SelfPayload(ss[0].words, x, w);
    } else {
      StepOk(del, ss[0], calls[0], ss[1]);
      StepIsolates(del, ss[0], calls[0], ss[1], x);
      PayloadInside(ss[0].words, ss[1].words, x, w);
      RunIsolates(del, ss[1..], calls[1..], x);
      PayloadTrans(ss[0].words, ss[1].words, Last(ss).words, x, w);
    }
  }

  lemma SelfPayload(m: seq<nat>, p: nat, w: nat)
    requires p + w <= |m|
    ensures PayloadSame(m, m, p, w)
  {
  }

  lemma PayloadInside(m0: seq<nat>, m1: seq<nat>, p: nat, w: nat)
    requires PayloadSame(m0, m1, p, w)
    ensures p + w <= |m1|
  {
  }

  lemma PayloadTrans(m0: seq<nat>, m1: seq<nat>, m2: seq<nat>, p: nat, w: nat)
    requires PayloadSame(m0, m1, p, w) && PayloadSame(m1, m2, p, w)
    ensures PayloadSame(m0, m2, p, w)
  {
  }

  lemma StepIsolates(del: bool, s: Snapshot, call: Call, t: Snapshot, x: nat)
    requires ManOk(s.man) && Stepped(del, s, call, t) && IsUser(s.man, x) && Target(call) != x
    ensures IsUser(t.man, x) && t.man.heap.blocks[x].w == s.man.heap.blocks[x].w
    ensures PayloadSame(s.words, t.words, x, s.man.heap.blocks[x].w)
  {
    hide ManOk, Effect, Legal, Parsed, Booked, Total;
    EffectOk(s.man, call, del);
    assert SameBlock(s.man.heap, t.man.heap, x);
  }

  // ----- everything freed

  // No sub-area is without a user block.
  ghost predicate Tenanted(man: Man) {
    forall a {:trigger UserWords(man, a)} :: a in man.chain ==> UserWords(man, a) > 0
  }

  lemma StepTenanted(s: Snapshot, call: Call, t: Snapshot)
    requires ManOk(s.man) && Stepped(true, s, call, t) && Tenanted(s.man)
    ensures Tenanted(t.man)
  {
    hide ManOk, AllocReady, Parsed, Booked, UserWords, Total, ManFree, ManAlloc, IsUser, LastUser, UsersSame;
    var man, k := s.man, t.man;
    EffectOk(man, call, true);
    forall a | a in k.chain ensures UserWords(k, a) > 0 {
      InChain(man, a);
      InChain(k, a);
      if call.Release? && call.ptr != 0 {
        FreedArea(man, call.ptr, a);
      }
    }
  }

  // A free that leaves the area leaves another user block in it.
  lemma FreedArea(man: Man, p: nat, a: nat)
    requires ManOk(man) && IsUser(man, p) && a in ManFree(man, p, true).chain
    ensures p in man.heap.blocks
    ensures man.heap.blocks[p].area == a && a != man.main ==> UserWords(man, a) > man.heap.blocks[p].w
  {
    hide Laid, Homed, Listed, ClassOf, Coalesced, Flagged, Kinds, Registered, TryMerge, DropArea, LiveWords, Free;
    UserCovered(man, p);
    RegisteredOf(man);
    WithoutMembers(man.chain, man.heap.blocks[p].area);
  }

  lemma RegisteredOf(man: Man)
    requires ManOk(man)
    ensures Registered(man)
  {
  }

  lemma {:induction false} RunTenanted(ss: seq<Snapshot>, calls: seq<Call>)
    requires |ss| == |calls| + 1 && ManOk(ss[0].man) && Trace(true, ss, calls) && Tenanted(ss[0].man)
    ensures ManOk(Last(ss).man) && Tenanted(Last(ss).man)
    decreases |calls|
  {
    hide ManOk, Stepped, Tenanted;
    if calls != [] {
      StepOk(true, ss[0], calls[0], ss[1]);
      StepTenanted(ss[0], calls[0], ss[1]);
      RunTenanted(ss[1..], calls[1..]);
    }
  }

  // Over every run the main area stays what it is.
  lemma {:induction false} RunMain(del: bool, ss: seq<Snapshot>, calls: seq<Call>)
    requires |ss| == |calls| + 1 && ManOk(ss[0].man) && Trace(del, ss, calls)
    ensures var man, k := ss[0].man, Last(ss).man;
            && ManOk(k) && k.main == man.main && man.main in man.heap.areas && k.main in k.heap.areas
            && k.heap.areas[k.main] == man.heap.areas[man.main]
    decreases |calls|
  {
    hide ManOk, Stepped;
    NoBlockAtNull(ss[0].man);
    if calls != [] {
      StepOk(del, ss[0], calls[0], ss[1]);
      StepMain(del, ss[0], calls[0], ss[1]);
      RunMain(del, ss[1..], calls[1..]);
    }
  }

  lemma StepMain(del: bool, s: Snapshot, call: Call, t: Snapshot)
    requires ManOk(s.man) && Stepped(del, s, call, t)
    ensures t.man.main == s.man.main && s.man.main in s.man.heap.areas && t.man.main in t.man.heap.areas
    ensures t.man.heap.areas[t.man.main] == s.man.heap.areas[s.man.main]
  {
    hide ManOk, Effect, Legal, Parsed, Booked, UsersSame;
    EffectOk(s.man, call, del);
    ChangedOk(s.man, t.man, ChangeOf(s.man, t.man, call, Effect(s.man, call, del).1), Target(call));
  }

  // A sub-area without user blocks has no user words.
  lemma Untenanted(man: Man, a: nat)
    requires ManOk(man) && a in man.chain && forall p :: !IsUser(man, p)
    ensures UserWords(man, a) == 0
  {
    hide ManOk, Total;
    var none: map<nat, nat> := map[];
    ChainArea(man, a);
    ChainDescriptor(man, a);
    forall x | x in man.heap.blocks && !man.heap.blocks[x].free && man.heap.blocks[x].area == a ensures x == a + 2 {
      assert !IsUser(man, x);
    }
    assert LiveFrom(man.heap, a, 0) == none[a + 2 := DESC];
    TotalEmpty();
    TotalAdd(none, a + 2, DESC);
  }

  lemma ChainDescriptor(man: Man, a: nat)
    requires ManOk(man) && a in man.chain
    ensures a != man.main && a + 2 in man.heap.blocks && man.heap.blocks[a + 2].w == DESC
  {
    hide WF, Coalesced, Flagged, Kinds;
    assert IsLive(man.heap, a + 2);
  }

  // Without sub-areas and user blocks nothing is live.
  lemma MainOnly(man: Man)
    requires ManOk(man) && man.chain == [] && (forall p :: !IsUser(man, p)) && man.main in man.heap.areas
    ensures WF(man.heap, 0) && Coalesced(man.heap) && Flagged(man.heap) && forall p :: !IsLive(man.heap, p)
    ensures var area := man.heap.areas[man.main];
            && man.heap.areas == map[man.main := area] && area.fence == Fence(MAIN, area.len == WORDS_2M)
            && UserTotal(man) == 0 && UserWords(man, man.main) == 0 && Total(LenByArea(man.heap)) == area.len
  {
    hide WF, Coalesced, Flagged, Total, Fence;
    var h, a := man.heap, man.main;
    var none: map<nat, nat> := map[];
    assert AreaKind(man, a);
    forall p ensures !IsLive(h, p) {
      assert !IsUser(man, p);
      if p in h.blocks {
        HasDescriptor(man, h, p);
      }
    }
    forall x | x in h.blocks ensures h.blocks[x].free {
      assert !IsLive(h, x);
    }
    assert LiveFrom(h, a, 0) == none;
    TotalEmpty();
    TotalAdd(none, a, 0);
    TotalAdd(none, a, h.areas[a].len);
    assert LiveByArea(h) == none[a := 0] && LenByArea(h) == none[a := h.areas[a].len];
  }

  /** If there is a callback to hand areas back to, freeing everything, in whatever order and
      wherever it was allocated, hands back every area that was ever obtained: what is left is
      the main area as one free block, counters of 0 and the size of the main area; with a main
      area of 2 MiB, exactly the manager that mman_init made. */
  lemma RunReturns(ss: seq<Snapshot>, calls: seq<Call>, a: nat, len: nat)
    requires |ss| == |calls| + 1 && (len == WORDS_4K || len == WORDS_2M) && a % len == 0
    requires ss[0].man == InitMan(a, len) && ManOk(ss[0].man) && Trace(true, ss, calls)
    requires Parsed(ss[0]) && Counted(ss[0]) && forall p :: !IsUser(Last(ss).man, p)
    ensures var t, init := Last(ss), InitMan(a, len);
            && t.man.chain == [] && t.man.main == a && t.man.heap.areas == init.heap.areas
            && t.man.heap.blocks.Keys == {a + 2} == init.heap.blocks.Keys
            && t.man.heap.blocks[a + 2] == init.heap.blocks[a + 2].(home := t.man.heap.blocks[a + 2].home)
            && t.size == 8 * len && t.alloced == 0 && t.mainAlloced == 0
    ensures len == WORDS_2M ==> Last(ss).man == InitMan(a, len)
  {
    hide ManOk, WF, ClassOf, Fence, Trace, Coalesced, Flagged, LiveWords, Total, IsUser, Parsed, UserTotal, LenByArea;
    var k := Last(ss).man;
    RunOk(true, ss, calls);
    RunMain(true, ss, calls);
    RunTenanted(ss, calls);
    if k.chain != [] {
      assert k.chain[0] in k.chain;
      Untenanted(k, k.chain[0]);
      assert false;
    }
    MainOnly(k);
    Runs.AllFree(k.heap, a, len, Fence(MAIN, len == WORDS_2M));
    InitManBlock(a, len);
    assert Counter(Last(ss), a) == 8 * UserWords(k, a);
    FlagOf(k.heap, a + 2);
    if len == WORDS_2M {
      Runs.ClassLarge(len - 4);
    }
  }

  lemma FlagOf(h: Heap, p: nat)
    requires Flagged(h) && p in h.blocks && h.blocks[p].area in h.areas
    ensures h.blocks[p].big == (h.areas[h.blocks[p].area].len == WORDS_2M)
  {
    assert h.blocks[p].big == h.blocks[p].big;
  }
}

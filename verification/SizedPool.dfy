/**
  * The pool of equal slots of kernel/src/mm/heap/sized-pool.cpp: free slots are chained through their
  * first word. Slot sizes and addresses count 8-byte words, and 0 is NULL.
  */
module SizedPools {
  import opened Basics

  const NULL: nat := 0

  /** The address of slot `i`. */
  function Slot(ptr: nat, bsize: nat, i: nat): nat {
    ptr + i * bsize
  }

  lemma Distribute(a: nat, b: nat, c: nat)
    ensures (a + b) * c == a * c + b * c
  {}

  /** Slots keep their distance. */
  lemma SlotsApart(ptr: nat, bsize: nat, i: nat, j: nat)
    requires i < j
    ensures Slot(ptr, bsize, i) + bsize <= Slot(ptr, bsize, j)
  {
    Distribute(i, j - i, bsize);
    Distribute(1, j - i - 1, bsize);
  }

  ghost function Slots(ptr: nat, bsize: nat, len: nat): set<nat> {
    set i: nat | i < len :: Slot(ptr, bsize, i)
  }

  /** `chain` lists the slots met from `head` on, following the first words, to NULL. */
  ghost predicate Chained(mem: seq<nat>, head: nat, chain: seq<nat>)
    decreases |chain|
  {
    if chain == [] then head == NULL
    else head == chain[0] && 0 < head < |mem| && Chained(mem, mem[head], chain[1..])
  }

  ghost predicate Parses(mem: seq<nat>, head: nat) {
    exists chain :: Chained(mem, head, chain)
  }

  /** Changing a word off the chain does not change the chain. */
  lemma {:induction false} ChainedElsewhere(mem: seq<nat>, head: nat, chain: seq<nat>, p: nat, v: nat)
    requires Chained(mem, head, chain) && p !in chain && p < |mem|
    ensures Chained(mem[p := v], head, chain)
    decreases |chain|
  {
    if chain != [] {
      ChainedElsewhere(mem, mem[head], chain[1..], p, v);
    }
  }

  /** The words and the head determine the chain. */
  lemma {:induction false} ChainUnique(mem: seq<nat>, head: nat, c: seq<nat>, d: seq<nat>)
    requires Chained(mem, head, c) && Chained(mem, head, d)
    ensures c == d
    decreases |c|
  {
    if c != [] && d != [] {
      ChainUnique(mem, mem[head], c[1..], d[1..]);
      assert c == [c[0]] + c[1..] && d == [d[0]] + d[1..];
    }
  }

  /** On the way from `head`, `k` steps lead to the `k`-th slot of its chain, whatever the words off the way are. */
  lemma {:induction false} ChainTail(mem: seq<nat>, other: seq<nat>, head: nat, chain: seq<nat>, after: seq<nat>, k: nat)
    requires Chained(mem, head, chain) && k < |chain| && Chained(other, head, after)
    requires |other| == |mem| && forall i | 0 <= i < k && chain[i] < |mem| :: other[chain[i]] == mem[chain[i]]
    ensures k < |after| && Chained(other, chain[k], after[k..])
    decreases k
  {
    if k > 0 {
      assert forall i | 0 <= i < k - 1 :: chain[1..][i] == chain[i + 1];
      assert other[chain[0]] == mem[chain[0]];
      assert forall i | 0 <= i < k - 1 && chain[1..][i] < |mem| :: other[chain[i + 1]] == mem[chain[i + 1]];
      ChainTail(mem, other, mem[head], chain[1..], after[1..], k - 1);
      assert after[1..][k - 1..] == after[k..];
    } else {
      assert after[0..] == after;
    }
  }

  /** A chain that comes back to `p` never ends. */
  lemma {:induction false} CycleHasNoChain(mem: seq<nat>, head: nat, chain: seq<nat>, p: nat, k: nat, after: seq<nat>)
    requires Chained(mem, head, chain) && k < |chain| && chain[k] == p && (forall i | 0 <= i < k :: chain[i] != p)
    requires p < |mem|
    ensures !Chained(mem[p := head], p, after)
    decreases |after|
  {
    if Chained(mem[p := head], p, after) {
      assert p > 0 by { ChainNonNull(mem, head, chain, k); }
      var rest := after[1..];
      assert Chained(mem[p := head], head, rest);
      ChainTail(mem, mem[p := head], head, chain, rest, k);
      CycleHasNoChain(mem, head, chain, p, k, rest[k..]);
    }
  }

  lemma {:induction false} ChainNonNull(mem: seq<nat>, head: nat, chain: seq<nat>, k: nat)
    requires Chained(mem, head, chain) && k < |chain|
    ensures 0 < chain[k] < |mem|
    decreases k
  {
    if k > 0 {
      ChainNonNull(mem, mem[head], chain[1..], k - 1);
    }
  }

  lemma {:induction false} FirstPlace(chain: seq<nat>, p: nat) returns (k: nat)
    requires p in chain
    ensures k < |chain| && chain[k] == p && forall i | 0 <= i < k :: chain[i] != p
    decreases |chain|
  {
    if chain[0] == p {
      k := 0;
    } else {
      k := FirstPlace(chain[1..], p);
      assert forall i | 0 <= i < k :: chain[1..][i] != p;
      k := k + 1;
    }
  }

  /**
    * Why only slots that are out may be freed: the words and the head after a free describe a chain
    * exactly if the slot was not free already.
    */
  lemma FreedTwice(mem: seq<nat>, head: nat, chain: seq<nat>, p: nat)
    requires Chained(mem, head, chain) && 0 < p < |mem|
    ensures Parses(mem[p := head], p) <==> p !in chain
  {
    var mem' := mem[p := head];
    if p in chain {
      var k := FirstPlace(chain, p);
      forall after
        ensures !Chained(mem', p, after)
      {
        CycleHasNoChain(mem, head, chain, p, k, after);
      }
    } else {
      ChainedElsewhere(mem, head, chain, p, head);
      assert ([p] + chain)[1..] == chain;
      assert Chained(mem', p, [p] + chain);
    }
  }

  /** Free slots and slots out share out the pool. */
  ghost predicate Partition(chain: seq<nat>, out: set<nat>, slots: set<nat>) {
    NoDup(chain) && (set p <- chain) + out == slots && forall p <- chain :: p !in out
  }

  // ----- the chain a fresh pool starts with -----

  ghost function SlotsFrom(ptr: nat, bsize: nat, i: nat, len: nat): (chain: seq<nat>)
    requires i <= len
    ensures |chain| == len - i
    ensures forall j | 0 <= j < len - i :: chain[j] == Slot(ptr, bsize, i + j)
  {
    seq<nat>(len - i, j requires 0 <= j < len - i => Slot(ptr, bsize, i + j))
  }

  /** Slot `j` holds the address of the slot after it. */
  ghost predicate Linked(mem: seq<nat>, ptr: nat, bsize: nat, j: nat) {
    Slot(ptr, bsize, j) < |mem| && mem[Slot(ptr, bsize, j)] == Slot(ptr, bsize, j + 1)
  }

  lemma SlotInside(ptr: nat, bsize: nat, i: nat, len: nat)
    requires i < len && 0 < bsize
    ensures ptr <= Slot(ptr, bsize, i) && Slot(ptr, bsize, i) + bsize <= Slot(ptr, bsize, len)
    ensures Slot(ptr, bsize, 0) == ptr
  {
    SlotsApart(ptr, bsize, i, len);
  }

  lemma LinkMore(was: seq<nat>, mem: seq<nat>, ptr: nat, bsize: nat, i: nat)
    requires 0 < bsize && 0 < i && Slot(ptr, bsize, i - 1) < |was|
    requires mem == was[Slot(ptr, bsize, i - 1) := Slot(ptr, bsize, i)]
    requires forall j | 0 <= j < i - 1 :: Linked(was, ptr, bsize, j)
    ensures forall j | 0 <= j < i :: Linked(mem, ptr, bsize, j)
  {
    hide Slot;
    forall j | 0 <= j < i
      ensures Linked(mem, ptr, bsize, j)
    {
      if j < i - 1 {
        assert Linked(was, ptr, bsize, j);
        SlotsApart(ptr, bsize, j, i - 1);
      }
    }
  }

  lemma LinkEnd(was: seq<nat>, mem: seq<nat>, ptr: nat, bsize: nat, len: nat)
    requires 0 < bsize && 0 < len && Slot(ptr, bsize, len - 1) < |was|
    requires mem == was[Slot(ptr, bsize, len - 1) := NULL]
    requires forall j | 0 <= j < len - 1 :: Linked(was, ptr, bsize, j)
    ensures forall j | 0 <= j < len - 1 :: Linked(mem, ptr, bsize, j)
  {
    hide Slot;
    forall j | 0 <= j < len - 1
      ensures Linked(mem, ptr, bsize, j)
    {
      assert Linked(was, ptr, bsize, j);
      SlotsApart(ptr, bsize, j, len - 1);
    }
  }

  lemma {:induction false} ChainFrom(mem: seq<nat>, ptr: nat, bsize: nat, i: nat, len: nat)
    requires 0 < ptr && 0 < bsize && i < len && Slot(ptr, bsize, len) <= |mem|
    requires forall j | 0 <= j < len - 1 :: Linked(mem, ptr, bsize, j)
    requires Slot(ptr, bsize, len - 1) < |mem| && mem[Slot(ptr, bsize, len - 1)] == NULL
    ensures Chained(mem, Slot(ptr, bsize, i), SlotsFrom(ptr, bsize, i, len))
    decreases len - i
  {
    hide Slot;
    SlotInside(ptr, bsize, i, len);
    var chain := SlotsFrom(ptr, bsize, i, len);
    if i == len - 1 {
      assert chain[1..] == [];
    } else {
      ChainFrom(mem, ptr, bsize, i + 1, len);
      assert Linked(mem, ptr, bsize, i);
      assert chain[1..] == SlotsFrom(ptr, bsize, i + 1, len);
    }
  }

  lemma SlotsFromAll(ptr: nat, bsize: nat, i: nat, len: nat)
    requires 0 < bsize && i == 0 <= len
    ensures Partition(SlotsFrom(ptr, bsize, i, len), {}, Slots(ptr, bsize, len))
  {
    hide Slot;
    var chain := SlotsFrom(ptr, bsize, 0, len);
    forall j, k | 0 <= j < k < |chain|
      ensures chain[j] != chain[k]
    {
      SlotsApart(ptr, bsize, j, k);
    }
    forall p
      ensures p in chain <==> p in Slots(ptr, bsize, len)
    {
      if p in Slots(ptr, bsize, len) {
        var j: nat :| j < len && p == Slot(ptr, bsize, j);
        assert chain[j] == p;
      }
    }
  }

  // ----- taking and giving back -----

  lemma TakeHead(chain: seq<nat>, out: set<nat>, slots: set<nat>)
    requires Partition(chain, out, slots) && chain != []
    ensures Partition(chain[1..], out + {chain[0]}, slots) && chain[0] !in out
  {
    forall p | p in chain
      ensures p == chain[0] || p in chain[1..]
    {
    }
    assert (set p <- chain[1..]) + (out + {chain[0]}) == slots;
  }

  lemma GiveBack(chain: seq<nat>, out: set<nat>, slots: set<nat>, p: nat)
    requires Partition(chain, out, slots) && p in out
    ensures Partition([p] + chain, out - {p}, slots) && p !in chain
  {
    assert (set q <- [p] + chain) == {p} + set q <- chain;
  }

  /** The chain is empty exactly when every slot is out. */
  lemma EmptyIffAllOut(chain: seq<nat>, out: set<nat>, slots: set<nat>)
    requires Partition(chain, out, slots)
    ensures chain == [] <==> out == slots
  {
    if chain != [] {
      assert chain[0] in slots && chain[0] !in out;
    }
  }

  /** Free slots and slots out add up to the whole pool. */
  lemma Counted(chain: seq<nat>, out: set<nat>, slots: set<nat>)
    requires Partition(chain, out, slots)
    ensures |chain| + |out| == |slots|
    decreases |chain|
  {
    if chain == [] {
      assert out == slots;
    } else {
      TakeHead(chain, out, slots);
      Counted(chain[1..], out + {chain[0]}, slots);
    }
  }

  lemma {:induction false} SlotCount(ptr: nat, bsize: nat, len: nat)
    requires 0 < bsize
    ensures |Slots(ptr, bsize, len)| == len
  {
    if len == 0 {
      assert Slots(ptr, bsize, 0) == {};
    } else {
      SlotCount(ptr, bsize, len - 1);
      forall i: nat | i < len - 1
        ensures Slot(ptr, bsize, i) != Slot(ptr, bsize, len - 1)
      {
        SlotsApart(ptr, bsize, i, len - 1);
      }
      assert Slots(ptr, bsize, len) == Slots(ptr, bsize, len - 1) + {Slot(ptr, bsize, len - 1)};
    }
  }

  // ----- runs -----

  datatype Op = Alloc | Free(p: nat)
  datatype State = State(chain: seq<nat>, out: set<nat>)

  /** What `Alloc` and `Free` do to the free chain and the slots out. */
  function Apply(s: State, op: Op): State {
    match op
    case Alloc => if s.chain == [] then s else State(s.chain[1..], s.out + {s.chain[0]})
    case Free(p) => if p == NULL then s else State([p] + s.chain, s.out - {p})
  }

  function After(s: State, ops: seq<Op>): State
    decreases |ops|
  {
    if ops == [] then s else After(Apply(s, ops[0]), ops[1..])
  }

  /** Only NULL and slots that are out are freed. */
  ghost predicate Legal(s: State, ops: seq<Op>)
    decreases |ops|
  {
    ops == [] || ((ops[0].Free? ==> ops[0].p == NULL || ops[0].p in s.out) && Legal(Apply(s, ops[0]), ops[1..]))
  }

  /**
    * From a fresh pool, over every legal run, free slots and slots out share out all `len` slots,
    * and the next allocation fails exactly when all `len` are out.
    */
  lemma RunPartition(ptr: nat, bsize: nat, len: nat, ops: seq<Op>)
    requires 0 < ptr && 0 < bsize && 0 < len
    requires Legal(State(SlotsFrom(ptr, bsize, 0, len), {}), ops)
    ensures var t := After(State(SlotsFrom(ptr, bsize, 0, len), {}), ops);
            && Partition(t.chain, t.out, Slots(ptr, bsize, len))
            && |t.chain| + |t.out| == len
            && (t.chain == [] <==> |t.out| == len)
            && (t.chain != [] ==> t.chain[0] !in t.out)
  {
    SlotsFromAll(ptr, bsize, 0, len);
    var t := After(State(SlotsFrom(ptr, bsize, 0, len), {}), ops);
    RunFrom(State(SlotsFrom(ptr, bsize, 0, len), {}), Slots(ptr, bsize, len), ops);
    Counted(t.chain, t.out, Slots(ptr, bsize, len));
    SlotCount(ptr, bsize, len);
  }

  lemma {:induction false} RunFrom(s: State, slots: set<nat>, ops: seq<Op>)
    requires Partition(s.chain, s.out, slots) && Legal(s, ops)
    ensures Partition(After(s, ops).chain, After(s, ops).out, slots)
    decreases |ops|
  {
    if ops != [] {
      match ops[0] {
        case Alloc =>
          if s.chain != [] {
            TakeHead(s.chain, s.out, slots);
          }
        case Free(p) =>
          if p in s.out && p != NULL {
            GiveBack(s.chain, s.out, slots, p);
          }
      }
      RunFrom(Apply(s, ops[0]), slots, ops[1..]);
    }
  }

  class SizedPool {
    const mem: array<nat>
    var ptr: nat
    var size: nat
    var bsize: nat
    var len: nat
    var nalloced: nat
    var freelist: nat
    ghost var chain: seq<nat>
    ghost var out: set<nat>

    ghost predicate Valid()
      reads this, mem
    {
      && 0 < ptr && 0 < bsize && 0 < len && size == bsize * len && Slot(ptr, bsize, len) <= mem.Length
      && Chained(mem[..], freelist, chain)
      && Partition(chain, out, Slots(ptr, bsize, len))
    }

    constructor (mem: array<nat>)
      ensures this.mem == mem
    {
      this.mem := mem;
    }

    method Init(ptr: nat, bsize: nat, len: nat)
      requires 0 < ptr && 0 < bsize && 0 < len && Slot(ptr, bsize, len) <= mem.Length
      modifies this, mem
      ensures Valid() && this.ptr == ptr && this.bsize == bsize && this.len == len
      ensures chain == SlotsFrom(ptr, bsize, 0, len) && out == {} && nalloced == 0
    {
      hide Slot, Slots, SlotsFrom, Linked, Chained, NoDup;
      this.ptr, this.size, this.bsize, this.len := ptr, bsize * len, bsize, len;
      nalloced, freelist, out := 0, Slot(ptr, bsize, 0), {};
      for i := 1 to len
        invariant forall j | 0 <= j < i - 1 :: Linked(mem[..], ptr, bsize, j)
        invariant freelist == Slot(ptr, bsize, 0) && out == {} && nalloced == 0
        invariant this.ptr == ptr && this.bsize == bsize && this.len == len && size == bsize * len
      {
        SlotInside(ptr, bsize, i - 1, len);
        ghost var was := mem[..];
        mem[Slot(ptr, bsize, i - 1)] := Slot(ptr, bsize, i);
        LinkMore(was, mem[..], ptr, bsize, i);
      }
      SlotInside(ptr, bsize, len - 1, len);
      ghost var was := mem[..];
      mem[Slot(ptr, bsize, len - 1)] := NULL;
      LinkEnd(was, mem[..], ptr, bsize, len);
      chain := SlotsFrom(ptr, bsize, 0, len);
      ChainFrom(mem[..], ptr, bsize, 0, len);
      SlotsFromAll(ptr, bsize, 0, len);
    }

    method Alloc() returns (p: nat)
      requires Valid()
      modifies `freelist, `chain, `out
      ensures Valid()
      ensures p == NULL <==> old(out) == Slots(ptr, bsize, len)
      ensures if old(chain) == [] then p == NULL && chain == [] && out == old(out)
              else p == old(chain[0]) && chain == old(chain[1..]) && out == old(out) + {p} && p !in old(out)
    {
      hide Slots, Partition;
      EmptyIffAllOut(chain, out, Slots(ptr, bsize, len));
      if freelist == NULL {
        return NULL;
      }
      TakeHead(chain, out, Slots(ptr, bsize, len));
      p := freelist;
      freelist := mem[p];
      chain, out := chain[1..], out + {p};
    }

    /** Only a slot that is out, or NULL, may be freed. */
    method Free(p: nat)
      requires Valid() && (p == NULL || p in out)
      modifies `freelist, `chain, `out, mem
      ensures Valid()
      ensures p == NULL ==> mem[..] == old(mem[..]) && chain == old(chain) && out == old(out)
      ensures p != NULL ==> (forall x | 0 <= x < mem.Length :: mem[x] == if x == p then old(freelist) else old(mem[x])) && chain == [p] + old(chain) && out == old(out) - {p}
    {
      if p == NULL {
        return;
      }
      OutInside(chain, out, ptr, bsize, len, p);
      GiveBack(chain, out, Slots(ptr, bsize, len), p);
      ChainedElsewhere(mem[..], freelist, chain, p, freelist);
      assert mem.Length >= Slot(ptr, bsize, len);
      mem[p] := freelist;
      freelist := p;
      chain, out := [p] + chain, out - {p};
    }

    lemma OutInside(chain: seq<nat>, out: set<nat>, ptr: nat, bsize: nat, len: nat, p: nat)
      requires Partition(chain, out, Slots(ptr, bsize, len)) && p in out && 0 < bsize
      ensures ptr <= p < Slot(ptr, bsize, len)
    {
      assert p in Slots(ptr, bsize, len);
      var i: nat :| i < len && p == Slot(ptr, bsize, i);
      SlotInside(ptr, bsize, i, len);
    }

    method InPool(p: nat) returns (b: bool)
      requires Valid()
      ensures b <==> Slot(ptr, bsize, 0) <= p < Slot(ptr, bsize, len)
      ensures p in Slots(ptr, bsize, len) ==> b
    {
      if p in Slots(ptr, bsize, len) {
        ghost var i: nat :| i < len && p == Slot(ptr, bsize, i);
        SlotInside(ptr, bsize, i, len);
      }
      if p == NULL {
        return false;
      }
      if p < ptr || ptr + size <= p {
        return false;
      }
      return true;
    }
  }

  /** One call of the pool is one step of a run. */
  method Perform(pool: SizedPool, op: Op) returns (p: nat)
    requires pool.Valid() && (op.Free? ==> op.p == NULL || op.p in pool.out)
    modifies pool`freelist, pool`chain, pool`out, pool.mem
    ensures pool.Valid()
    ensures State(pool.chain, pool.out) == Apply(old(State(pool.chain, pool.out)), op)
    ensures op.Alloc? ==> (p == NULL <==> old(pool.chain) == []) && (p != NULL ==> p == old(pool.chain)[0])
  {
    hide Partition, Slots;
    p := NULL;
    match op {
      case Alloc =>
        p := pool.Alloc();
      case Free(q) =>
        pool.Free(q);
    }
  }
}

/** The physical frame allocator of kernel/src/mm/frame.cpp over the bitmap: a set bit is a free frame. */
module Frames {
  import opened Bitmaps

  const PAGE_SIZE: nat := 4096

  /** How many bits a search looks at. */
  function Limit(size: nat): nat {
    8 * (size / 8)
  }

  /** The frames that can be handed out. */
  ghost function Free(bits: seq<bool>, size: nat): set<nat>
    requires Limit(size) <= |bits|
  {
    set f: nat | f < Limit(size) && bits[f]
  }

  /** The lowest free frame from `lo` on, or `limit`. */
  function FirstFree(bits: seq<bool>, lo: nat, limit: nat): (f: nat)
    requires lo <= limit <= |bits|
    ensures lo <= f <= limit
    ensures f < limit ==> bits[f]
    ensures forall i :: lo <= i < f ==> !bits[i]
    decreases limit - lo
  {
    if lo == limit || bits[lo] then lo else FirstFree(bits, lo + 1, limit)
  }

  /** Whether `r` is the lowest clear bit, as a search reads the bytes. */
  ghost predicate LowestClear(d: seq<bv8>, size: nat, r: nat)
    requires size / 8 <= |d|
  {
    var seen := Bits(Seen(d, size, false));
    r < |seen| && !seen[r] && forall i | 0 <= i < r :: seen[i]
  }

  /** A search that answers for one set bit answers with the lowest. */
  lemma FoundFirst(d: seq<bv8>, size: nat, r: nat)
    requires size / 8 <= |d| && size < NOT_FOUND && Found(Bits(Seen(d, size, true)), 1, true, r)
    ensures FirstFree(Bits(d), 0, Limit(size)) == if r == NOT_FOUND then Limit(size) else r
    ensures r != NOT_FOUND ==> r < Limit(size)
  {
    hide Bits, Seen, Found;
    FindSetExact(d, size, 1, r);
    var f := FirstFree(Bits(d), 0, Limit(size));
    assert f < Limit(size) ==> Run(Bits(d), f, 1, true);
    assert r != NOT_FOUND ==> Bits(d)[r];
  }

  lemma FoundClear(d: seq<bv8>, size: nat, r: nat)
    requires size / 8 <= |d| && Found(Bits(Seen(d, size, false)), 1, false, r)
    ensures r != NOT_FOUND ==> r < Limit(size) && LowestClear(d, size, r)
    ensures r == NOT_FOUND ==> forall i | 0 <= i < Limit(size) :: Bits(Seen(d, size, false))[i]
  {
    var seen := Bits(Seen(d, size, false));
    forall i: nat | i < |seen| && (r == NOT_FOUND || i < r)
      ensures seen[i]
    {
      assert !Run(seen, i, 1, false);
    }
  }

  class FrameAllocator {
    const bitmap: Bitmap

    ghost predicate Valid() {
      bitmap.Valid()
    }

    ghost function Contents(): seq<bool>
      reads bitmap.data
    {
      bitmap.Contents()
    }

    constructor (bitmap: Bitmap)
      ensures this.bitmap == bitmap
    {
      this.bitmap := bitmap;
    }

    /**
      * The two arguments of the search are exchanged in the source: it looks for one bit of value
      * `count != 0` whatever the count, and then claims `count` frames from there. For a count of 0
      * it answers with the lowest held frame it sees.
      */
    method AllocFrames(count: nat) returns (addr: nat)
      requires Valid() && (count > 1 ==> bitmap.size + count <= 8 * bitmap.data.Length)
      modifies bitmap.data
      ensures count == 0 ==> Contents() == old(Contents())
      ensures count == 0 ==>
                || (addr % PAGE_SIZE == 0 && LowestClear(old(bitmap.data[..]), bitmap.size, addr / PAGE_SIZE))
                || (addr == 0 && forall i | 0 <= i < Limit(bitmap.size) :: Bits(Seen(old(bitmap.data[..]), bitmap.size, false))[i])
      ensures count > 0 ==> var f := FirstFree(old(Contents()), 0, Limit(bitmap.size));
                            if f == Limit(bitmap.size) then addr == 0 && Contents() == old(Contents())
                            else addr == f * PAGE_SIZE && Contents() == Painted(old(Contents()), f, f + count, false)
    {
      hide Bits, Seen, Found, FirstFree, Run, LowestClear;
      var frameIndex := bitmap.FindRange(count != 0, 1);
      if count != 0 {
        FoundFirst(bitmap.data[..], bitmap.size, frameIndex);
      } else {
        FoundClear(bitmap.data[..], bitmap.size, frameIndex);
      }
      if frameIndex == NOT_FOUND {
        return 0;
      }
      bitmap.SetRange(frameIndex, frameIndex + count, false);
      assert count == 0 ==> Painted(old(Contents()), frameIndex, frameIndex, false) == old(Contents());
      return frameIndex * PAGE_SIZE;
    }

    method FreeFrames(addr: nat, count: nat)
      requires Valid() && (count > 0 && addr / PAGE_SIZE < bitmap.size ==> addr / PAGE_SIZE + count <= 8 * bitmap.data.Length)
      modifies bitmap.data
      ensures Contents() == if addr / PAGE_SIZE < bitmap.size
                            then Painted(old(Contents()), addr / PAGE_SIZE, addr / PAGE_SIZE + count, true)
                            else old(Contents())
    {
      var frameIndex := addr / PAGE_SIZE;
      bitmap.SetRange(frameIndex, frameIndex + count, true);
    }
  }

  /** Whether an allocation of `count` frames claims only frames that were free. */
  ghost predicate ClaimsFree(bits: seq<bool>, size: nat, count: nat)
    requires Limit(size) <= |bits|
  {
    var f := FirstFree(bits, 0, Limit(size));
    f < Limit(size) ==> f + count <= |bits| && forall i :: f <= i < f + count ==> bits[i]
  }

  /**
    * Whatever the bitmap, an allocation claims only free frames exactly for counts up to 1: the
    * lowest free frame can always have a held one behind it.
    */
  lemma ClaimsFreeExactly(count: nat)
    ensures (forall bits: seq<bool>, size: nat | Limit(size) <= |bits| :: ClaimsFree(bits, size, count)) <==> count <= 1
  {
    var held := [false, true, false, true, true, true, true, true];
    assert FirstFree(held, 0, Limit(8)) == 1;
    assert !held[2];
    assert count > 1 ==> !ClaimsFree(held, 8, count);
  }

  // ----- runs of single-frame allocations and releases -----

  datatype Op = Alloc | Release(addr: nat)

  /** The bitmap, and the addresses handed out and not yet released. */
  datatype State = State(bits: seq<bool>, out: set<nat>)

  ghost predicate Ok(s: State, size: nat) {
    && Limit(size) <= |s.bits|
    && (|s.bits| > 0 ==> !s.bits[0])
    && forall a <- s.out :: a % PAGE_SIZE == 0 && 0 < a / PAGE_SIZE < Limit(size) && !s.bits[a / PAGE_SIZE]
  }

  /** What one `alloc_frames(1)` answers. */
  function Answer(s: State, size: nat): nat
    requires Limit(size) <= |s.bits|
  {
    var f := FirstFree(s.bits, 0, Limit(size));
    if f == Limit(size) then 0 else f * PAGE_SIZE
  }

  function Apply(s: State, size: nat, op: Op): (t: State)
    requires Limit(size) <= |s.bits|
    ensures |t.bits| == |s.bits|
  {
    match op
    case Alloc =>
      var f := FirstFree(s.bits, 0, Limit(size));
      if f == Limit(size) then s
      else State(Painted(s.bits, f, f + 1, false), s.out + {f * PAGE_SIZE})
    case Release(a) =>
      State(if a / PAGE_SIZE < size then Painted(s.bits, a / PAGE_SIZE, a / PAGE_SIZE + 1, true) else s.bits, s.out - {a})
  }

  /** One call of the allocator is one step of a run. */
  method Perform(f: FrameAllocator, op: Op, ghost s: State) returns (addr: nat)
    requires f.Valid() && s.bits == f.Contents()
    requires op.Release? && op.addr / PAGE_SIZE < f.bitmap.size ==> op.addr / PAGE_SIZE < 8 * f.bitmap.data.Length
    modifies f.bitmap.data
    ensures f.Contents() == Apply(s, f.bitmap.size, op).bits
    ensures op.Alloc? ==> addr == Answer(s, f.bitmap.size)
  {
    hide Bits, Painted, FirstFree;
    addr := 0;
    match op {
      case Alloc =>
        addr := f.AllocFrames(1);
      case Release(a) =>
        f.FreeFrames(a, 1);
    }
  }

  function After(s: State, size: nat, ops: seq<Op>): (t: State)
    requires Limit(size) <= |s.bits|
    ensures |t.bits| == |s.bits|
    decreases |ops|
  {
    if ops == [] then s else After(Apply(s, size, ops[0]), size, ops[1..])
  }

  /** Only addresses that are out are released. */
  ghost predicate Legal(s: State, size: nat, ops: seq<Op>)
    requires Limit(size) <= |s.bits|
    decreases |ops|
  {
    ops == [] || ((ops[0].Release? ==> ops[0].addr in s.out) && Legal(Apply(s, size, ops[0]), size, ops[1..]))
  }

  /** Every frame the allocator looks after: free or handed out. */
  ghost function Pool(s: State, size: nat): set<nat>
    requires Limit(size) <= |s.bits|
  {
    Free(s.bits, size) + set a <- s.out :: a / PAGE_SIZE
  }

  lemma ApplyKeeps(s: State, size: nat, op: Op)
    requires Ok(s, size) && (op.Release? ==> op.addr in s.out)
    ensures Ok(Apply(s, size, op), size)
    ensures Pool(Apply(s, size, op), size) == Pool(s, size)
  {
    var t := Apply(s, size, op);
    forall f: nat
      ensures f in Pool(t, size) <==> f in Pool(s, size)
    {
      if f in Pool(s, size) {
        if f in Free(s.bits, size) {
          if f !in Free(t.bits, size) {
            assert f * PAGE_SIZE in t.out && f * PAGE_SIZE / PAGE_SIZE == f;
          }
        } else {
          var a :| a in s.out && a / PAGE_SIZE == f;
          assert a in t.out || f in Free(t.bits, size);
        }
      }
      if f in Pool(t, size) && f !in Free(t.bits, size) {
        var a :| a in t.out && a / PAGE_SIZE == f;
        assert a in s.out || f in Free(s.bits, size);
      }
    }
  }

  /**
    * Over every run, the frames handed out stay apart from the free ones, none is lost and none
    * appears from nowhere.
    */
  lemma {:induction false} RunKeeps(s: State, size: nat, ops: seq<Op>)
    requires Ok(s, size) && Legal(s, size, ops)
    ensures Ok(After(s, size, ops), size)
    ensures Pool(After(s, size, ops), size) == Pool(s, size)
    decreases |ops|
  {
    if ops != [] {
      ApplyKeeps(s, size, ops[0]);
      RunKeeps(Apply(s, size, ops[0]), size, ops[1..]);
    }
  }

  /**
    * After every run an allocation answers with a frame that is not out, and with 0 exactly when
    * every frame of the pool is out.
    */
  lemma NextIsFresh(s: State, size: nat, ops: seq<Op>)
    requires Ok(s, size) && Legal(s, size, ops)
    ensures var t := After(s, size, ops);
            var a := Answer(t, size);
            && (a != 0 ==> a !in t.out && a / PAGE_SIZE in Pool(s, size) && a in Apply(t, size, Alloc).out)
            && (a == 0 <==> Pool(s, size) == set b <- t.out :: b / PAGE_SIZE)
  {
    RunKeeps(s, size, ops);
    var t := After(s, size, ops);
    var f := FirstFree(t.bits, 0, Limit(size));
    if f < Limit(size) {
      assert f in Free(t.bits, size);
      assert f !in set b <- t.out :: b / PAGE_SIZE;
    } else {
      assert Free(t.bits, size) == {};
    }
  }

  /**
    * Frame 0 has to start reserved: the answer 0 means that nothing is free exactly when bit 0 is
    * clear or nothing is free.
    */
  lemma FrameZeroReserved(s: State, size: nat)
    requires Limit(size) <= |s.bits| && 0 < Limit(size)
    ensures (Answer(s, size) == 0 <==> Free(s.bits, size) == {}) <==> !s.bits[0]
  {
    var f := FirstFree(s.bits, 0, Limit(size));
    if f < Limit(size) {
      assert f in Free(s.bits, size);
    } else {
      assert Free(s.bits, size) == {};
    }
  }
}

/** Boundary-tag words and size classes (block.hpp and the head of freelist.hpp).

    A machine word is 8 bytes.  Sizes are counted in words here, so a tag word, which
    holds a byte size and three flag bits, is `8 * words + flags`. */
module Tags {
  import opened Basics
  import Masks

  const FREE_FLAG: nat := 1
  const AREA_FLAG: nat := 2
  const SIZE_FLAG: nat := 4

  // Index of the list of large blocks, after the eight size-class lists.
  const LARGE: nat := 8
  // `home` of a block that is on no list.
  const NOWHERE: nat := 9

  predicate FreeBit(x: nat) { x % 2 == 1 }

  predicate AreaBit(x: nat) { x / 2 % 2 == 1 }

  predicate SizeBit(x: nat) { x / 4 % 2 == 1 }

  // The size in a tag word, flags masked out.
  function SizeOf(x: nat): nat { x / 8 }

  function SetFree(x: nat): nat { if FreeBit(x) then x else x + FREE_FLAG }

  function ClearFree(x: nat): nat { if FreeBit(x) then x - FREE_FLAG else x }

  function SetBig(x: nat): nat { if SizeBit(x) then x else x + SIZE_FLAG }

  function ClearBig(x: nat): nat { if SizeBit(x) then x - SIZE_FLAG else x }

  /** A block: `w` payload words, its FREE_FLAG and SIZE_FLAG, the area it lies in, and the
      free list it is on. */
  datatype Blk = Blk(w: nat, free: bool, big: bool, area: nat, home: nat)

  // The word stored in front of and behind the payload of b.
  function Tag(b: Blk): nat {
    8 * b.w + (if b.free then FREE_FLAG else 0) + (if b.big then SIZE_FLAG else 0)
  }

  // Reading a tag gives back what was written, and the flag setters act on one flag only.
  lemma TagBits(b: Blk)
    ensures SizeOf(Tag(b)) == b.w
    ensures FreeBit(Tag(b)) == b.free && SizeBit(Tag(b)) == b.big && !AreaBit(Tag(b))
    ensures SetFree(Tag(b)) == Tag(b.(free := true)) && ClearFree(Tag(b)) == Tag(b.(free := false))
    ensures SetBig(Tag(b)) == Tag(b.(big := true)) && ClearBig(Tag(b)) == Tag(b.(big := false))
  {
    var flags := (if b.free then 1 else 0) + (if b.big then 4 else 0);
    assert Tag(b) == 8 * b.w + flags;
    assert Tag(b) / 4 == 2 * b.w + flags / 4;
    assert Tag(b) / 2 == 4 * b.w + flags / 2;
  }

  /** The readers and setters are the bitwise operators of the source: FREE_FLAG is bit 0,
      AREA_FLAG bit 1, SIZE_FLAG bit 2, and the size is what is left without the three. */
  lemma FlagMasks(x: nat)
    ensures (Masks.And(x, 1) != 0 <==> FreeBit(x)) && (Masks.And(x, 2) != 0 <==> AreaBit(x)) && (Masks.And(x, 4) != 0 <==> SizeBit(x))
    ensures Masks.Clear(x, 7) == 8 * SizeOf(x)
    ensures Masks.Or(x, 1) == SetFree(x) && Masks.Clear(x, 1) == ClearFree(x)
    ensures Masks.Or(x, 4) == SetBig(x) && Masks.Clear(x, 4) == ClearBig(x)
  {
    hide Masks.And, Masks.Or, Masks.Clear;
    assert Pow2(0) == 1 && Pow2(1) == 2 && Pow2(2) == 4 && Pow2(3) == 8;
    assert Masks.BitAt(x, 0) == FreeBit(x);
    assert Masks.BitAt(x, 1) == Masks.BitAt(x / 2, 0);
    assert Masks.BitAt(x, 2) == Masks.BitAt(x / 2, 1) == Masks.BitAt(x / 2 / 2, 0);
    Masks.TestBit(x, 0);
    Masks.TestBit(x, 1);
    Masks.TestBit(x, 2);
    Masks.OneBit(x, 0);
    Masks.OneBit(x, 2);
    Masks.RoundDown(3, 8, x / 8, x % 8);
  }

  // Position of the highest set bit.
  function Log2(x: nat): nat
    requires x > 0
  {
    if x < 2 then 0 else 1 + Log2(x / 2)
  }

  // __builtin_clz on a 32-bit value
  function Clz(x: nat): int
    requires 0 < x < 0x1_0000_0000
  {
    31 - Log2(x)
  }

  // freelists_size2id on a size in bytes
  function SizeToId(size: nat): int {
    if size < 64 then 0
    else if size < 256 then 1
    else if size >= 16384 then -1
    else (32 - 9) - Clz(size) + 2
  }

  lemma {:induction false} Log2Bounds(x: nat)
    requires x > 0
    ensures Pow2(Log2(x)) <= x < 2 * Pow2(Log2(x))
  {
    if x >= 2 {
      Log2Bounds(x / 2);
    }
  }

  lemma {:induction false} Log2Monotone(x: nat, y: nat)
    requires 0 < x <= y
    ensures Log2(x) <= Log2(y)
  {
    if x >= 2 {
      Log2Monotone(x / 2, y / 2);
    }
  }

  lemma Log2Small()
    ensures Log2(256) == 8 && Log2(16383) == 13
  {
    assert Log2(1) == 0;
    assert Log2(2) == 1;
    assert Log2(4) == 2;
    assert Log2(8) == 3;
    assert Log2(16) == 4;
    assert Log2(32) == 5;
    assert Log2(64) == 6;
    assert Log2(128) == 7;
    assert Log2(3) == 1;
    assert Log2(7) == 2;
    assert Log2(15) == 3;
    assert Log2(31) == 4;
    assert Log2(63) == 5;
    assert Log2(127) == 6;
    assert Log2(255) == 7;
    assert Log2(511) == 8;
    assert Log2(1023) == 9;
    assert Log2(2047) == 10;
    assert Log2(4095) == 11;
    assert Log2(8191) == 12;
  }

  /** The class index always indexes the array of lists (-1 stands for the large list).  Class 0
      holds exactly the sizes below 64 bytes, class 1 those below 256, and from there up class k
      exactly the sizes in [64 * 2^k, 128 * 2^k). */
  lemma SizeToIdRange(size: nat)
    ensures -1 <= SizeToId(size) <= 7
    ensures SizeToId(size) == -1 <==> size >= 16384
    ensures (SizeToId(size) == 0 <==> size < 64) && (SizeToId(size) == 1 <==> 64 <= size < 256)
    ensures 256 <= size < 16384 ==>
              var k := SizeToId(size);
              2 <= k && 64 * Pow2(k) <= size < 128 * Pow2(k)
  {
    if 256 <= size < 16384 {
      Log2Monotone(256, size);
      Log2Monotone(size, 16383);
      Log2Small();
      Log2Bounds(size);
      var k := SizeToId(size);
      assert k == Log2(size) - 6;
      Pow2Split(k);
    }
  }

  lemma Pow2Split(k: nat)
    ensures Pow2(k + 6) == 64 * Pow2(k)
  {
    assert Pow2(k + 6) == 2 * Pow2(k + 5);
    assert Pow2(k + 5) == 2 * Pow2(k + 4);
    assert Pow2(k + 4) == 2 * Pow2(k + 3);
    assert Pow2(k + 3) == 2 * Pow2(k + 2);
    assert Pow2(k + 2) == 2 * Pow2(k + 1);
  }

  // The list that do_free and _detach select for a block of w words.
  function ClassOf(w: nat): (id: nat)
    ensures id <= LARGE
  {
    SizeToIdRange(8 * w);
    if SizeToId(8 * w) < 0 then LARGE else SizeToId(8 * w)
  }

  // A larger block is never on an earlier list, so a search may start at the request's class.
  lemma ClassMonotone(v: nat, w: nat)
    requires v <= w
    ensures ClassOf(v) <= ClassOf(w)
  {
    SizeToIdRange(8 * v);
    SizeToIdRange(8 * w);
    if 256 <= 8 * v && 8 * w < 16384 {
      Log2Monotone(8 * v, 8 * w);
    }
  }
}

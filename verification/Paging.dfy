/**
  * Four-level page tables as a tree of frames in physical memory
  * (kernel/src/arch/x86_64/table.cpp).
  */
module Paging {
  import opened Basics
  import opened Masks

  // ----- table entries -----

  const PRESENT := 1
  const READ_WRITE := 2
  const USER := 4
  /** The flag callers pass for executable pages. */
  const EXECUTABLE := 8
  /** Bit 63 of an entry. */
  const NO_EXECUTE := 0x8000_0000_0000_0000
  /** The mask the walk applies to the upper three levels: bits 12 to 47. */
  const TABLE_MASK := 0xFFFF_FFFF_F000
  /** How many pages a four-level table can name. */
  const PAGES := 0x10_0000_0000

  /** `x & ~physical_memory_offset & ~(PAGE_SIZE - 1)`. */
  function PageOf(x: nat, offset: nat): nat {
    Clear(Clear(x, offset), 4095)
  }

  /** The flags of an entry for the flags a caller passes. */
  function ArchFlags(flags: nat): nat {
    var present := if And(flags, PRESENT) != 0 then Or(0, PRESENT) else 0;
    var write := if And(flags, READ_WRITE) != 0 then Or(present, READ_WRITE) else present;
    var user := if And(flags, USER) != 0 then Or(write, USER) else write;
    if And(flags, EXECUTABLE) == 0 then Or(user, NO_EXECUTE) else user
  }

  /** The last-level entry `map` writes. */
  function Leaf(phys: nat, flags: nat, offset: nat): nat {
    Or(PageOf(phys, offset), ArchFlags(flags))
  }

  lemma PageLow(x: nat)
    ensures Clear(x, 4095) == x - x % 4096
  {
    Powers();
    Splits(12, 4096, x / 4096, x % 4096, 0, 4095);
    ClearNone(x / 4096);
    LowOnes(12, x % 4096);
  }

  lemma TableMaskReads(x: nat)
    ensures And(x, TABLE_MASK) == x / 4096 % PAGES * 4096
  {
    hide And, Clear, Or, Pow2;
    Powers();
    var y := x / 4096;
    Splits(12, 4096, y, x % 4096, PAGES - 1, 0);
    ClearNone(x % 4096);
    Splits(36, PAGES, y / PAGES, y % PAGES, 0, PAGES - 1);
    ClearNone(y / PAGES);
    LowOnes(36, y % PAGES);
  }

  /** The offset has no bit in common with the address of frame `f`. */
  ghost predicate Apart(f: nat, offset: nat) {
    Clear(4096 * f, offset) == 4096 * f
  }

  lemma NullApart(offset: nat)
    ensures Apart(0, offset)
  {}

  lemma ClearPage(f: nat, low: nat, m: nat)
    requires low < 4096
    ensures Clear(4096 * f + low, m) == 4096 * Clear(f, m / 4096) + Clear(low, m % 4096)
  {
    hide And, Clear, Or, Pow2;
    Powers();
    Splits(12, 4096, f, low, m / 4096, m % 4096);
    assert m / 4096 * 4096 + m % 4096 == m;
  }

  /** Low flag bits do not hide the frame an entry points to. */
  lemma EntryReads(f: nat, low: nat, offset: nat)
    requires low < 4096 && Apart(f, offset)
    ensures PageOf(4096 * f + low, offset) == 4096 * f
    ensures f < PAGES ==> And(4096 * f + low, TABLE_MASK) == 4096 * f
  {
    hide And, Clear, Or, Pow2;
    ClearPage(f, low, offset);
    ClearPage(f, 0, offset);
    PageLow(Clear(4096 * f + low, offset));
    TableMaskReads(4096 * f + low);
  }

  lemma OrZero(x: nat)
    ensures Or(x, 0) == x && Or(0, x) == x
  {}

  /** The entry `page_table_create` writes for a new table. */
  lemma TableEntry(f: nat)
    ensures Or(Or(Or(4096 * f, PRESENT), READ_WRITE), USER) == 4096 * f + 7
  {
    assert Or(1, 2) == 3 && Or(3, 4) == 7;
    LowOr(f, 0, 1);
    LowOr(f, 1, 2);
    LowOr(f, 3, 4);
  }

  lemma LowOr(f: nat, b: nat, d: nat)
    requires b < 4096 && d < 4096
    ensures Or(4096 * f + b, d) == 4096 * f + Or(b, d)
  {
    hide Or, Pow2;
    Powers();
    Splits(12, 4096, f, b, 0, d);
    OrZero(f);
  }

  lemma ArchFlagsForm(flags: nat) returns (low: nat)
    ensures low < 8 && ArchFlags(flags) == low + if And(flags, EXECUTABLE) == 0 then NO_EXECUTE else 0
  {
    var present := if And(flags, PRESENT) != 0 then Or(0, PRESENT) else 0;
    var write := if And(flags, READ_WRITE) != 0 then Or(present, READ_WRITE) else present;
    low := if And(flags, USER) != 0 then Or(write, USER) else write;
    assert Or(0, 1) == 1 && Or(0, 2) == 2 && Or(1, 2) == 3;
    assert Or(0, 4) == 4 && Or(1, 4) == 5 && Or(2, 4) == 6 && Or(3, 4) == 7;
    assert low < 8;
    HighOr(low);
  }

  /** `from` with bit `k` set if `on`: what each flag test of `map` adds. */
  lemma AddFlag(flag: nat, k: nat, on: bool, from: nat, j: nat)
    requires flag == Pow2(k)
    ensures BitAt(if on then Or(from, flag) else from, j) == (BitAt(from, j) || (on && j == k))
  {
    Bitwise(from, flag, j);
    PowerBits(k, j);
  }

  /**
    * The flags of an entry are those asked for, bit by bit: present, writable and user as passed,
    * no-execute exactly when executable was not passed, and no other.
    */
  lemma ArchFlagsBits(flags: nat, j: nat)
    ensures BitAt(ArchFlags(flags), j) == if j < 3 then BitAt(flags, j) else j == 63 && !BitAt(flags, 3)
  {
    hide And, Or, BitAt, Pow2;
    Powers();
    assert Pow2(0) == PRESENT && Pow2(1) == READ_WRITE && Pow2(2) == USER && Pow2(3) == EXECUTABLE by { SmallPowers(); }
    TestBit(flags, 0);
    TestBit(flags, 1);
    TestBit(flags, 2);
    TestBit(flags, 3);
    PowerBits(0, j);
    AddFlag(PRESENT, 0, BitAt(flags, 0), 0, j);
    var present := if And(flags, PRESENT) != 0 then Or(0, PRESENT) else 0;
    AddFlag(READ_WRITE, 1, BitAt(flags, 1), present, j);
    var write := if And(flags, READ_WRITE) != 0 then Or(present, READ_WRITE) else present;
    AddFlag(USER, 2, BitAt(flags, 2), write, j);
    var user := if And(flags, USER) != 0 then Or(write, USER) else write;
    AddFlag(NO_EXECUTE, 63, !BitAt(flags, 3), user, j);
  }

  lemma SmallPowers()
    ensures Pow2(0) == 1 && Pow2(1) == 2 && Pow2(2) == 4 && Pow2(3) == 8
  {}

  /** In the entry `map` writes, the low twelve bits and bit 63 are flags and nothing else. */
  lemma LeafFlags(phys: nat, flags: nat, offset: nat, j: nat)
    requires NO_EXECUTE <= offset < WORD_MODULUS && (j < 12 || j == 63)
    ensures BitAt(Leaf(phys, flags, offset), j) == if j < 3 then BitAt(flags, j) else j == 63 && !BitAt(flags, 3)
  {
    hide And, Or, Clear, BitAt, Pow2, ArchFlags;
    ArchFlagsBits(flags, j);
    Bitwise(PageOf(phys, offset), ArchFlags(flags), j);
    Bitwise(Clear(phys, offset), 4095, j);
    Bitwise(phys, offset, j);
    MaskBits(offset, j);
  }

  lemma MaskBits(offset: nat, j: nat)
    requires NO_EXECUTE <= offset < WORD_MODULUS && (j < 12 || j == 63)
    ensures if j < 12 then BitAt(4095, j) else BitAt(offset, j)
  {
    hide And;
    if j == 63 {
      Powers();
      TopBit(offset, 63);
    } else {
      Powers();
      LowBits(12, 4095, j);
    }
  }

  /** The highest bit of a number between two powers of two is set. */
  lemma {:induction false} TopBit(x: nat, k: nat)
    requires Pow2(k) <= x < 2 * Pow2(k)
    ensures BitAt(x, k)
  {
    if k > 0 {
      var half := Pow2(k - 1);
      assert Pow2(k) == 2 * half && half <= x / 2 < 2 * half;
      TopBit(x / 2, k - 1);
    }
  }

  lemma {:induction false} LowBits(k: nat, x: nat, j: nat)
    requires x == Pow2(k) - 1 && j < k
    ensures BitAt(x, j)
  {
    var half := Pow2(k - 1);
    assert x == 2 * half - 1;
    assert x % 2 == 1 && x / 2 == half - 1;
    if j > 0 {
      LowBits(k - 1, half - 1, j - 1);
    }
  }

  lemma HighOr(x: nat)
    requires x < NO_EXECUTE
    ensures Or(x, NO_EXECUTE) == x + NO_EXECUTE
  {
    hide Or, Pow2;
    Powers();
    Splits(63, NO_EXECUTE, 0, x, 1, 0);
    OrZero(x);
    OrZero(1);
  }

  /** What a page address is: a multiple of the page size with no bit of the offset. */
  lemma PageOfForm(x: nat, offset: nat)
    requires x < WORD_MODULUS && NO_EXECUTE <= offset < WORD_MODULUS
    ensures var q := PageOf(x, offset); q % 4096 == 0 && q < NO_EXECUTE && Clear(q, offset) == q
  {
    hide And, Clear, Or, Pow2;
    PageLow(Clear(x, offset));
    ClearTwice(x, offset);
    ClearCommutes(Clear(x, offset), 4095, offset);
    Powers();
    Splits(63, NO_EXECUTE, x / NO_EXECUTE, x % NO_EXECUTE, 1, offset % NO_EXECUTE);
    OneBit(x / NO_EXECUTE);
  }

  lemma OneBit(n: nat)
    requires n < 2
    ensures Clear(n, 1) == 0
  {}

  /**
    * Reading back an entry `map` wrote gives the page it was asked for: the offset, whose bit 63 is
    * set, strips the no-execute flag, and the page mask strips the others.
    */
  lemma LeafReads(phys: nat, flags: nat, offset: nat)
    requires phys < WORD_MODULUS && NO_EXECUTE <= offset < WORD_MODULUS
    ensures PageOf(Leaf(phys, flags, offset), offset) == PageOf(phys, offset)
    ensures Leaf(phys, flags, offset) < WORD_MODULUS
  {
    hide And, Clear, Or, Pow2;
    var q := PageOf(phys, offset);
    PageOfForm(phys, offset);
    var low := ArchFlagsForm(flags);
    var nx: nat := if And(flags, EXECUTABLE) == 0 then 1 else 0;
    LeafForm(q, low, nx);
    var e := q + low + nx * NO_EXECUTE;
    Powers();
    Splits(63, NO_EXECUTE, nx, q + low, 1, offset - NO_EXECUTE);
    Splits(63, NO_EXECUTE, 0, q, 1, offset - NO_EXECUTE);
    OneBit(nx);
    OneBit(0);
    assert Apart(q / 4096, offset - NO_EXECUTE);
    EntryReads(q / 4096, low, offset - NO_EXECUTE);
  }

  /**
    * Why bit 63 of the offset matters: without it a translation is right exactly for pages mapped
    * executable, because nothing strips the no-execute flag.
    */
  lemma LowOffsetLeaks(phys: nat, flags: nat, offset: nat)
    requires phys < NO_EXECUTE && offset < NO_EXECUTE
    ensures PageOf(Leaf(phys, flags, offset), offset) == PageOf(phys, offset) <==> And(flags, EXECUTABLE) != 0
  {
    hide And, Clear, Or, Pow2;
    var q := PageOf(phys, offset);
    PageLow(Clear(phys, offset));
    ClearTwice(phys, offset);
    ClearCommutes(Clear(phys, offset), 4095, offset);
    var low := ArchFlagsForm(flags);
    var nx: nat := if And(flags, EXECUTABLE) == 0 then 1 else 0;
    LeafForm(q, low, nx);
    Powers();
    Splits(63, NO_EXECUTE, nx, q + low, 0, offset);
    ClearNone(nx);
    assert Apart(q / 4096, offset);
    EntryReads(q / 4096, low, offset);
    PageLow(Clear(q + low, offset));
    PageLow(Clear(q + low + nx * NO_EXECUTE, offset));
  }

  lemma LeafForm(q: nat, low: nat, nx: nat)
    requires q % 4096 == 0 && q < NO_EXECUTE && low < 8 && nx < 2
    ensures Or(q, low + nx * NO_EXECUTE) == q + low + nx * NO_EXECUTE
  {
    hide Or, Pow2;
    Powers();
    Splits(12, 4096, q / 4096, 0, nx * (NO_EXECUTE / 4096), low);
    OrZero(low);
    OrZero(q / 4096);
    Powers();
    Splits(51, NO_EXECUTE / 4096, 0, q / 4096, 1, 0);
    OrZero(1);
  }

  /** An offset in the upper half, aligned to it, shares no bit with the addresses of the lower half. */
  lemma HigherHalf(f: nat, offset: nat)
    requires 4096 * f < 0x8000_0000_0000 && offset % 0x8000_0000_0000 == 0
    ensures Apart(f, offset)
  {
    hide And, Or, Pow2;
    Powers();
    Splits(47, 0x8000_0000_0000, 0, 4096 * f, offset / 0x8000_0000_0000, 0);
    ClearNone(4096 * f);
  }
}

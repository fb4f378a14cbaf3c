/** The byte-at-a-time bitmap of kernel/src/libs/bitmap.cpp. */
module Bitmaps {

  /** `(std::size_t)-1`, the answer of a search that found nothing. */
  const NOT_FOUND: nat := 0xFFFF_FFFF_FFFF_FFFF

  function Mask(k: nat): bv8
    requires k < 8
  {
    1 << k
  }

  function Bit(b: bv8, k: nat): bool
    requires k < 8
  {
    b & Mask(k) != 0
  }

  /** Writing one bit of a byte leaves its other bits alone. */
  lemma SetBit(b: bv8, k: nat, j: nat)
    requires k < 8 && j < 8
    ensures Bit(b | Mask(k), j) == (j == k || Bit(b, j))
  {}

  lemma ClearBit(b: bv8, k: nat, j: nat)
    requires k < 8 && j < 8
    ensures Bit(b & !Mask(k), j) == (j != k && Bit(b, j))
  {}

  function LowBitAfterShift(b: bv8, k: nat): bool
    requires k < 8
  {
    (b >> k) & 1 != 0
  }

  /** Shifting a bit down reads it. */
  lemma ShiftBit(b: bv8, k: nat)
    requires k < 8
    ensures LowBitAfterShift(b, k) == Bit(b, k)
  {}

  lemma Solid(k: nat)
    requires k < 8
    ensures Bit(0xFF, k) && !Bit(0, k)
  {}

  /** The bits of a byte sequence, lowest bit of each byte first. */
  function Bits(d: seq<bv8>): (bits: seq<bool>)
    ensures |bits| == 8 * |d|
  {
    seq(8 * |d|, i requires 0 <= i < 8 * |d| => Bit(d[i / 8], i % 8))
  }

  function Raised(b: bv8, k: nat): bv8
    requires k < 8
  {
    b | Mask(k)
  }

  function Lowered(b: bv8, k: nat): bv8
    requires k < 8
  {
    b & !Mask(k)
  }

  function WithBit(b: bv8, k: nat, value: bool): bv8
    requires k < 8
  {
    if value then Raised(b, k) else Lowered(b, k)
  }

  /** Changing bit `index % 8` of byte `index / 8` changes bit `index` and no other. */
  lemma WriteBit(d: seq<bv8>, index: nat, value: bool)
    requires index < 8 * |d|
    ensures Bits(d[index / 8 := WithBit(d[index / 8], index % 8, value)]) == Bits(d)[index := value]
  {
    var w := WithBit(d[index / 8], index % 8, value);
    var after := Bits(d[index / 8 := w]);
    forall i | 0 <= i < |after|
      ensures after[i] == Bits(d)[index := value][i]
    {
      WriteBitAt(d, index, value, i);
    }
  }

  lemma WriteBitAt(d: seq<bv8>, index: nat, value: bool, i: nat)
    requires index < 8 * |d| && i < 8 * |d|
    ensures Bits(d[index / 8 := WithBit(d[index / 8], index % 8, value)])[i] == if i == index then value else Bits(d)[i]
  {
    hide Bit, Mask, Bits, WithBit;
    var k := index / 8;
    var w := WithBit(d[k], index % 8, value);
    BitsAt(d, i);
    BitsAt(d[k := w], i);
    WithBitAt(d[k], index % 8, value, i % 8);
    assert i == index <==> i / 8 == k && i % 8 == index % 8;
  }

  lemma BitsAt(d: seq<bv8>, i: nat)
    requires i < 8 * |d|
    ensures Bits(d)[i] == Bit(d[i / 8], i % 8)
  {}

  lemma WithBitAt(b: bv8, k: nat, value: bool, j: nat)
    requires k < 8 && j < 8
    ensures Bit(WithBit(b, k, value), j) == if j == k then value else Bit(b, j)
  {
    hide Bit, Mask;
    SetBit(b, k, j);
    ClearBit(b, k, j);
  }

  /** The byte made up of `value`. */
  function Solidly(value: bool): bv8 {
    if value then 0xFF else 0
  }

  /** The `n` bits from `lo` on are all `value`. */
  ghost predicate Run(bits: seq<bool>, lo: nat, n: nat, value: bool) {
    lo + n <= |bits| && forall i :: lo <= i < lo + n ==> bits[i] == value
  }

  /** `bits` with `[lo, hi)` overwritten by `value`. */
  function Painted(bits: seq<bool>, lo: nat, hi: nat, value: bool): (r: seq<bool>)
    ensures |r| == |bits|
  {
    seq(|bits|, i requires 0 <= i < |bits| => if lo <= i < hi then value else bits[i])
  }

  /** Painting bit after bit, or byte after byte, paints the whole stretch. */
  lemma PaintedOn(bits: seq<bool>, lo: nat, mid: nat, hi: nat, value: bool)
    requires lo <= mid <= hi
    ensures Painted(Painted(bits, lo, mid, value), mid, hi, value) == Painted(bits, lo, hi, value)
  {}

  lemma PaintedNot(bits: seq<bool>, lo: nat, hi: nat, value: bool)
    ensures lo >= hi ==> Painted(bits, lo, hi, value) == bits
  {}

  lemma PaintedBit(bits: seq<bool>, i: nat, value: bool)
    requires i < |bits|
    ensures Painted(bits, i, i + 1, value) == bits[i := value]
  {}

  /** Overwriting a byte with all ones, or zeros, paints its eight bits. */
  lemma PaintedByte(d: seq<bv8>, k: nat, value: bool)
    requires k < |d|
    ensures Bits(d[k := if value then 0xFF else 0]) == Painted(Bits(d), 8 * k, 8 * k + 8, value)
  {
    hide Bit;
    var after := Bits(d[k := if value then 0xFF else 0]);
    forall i | 0 <= i < |after|
      ensures after[i] == Painted(Bits(d), 8 * k, 8 * k + 8, value)[i]
    {
      Solid(i % 8);
    }
  }

  /**
    * The bytes a search looks at, as it reads them: only the first `size / 8`, and a search for
    * clear bits passes over every byte that equals 1 as if it held no clear bit.
    */
  function Seen(d: seq<bv8>, size: nat, value: bool): (s: seq<bv8>)
    requires size / 8 <= |d|
    ensures |s| == size / 8
  {
    seq(size / 8, i requires 0 <= i < size / 8 => if !value && d[i] == 1 then 0xFF else d[i])
  }

  /** Whatever a search sees as a run is one, so skipping can only lose runs. */
  lemma SeenSound(d: seq<bv8>, size: nat, value: bool, lo: nat, n: nat)
    requires size / 8 <= |d| && Run(Bits(Seen(d, size, value)), lo, n, value)
    ensures Run(Bits(d), lo, n, value)
  {
    forall i | lo <= i < lo + n
      ensures Bits(d)[i] == value
    {
      assert Bits(Seen(d, size, value))[i] == value;
      Solid(i % 8);
    }
  }

  /** A search for set bits skips nothing. */
  lemma SeenSet(d: seq<bv8>, size: nat)
    requires size / 8 <= |d|
    ensures Bits(Seen(d, size, true)) == Bits(d)[..8 * (size / 8)]
  {
    assert Seen(d, size, true) == d[..size / 8];
  }

  /**
    * What a search promises about its answer `r`: it is a run, every run it could have met earlier
    * overlaps it, and it says "not found" exactly when it could have met none.
    */
  ghost predicate Found(bits: seq<bool>, n: nat, value: bool, r: nat) {
    if r == NOT_FOUND then forall s: nat :: !Run(bits, s, n, value)
    else Run(bits, r, n, value) && forall s: nat :: s < r && Run(bits, s, n, value) ==> r < s + n
  }

  /**
    * Up to bit `pos` no run of `n` has ended, and the last `count` bits, no more, are `value`.
    */
  ghost predicate Searched(bits: seq<bool>, n: nat, value: bool, pos: nat, count: nat) {
    && count < n && count <= pos <= |bits|
    && Run(bits, pos - count, count, value)
    && (count < pos ==> bits[pos - count - 1] != value)
    && forall s: nat :: s + n <= pos ==> !Run(bits, s, n, value)
  }

  lemma SearchStart(bits: seq<bool>, n: nat, value: bool)
    requires 1 <= n
    ensures Searched(bits, n, value, 0, 0)
  {}

  /** Nothing is left to read. */
  lemma SearchEnd(bits: seq<bool>, n: nat, value: bool, count: nat)
    requires Searched(bits, n, value, |bits|, count)
    ensures Found(bits, n, value, NOT_FOUND)
  {}

  /** Reading one more bit. */
  lemma ReadBit(bits: seq<bool>, n: nat, value: bool, pos: nat, count: nat)
    requires Searched(bits, n, value, pos, count) && pos < |bits|
    ensures bits[pos] != value ==> Searched(bits, n, value, pos + 1, 0)
    ensures bits[pos] == value && count + 1 < n ==> Searched(bits, n, value, pos + 1, count + 1)
    ensures bits[pos] == value && count + 1 == n && n < NOT_FOUND && |bits| < NOT_FOUND ==> Found(bits, n, value, pos - count)
  {
    forall s: nat | s + n == pos + 1 && Run(bits, s, n, value)
      ensures bits[pos] == value && s == pos - count && count + 1 == n
    {
      assert bits[s + n - 1] == value;
      assert pos - count <= s by {
        assert count < pos ==> pos - count - 1 < s;
      }
    }
  }

  /** Reading a whole byte of bits that are not `value`. */
  lemma ReadMiss(bits: seq<bool>, n: nat, value: bool, pos: nat, count: nat)
    requires Searched(bits, n, value, pos, count) && pos + 8 <= |bits|
    requires Run(bits, pos, 8, !value)
    ensures Searched(bits, n, value, pos + 8, 0)
  {
    forall s: nat | pos < s + n <= pos + 8
      ensures !Run(bits, s, n, value)
    {
      assert bits[s + n - 1] == !value;
    }
  }

  /** Reading a whole byte of bits that are `value`. */
  lemma ReadHit(bits: seq<bool>, n: nat, value: bool, pos: nat, count: nat)
    requires Searched(bits, n, value, pos, count) && pos + 8 <= |bits| < NOT_FOUND
    requires Run(bits, pos, 8, value)
    ensures n < 8 ==> Found(bits, n, value, pos)
    ensures count + 8 < n ==> Searched(bits, n, value, pos + 8, count + 8)
    ensures count + 8 >= n ==> Found(bits, n, value, pos - count)
  {
    forall s: nat | pos < s + n && s < pos - count
      ensures !Run(bits, s, n, value)
    {
      assert s <= pos - count - 1 < s + n;
    }
  }

  class Bitmap {
    const data: array<bv8>
    const size: nat

    /** The backing bytes cover the whole bytes among the first `size` bits. */
    ghost predicate Valid() {
      size / 8 <= data.Length && size < NOT_FOUND
    }

    ghost function Contents(): seq<bool>
      reads data
    {
      Bits(data[..])
    }

    constructor Init(data: array<bv8>, size: nat)
      requires size / 8 <= data.Length && size < NOT_FOUND
      modifies data
      ensures Valid() && this.data == data && this.size == size
      ensures Contents() == Painted(old(Bits(data[..])), 0, 8 * (size / 8), false)
    {
      this.data := data;
      this.size := size;
      new;
      for i := 0 to size / 8
        invariant forall j :: 0 <= j < data.Length ==> data[j] == if j < i then 0 else old(data[j])
      {
        data[i] := 0;
      }
      forall i | 0 <= i < 8 * data.Length
        ensures Contents()[i] == Painted(old(Bits(data[..])), 0, 8 * (size / 8), false)[i]
      {
        Solid(i % 8);
      }
    }

    method Get(index: nat) returns (value: bool)
      requires index < 8 * data.Length
      ensures value == Contents()[index]
    {
      var byteIndex, bitIndex := index / 8, index % 8;
      value := data[byteIndex] & Mask(bitIndex) != 0;
    }

    method Set(index: nat, value: bool)
      requires index < 8 * data.Length
      modifies data
      ensures Contents() == old(Contents())[index := value]
    {
      hide Raised, Lowered, Bits;
      WriteBit(data[..], index, value);
      var byteIndex, bitIndex := index / 8, index % 8;
      if value {
        data[byteIndex] := Raised(data[byteIndex], bitIndex);
      } else {
        data[byteIndex] := Lowered(data[byteIndex], bitIndex);
      }
      assert data[..] == old(data[..])[byteIndex := WithBit(old(data[byteIndex]), bitIndex, value)];
    }

    /**
      * For a length of 0 the search answers with the first byte made up of `value`, which the source
      * returns before it compares anything with the length.
      */
    method FindRange(value: bool, length: nat) returns (r: nat)
      requires Valid() && length < NOT_FOUND
      ensures length > 0 ==> Found(Bits(Seen(data[..], size, value)), length, value, r)
      ensures length == 0 ==> if r == NOT_FOUND then forall k | 0 <= k < size / 8 :: data[k] != Solidly(value)
                              else r % 8 == 0 && r / 8 < size / 8 && data[r / 8] == Solidly(value)
                                   && forall k | 0 <= k < r / 8 :: data[k] != Solidly(value)
    {
      hide Bit, Mask, LowBitAfterShift, Bits, Seen, Run, Found, Searched;
      if length > 0 {
        SearchStart(Bits(Seen(data[..], size, value)), length, value);
      }
      var count: nat, startIndex: nat := 0, 0;
      var byteMatch: bv8 := if value then 0xFF else 0;
      var miss: bv8 := if byteMatch == 0 then 1 else 0;
      ghost var bits := Bits(Seen(data[..], size, value));
      var byteIndex := 0;
      while byteIndex < size / 8
        invariant byteIndex <= size / 8
        invariant length > 0 ==> count <= 8 * byteIndex && count < length && Searched(bits, length, value, 8 * byteIndex, count)
        invariant length > 0 && count > 0 ==> startIndex == 8 * byteIndex - count
        invariant length == 0 ==> forall k | 0 <= k < byteIndex :: data[k] != byteMatch
      {
        var byte := data[byteIndex];
        if byte == miss {
          if length > 0 {
            SkippedByte(byteIndex, value);
            ReadMiss(bits, length, value, 8 * byteIndex, count);
          }
          count := 0;
        } else if byte == byteMatch {
          if length > 0 {
            FullByte(byteIndex, value);
            ReadHit(bits, length, value, 8 * byteIndex, count);
          }
          if length < 8 {
            return byteIndex * 8;
          }
          if count == 0 {
            startIndex := byteIndex * 8;
          }
          count := count + 8;
          if count >= length {
            return startIndex;
          }
        } else {
          for bit := 0 to 8
            invariant length > 0 ==> count <= 8 * byteIndex + bit && count < length
            invariant length > 0 ==> Searched(bits, length, value, 8 * byteIndex + bit, count)
            invariant length > 0 && count > 0 ==> startIndex == 8 * byteIndex + bit - count
          {
            var bitValue := LowBitAfterShift(byte, bit);
            if length > 0 {
              MixedByte(byteIndex, bit, value);
              ReadBit(bits, length, value, 8 * byteIndex + bit, count);
            }
            if bitValue == value {
              if count == 0 {
                startIndex := byteIndex * 8 + bit;
              }
              count := count + 1;
              if count == length {
                return startIndex;
              }
            } else {
              count := 0;
            }
          }
        }
        byteIndex := byteIndex + 1;
      }
      if length > 0 {
        SearchEnd(bits, length, value, count);
      }
      return NOT_FOUND;
    }

    lemma MixedByte(k: nat, bit: nat, value: bool)
      requires Valid() && k < size / 8 && bit < 8 && data[k] != if value then 0 else 1
      ensures |Bits(Seen(data[..], size, value))| == 8 * (size / 8)
      ensures Bits(Seen(data[..], size, value))[8 * k + bit] == LowBitAfterShift(data[k], bit)
    {
      hide Bit, LowBitAfterShift;
      ShiftBit(data[k], bit);
      assert (8 * k + bit) / 8 == k && (8 * k + bit) % 8 == bit;
    }

    lemma SkippedByte(k: nat, value: bool)
      requires Valid() && k < size / 8 && data[k] == if value then 0 else 1
      ensures Run(Bits(Seen(data[..], size, value)), 8 * k, 8, !value)
    {
      forall i | 8 * k <= i < 8 * k + 8
        ensures Bits(Seen(data[..], size, value))[i] == !value
      {
        assert i / 8 == k;
        Solid(i % 8);
      }
    }

    lemma FullByte(k: nat, value: bool)
      requires Valid() && k < size / 8 && data[k] == if value then 0xFF else 0
      ensures Run(Bits(Seen(data[..], size, value)), 8 * k, 8, value)
    {
      forall i | 8 * k <= i < 8 * k + 8
        ensures Bits(Seen(data[..], size, value))[i] == value
      {
        assert i / 8 == k;
        Solid(i % 8);
      }
    }

    method SetRange(start: nat, end: nat, value: bool)
      requires start < end && start < size ==> end <= 8 * data.Length
      modifies data
      ensures Contents() == if start < size then Painted(old(Contents()), start, end, value) else old(Contents())
    {
      hide Bits, Painted;
      ghost var before := Contents();
      PaintedNot(before, start, end, value);
      if start >= end || start >= size {
        return;
      }
      var startWord, endWord := (start + 7) / 8, end / 8;
      var i := start;
      PaintedNot(before, start, start, value);
      while i < startWord * 8 && i < end
        invariant start <= i <= end && (i <= startWord * 8 || i == start)
        invariant Contents() == Painted(before, start, i, value)
      {
        PaintedBit(Contents(), i, value);
        PaintedOn(before, start, i, i + 1, value);
        Set(i, value);
        i := i + 1;
      }
      if startWord > endWord {
        return;
      }
      var fillValue: bv8 := if value then 0xFF else 0;
      i := startWord;
      while i < endWord
        invariant startWord <= i <= endWord
        invariant Contents() == Painted(before, start, i * 8, value)
      {
        PaintedByte(data[..], i, value);
        PaintedOn(before, start, i * 8, i * 8 + 8, value);
        data[i] := fillValue;
        i := i + 1;
      }
      i := endWord * 8;
      while i < end
        invariant endWord * 8 <= i <= end
        invariant Contents() == Painted(before, start, i, value)
      {
        PaintedBit(Contents(), i, value);
        PaintedOn(before, start, i, i + 1, value);
        Set(i, value);
        i := i + 1;
      }
    }
  }

  /**
    * A search for set bits is exact: "not found" exactly when the whole bytes of the bitmap hold no
    * run of that length.
    */
  lemma FindSetExact(d: seq<bv8>, size: nat, n: nat, r: nat)
    requires size / 8 <= |d| && size < NOT_FOUND && n >= 1
    requires Found(Bits(Seen(d, size, true)), n, true, r)
    ensures r == NOT_FOUND <==> forall s: nat | s + n <= 8 * (size / 8) :: !Run(Bits(d), s, n, true)
    ensures r != NOT_FOUND ==> r + n <= 8 * (size / 8) && Run(Bits(d), r, n, true)
    ensures r != NOT_FOUND && n == 1 ==> forall i: nat | i < r :: !Bits(d)[i]
  {
    SeenSet(d, size);
    var bits := Bits(Seen(d, size, true));
    forall s: nat | s + n <= 8 * (size / 8)
      ensures Run(Bits(d), s, n, true) == Run(bits, s, n, true)
    {
      assert forall i :: s <= i < s + n ==> bits[i] == Bits(d)[i];
    }
    if r != NOT_FOUND && n == 1 {
      forall i: nat | i < r
        ensures !Bits(d)[i]
      {
        assert bits[i] == Bits(d)[i];
        assert !Run(bits, i, 1, true);
      }
    }
  }

  /**
    * A search for clear bits can miss a run: the bytes 0x01, 0xFF hold seven clear bits in a row,
    * yet the only answer a search for one clear bit can give is "not found".
    */
  lemma FindClearMisses(r: nat)
    requires Found(Bits(Seen([1, 0xFF], 16, false)), 1, false, r)
    ensures r == NOT_FOUND && Run(Bits([1, 0xFF]), 1, 7, false)
  {
    var bits := Bits(Seen([1, 0xFF], 16, false));
    forall i: nat | i < 16
      ensures bits[i]
    {
      Solid(i % 8);
    }
    forall i | 1 <= i < 8
      ensures !Bits([1, 0xFF])[i]
    {
      Solid(i);
    }
    forall s: nat
      ensures !Run(bits, s, 1, false)
    {
      if s < 16 {
        assert bits[s];
      }
    }
  }

  /**
    * When a search for clear bits is exact: it answers "not found" wrongly exactly when every clear
    * run of that length touches a byte equal to 1.
    */
  lemma FindClearExact(d: seq<bv8>, size: nat, n: nat, r: nat)
    requires size / 8 <= |d| && size < NOT_FOUND && n >= 1
    requires Found(Bits(Seen(d, size, false)), n, false, r)
    ensures r != NOT_FOUND ==> r + n <= 8 * (size / 8) && Run(Bits(d), r, n, false)
    ensures r == NOT_FOUND <==> forall s: nat | s + n <= 8 * (size / 8) && Run(Bits(d), s, n, false) ::
                                  exists i :: s <= i < s + n && d[i / 8] == 1
  {
    var bits := Bits(Seen(d, size, false));
    forall s: nat | s + n <= 8 * (size / 8)
      ensures Run(bits, s, n, false) <==> Run(Bits(d), s, n, false) && forall i :: s <= i < s + n ==> d[i / 8] != 1
    {
      if Run(bits, s, n, false) {
        SeenSound(d, size, false, s, n);
        forall i | s <= i < s + n
          ensures d[i / 8] != 1
        {
          assert !bits[i];
          Solid(i % 8);
        }
      } else if Run(Bits(d), s, n, false) && forall i :: s <= i < s + n ==> d[i / 8] != 1 {
        forall i | s <= i < s + n
          ensures !bits[i]
        {
          assert !Bits(d)[i];
        }
      }
    }
    if r != NOT_FOUND {
      SeenSound(d, size, false, r, n);
    }
  }
}

/** Bitwise operators on machine words held as natural numbers, one bit at a time. */
module Masks {

  import opened Basics

  /** `x & m`. */
  function And(x: nat, m: nat): nat {
    if x == 0 || m == 0 then 0 else 2 * And(x / 2, m / 2) + if x % 2 == 1 && m % 2 == 1 then 1 else 0
  }

  /** `x & ~m`. */
  function Clear(x: nat, m: nat): (r: nat)
    ensures r <= x
  {
    if x == 0 then 0 else 2 * Clear(x / 2, m / 2) + if m % 2 == 1 then 0 else x % 2
  }

  /** `x | y`. */
  function Or(x: nat, y: nat): nat {
    if x == 0 then y else if y == 0 then x else 2 * Or(x / 2, y / 2) + if x % 2 == 1 || y % 2 == 1 then 1 else 0
  }

  function BitAt(x: nat, k: nat): bool {
    if k == 0 then x % 2 == 1 else BitAt(x / 2, k - 1)
  }

  /** Bit by bit, the three functions are the operators they stand for. */
  lemma {:induction false} Bitwise(x: nat, y: nat, k: nat)
    ensures BitAt(And(x, y), k) == (BitAt(x, k) && BitAt(y, k))
    ensures BitAt(Clear(x, y), k) == (BitAt(x, k) && !BitAt(y, k))
    ensures BitAt(Or(x, y), k) == (BitAt(x, k) || BitAt(y, k))
  {
    hide And, Clear, Or;
    AndStep(x, y);
    ClearStep(x, y);
    OrStep(x, y);
    if k > 0 {
      Bitwise(x / 2, y / 2, k - 1);
    }
  }

  /** Masking with a power of two tests one bit. */
  lemma {:induction false} TestBit(x: nat, k: nat)
    ensures And(x, Pow2(k)) == if BitAt(x, k) then Pow2(k) else 0
  {
    if k == 0 {
      ClearNone(x / 2);
    } else {
      TestBit(x / 2, k - 1);
    }
  }

  /** Or-ing or masking out a power of two sets or clears that bit and no other. */
  lemma {:induction false} OneBit(x: nat, k: nat)
    ensures Or(x, Pow2(k)) == x + if BitAt(x, k) then 0 else Pow2(k)
    ensures Clear(x, Pow2(k)) == x - if BitAt(x, k) then Pow2(k) else 0
  {
    hide Or, Clear;
    OrStep(x, Pow2(k));
    ClearStep(x, Pow2(k));
    if k == 0 {
      ClearNone(x / 2);
      OrNone(x / 2);
    } else {
      OneBit(x / 2, k - 1);
    }
  }

  lemma OrNone(x: nat)
    ensures Or(x, 0) == x
  {}

  lemma {:induction false} PowerBits(k: nat, j: nat)
    ensures BitAt(Pow2(k), j) == (j == k)
    ensures !BitAt(0, j)
  {
    if j > 0 {
      PowerBits(if k > 0 then k - 1 else 0, j - 1);
    }
  }

  lemma {:induction false} ClearNone(x: nat)
    ensures Clear(x, 0) == x && And(x, 0) == 0
  {
    if x > 0 {
      ClearNone(x / 2);
    }
  }

  lemma {:induction false} AndSelf(x: nat)
    ensures And(x, x) == x
  {
    if x > 0 {
      AndSelf(x / 2);
    }
  }

  lemma ClearNull(m: nat)
    ensures Clear(0, m) == 0
  {}

  lemma {:induction false} ClearTwice(x: nat, m: nat)
    ensures Clear(Clear(x, m), m) == Clear(x, m)
  {
    hide Clear;
    ClearStep(x, m);
    ClearStep(Clear(x, m), m);
    if x > 0 {
      ClearTwice(x / 2, m / 2);
    } else {
      ClearNull(m);
    }
  }

  lemma {:induction false} ClearCommutes(x: nat, m: nat, n: nat)
    ensures Clear(Clear(x, m), n) == Clear(Clear(x, n), m)
  {
    if x > 0 {
      ClearCommutes(x / 2, m / 2, n / 2);
      assert Clear(x, m) / 2 == Clear(x / 2, m / 2);
      assert Clear(x, n) / 2 == Clear(x / 2, n / 2);
    }
  }

  lemma HalfSplit(a: nat, b: nat, p: nat, q: nat)
    requires q == 2 * p && p > 0 && b < q
    ensures a * q + b == 2 * (a * p) + b
    ensures (a * q + b) / 2 == a * p + b / 2 && (a * q + b) % 2 == b % 2 && b / 2 < p
  {
    assert a * q == 2 * (a * p);
  }

  lemma Zeros()
    ensures Clear(0, 0) == 0 && And(0, 0) == 0 && Or(0, 0) == 0
  {}

  /** The operators work on the bits above position `k` and below it separately. */
  lemma {:induction false} Splits(k: nat, p: nat, a: nat, b: nat, c: nat, d: nat)
    requires p == Pow2(k) && b < p && d < p
    ensures Clear(a * p + b, c * p + d) == Clear(a, c) * p + Clear(b, d)
    ensures And(a * p + b, c * p + d) == And(a, c) * p + And(b, d)
    ensures Or(a * p + b, c * p + d) == Or(a, c) * p + Or(b, d)
  {
    hide And, Or, Clear;
    if k == 0 {
      assert a * p == a && c * p == c;
      Zeros();
    } else {
      var h := p / 2;
      HalfSplit(a, b, h, p);
      HalfSplit(c, d, h, p);
      Splits(k - 1, h, a, b / 2, c, d / 2);
      SplitStep(a * p + b, c * p + d, b, d, Clear(a, c) * h, And(a, c) * h, Or(a, c) * h);
      Twice(Clear(a, c), h, p);
      Twice(And(a, c), h, p);
      Twice(Or(a, c), h, p);
    }
  }

  lemma Twice(n: nat, h: nat, p: nat)
    requires p == 2 * h
    ensures n * p == 2 * (n * h)
  {}

  lemma SplitStep(x: nat, y: nat, b: nat, d: nat, clear: nat, and: nat, or: nat)
    requires x % 2 == b % 2 && y % 2 == d % 2
    requires Clear(x / 2, y / 2) == clear + Clear(b / 2, d / 2)
    requires And(x / 2, y / 2) == and + And(b / 2, d / 2)
    requires Or(x / 2, y / 2) == or + Or(b / 2, d / 2)
    ensures Clear(x, y) == 2 * clear + Clear(b, d)
    ensures And(x, y) == 2 * and + And(b, d)
    ensures Or(x, y) == 2 * or + Or(b, d)
  {
    hide And, Or, Clear;
    ClearStep(x, y);
    AndStep(x, y);
    OrStep(x, y);
    ClearStep(b, d);
    AndStep(b, d);
    OrStep(b, d);
  }

  lemma ClearStep(x: nat, m: nat)
    ensures Clear(x, m) == 2 * Clear(x / 2, m / 2) + if m % 2 == 1 then 0 else x % 2
  {}

  lemma AndStep(x: nat, m: nat)
    ensures And(x, m) == 2 * And(x / 2, m / 2) + if x % 2 == 1 && m % 2 == 1 then 1 else 0
  {}

  lemma OrStep(x: nat, y: nat)
    ensures Or(x, y) == 2 * Or(x / 2, y / 2) + if x % 2 == 1 || y % 2 == 1 then 1 else 0
  {}

  lemma OnesStep(b: nat, m: nat)
    requires m % 2 == 1 && Clear(b / 2, m / 2) == 0 && And(b / 2, m / 2) == b / 2
    ensures Clear(b, m) == 0 && And(b, m) == b
  {
    hide Clear, And;
    ClearStep(b, m);
    AndStep(b, m);
  }

  /** A mask of `k` ones keeps, or clears, exactly the low `k` bits. */
  lemma {:induction false} LowOnes(k: nat, b: nat)
    requires b < Pow2(k)
    ensures Clear(b, Pow2(k) - 1) == 0 && And(b, Pow2(k) - 1) == b
  {
    if k > 0 {
      var m := Pow2(k) - 1;
      assert m / 2 == Pow2(k - 1) - 1 && m % 2 == 1;
      LowOnes(k - 1, b / 2);
      OnesStep(b, m);
    }
  }

  /** Masking out `k` low ones rounds down to a multiple of 2^k. */
  lemma RoundDown(k: nat, p: nat, a: nat, b: nat)
    requires p == Pow2(k) && b < p
    ensures Clear(a * p + b, p - 1) == a * p
  {
    hide Clear, Pow2;
    Splits(k, p, a, b, 0, p - 1);
    LowOnes(k, b);
    ClearNone(a);
  }
}

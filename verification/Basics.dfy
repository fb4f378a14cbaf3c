/** Small notions several parts share. */
module Basics {

  // 2^64, the modulus of a machine word.
  const WORD_MODULUS: nat := 0x1_0000_0000_0000_0000

  function Min(x: nat, y: nat): nat { if x <= y then x else y }

  ghost predicate NoDup<T>(l: seq<T>) {
    forall i, j :: 0 <= i < j < |l| ==> l[i] != l[j]
  }

  function Pow2(k: nat): (p: nat)
    ensures p > 0
  {
    if k == 0 then 1 else 2 * Pow2(k - 1)
  }

  lemma {:induction false} PowerSum(k: nat, n: nat)
    ensures Pow2(k + n) == Pow2(k) * Pow2(n)
  {
    if n > 0 {
      PowerSum(k, n - 1);
    }
  }

  lemma Powers()
    ensures Pow2(12) == 0x1000 && Pow2(21) == 0x20_0000 && Pow2(36) == 0x10_0000_0000
    ensures Pow2(47) == 0x8000_0000_0000 && Pow2(51) == 0x8_0000_0000_0000 && Pow2(63) == 0x8000_0000_0000_0000
  {
    assert Pow2(12) == 0x1000 && Pow2(3) == 8 && Pow2(4) == 16 && Pow2(11) == 0x800;
    assert Pow2(9) == 0x200;
    PowerSum(12, 9);
    PowerSum(12, 12);
    PowerSum(24, 12);
    PowerSum(36, 11);
    PowerSum(47, 4);
    PowerSum(51, 12);
  }
}

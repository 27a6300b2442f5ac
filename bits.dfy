/** Python's bitwise operators on non-negative integers, defined bit by bit, and the
    facts about them that the PalmDOC field extraction relies on. */
module Bits {
  /** 2 ** k */
  function Pow2(k: nat): (p: nat)
    ensures p >= 1
  {
    if k == 0 then 1 else 2 * Pow2(k - 1)
  }

  /** `a << k` */
  function ShiftLeft(a: nat, k: nat): nat {
    a * Pow2(k)
  }

  /** `a >> k` */
  function ShiftRight(a: nat, k: nat): nat {
    if k == 0 then a else ShiftRight(a / 2, k - 1)
  }

  /** `a & b`: bit i of the result is set when it is set in both. */
  function And(a: nat, b: nat): nat
    decreases a
  {
    if a == 0 || b == 0 then 0
    else 2 * And(a / 2, b / 2) + (if a % 2 == 1 && b % 2 == 1 then 1 else 0)
  }

  /** `a | b`: bit i of the result is set when it is set in either. */
  function Or(a: nat, b: nat): nat
    decreases a + b
  {
    if a == 0 then b
    else if b == 0 then a
    else 2 * Or(a / 2, b / 2) + (if a % 2 == 1 || b % 2 == 1 then 1 else 0)
  }

  /** `a ^ b`: bit i of the result is set when it is set in exactly one. */
  function Xor(a: nat, b: nat): nat
    decreases a + b
  {
    if a == 0 then b
    else if b == 0 then a
    else 2 * Xor(a / 2, b / 2) + (if a % 2 != b % 2 then 1 else 0)
  }

  /** A mask of the k low bits keeps exactly the part below 2 ** k. */
  lemma {:induction false} AndLowMask(h: nat, y: nat, k: nat)
    requires y < Pow2(k)
    ensures And(h * Pow2(k) + y, Pow2(k) - 1) == y
  {
    if k > 0 {
      var p := Pow2(k - 1);
      assert h * Pow2(k) == 2 * (h * p);
      var x := h * Pow2(k) + y;
      if x != 0 {
        assert x / 2 == h * p + y / 2 && x % 2 == y % 2;
        AndLowMask(h, y / 2, k - 1);
      }
    }
  }

  /** Shifting right by k drops exactly the part below 2 ** k. */
  lemma {:induction false} ShiftRightDrops(h: nat, y: nat, k: nat)
    requires y < Pow2(k)
    ensures ShiftRight(h * Pow2(k) + y, k) == h
  {
    if k > 0 {
      var p := Pow2(k - 1);
      assert h * Pow2(k) == 2 * (h * p);
      assert (h * Pow2(k) + y) / 2 == h * p + y / 2;
      ShiftRightDrops(h, y / 2, k - 1);
    }
  }

  /** Or-ing a value below 2 ** k into a multiple of 2 ** k adds it. */
  lemma {:induction false} OrDisjoint(h: nat, y: nat, k: nat)
    requires y < Pow2(k)
    ensures Or(h * Pow2(k), y) == h * Pow2(k) + y
  {
    if k > 0 && h * Pow2(k) != 0 && y != 0 {
      var p := Pow2(k - 1);
      assert h * Pow2(k) == 2 * (h * p);
      OrDisjoint(h, y / 2, k - 1);
    }
  }

  /** Xor with the top bit of a value clears it. */
  lemma {:induction false} XorTopBit(a: nat, k: nat)
    requires Pow2(k) <= a < 2 * Pow2(k)
    ensures Xor(a, Pow2(k)) == a - Pow2(k)
  {
    if k > 0 {
      XorTopBit(a / 2, k - 1);
    }
  }
}

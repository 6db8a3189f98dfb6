/** Powers of two and the bitwise "and" that picks a ring slot. */
module Bits {
  import Modular

  function Pow2(p: nat): (r: nat)
    ensures r >= 1
  {
    if p == 0 then 1 else 2 * Pow2(p - 1)
  }

  lemma {:induction false} Pow2Grows(p: nat)
    ensures Pow2(p) > p
  {
    if p == 0 {
    } else {
      Pow2Grows(p - 1);
    }
  }

  lemma {:induction false} Pow2Add(p: nat, q: nat)
    ensures Pow2(p + q) == Pow2(p) * Pow2(q)
  {
    if p == 0 {
    } else {
      Pow2Add(p - 1, q);
      assert Pow2(p + q) == 2 * Pow2(p - 1 + q);
      assert Pow2(p) * Pow2(q) == 2 * (Pow2(p - 1) * Pow2(q));
    }
  }

  lemma Pow2Word()
    ensures Pow2(32) == 0x1_0000_0000 && Pow2(64) == 0x1_0000_0000_0000_0000
  {
    hide Pow2;
    Pow2Nibble();
    Pow2Add(4, 4);
    Pow2Add(8, 8);
    Pow2Add(16, 16);
    Pow2Add(32, 32);
  }

  lemma Pow2Nibble()
    ensures Pow2(4) == 16
  {
    assert Pow2(2) == 4;
  }

  /** C's `a & b` on unsigned operands of any width. */
  function BitAnd(a: nat, b: nat): nat
    decreases a
  {
    if a == 0 || b == 0 then 0 else (a % 2) * (b % 2) + 2 * BitAnd(a / 2, b / 2)
  }

  lemma HalvedRemainder(t: nat, m: nat)
    requires m > 0
    ensures t % (2 * m) == 2 * ((t / 2) % m) + t % 2
  {
    var q, r := (t / 2) / m, (t / 2) % m;
    assert t / 2 == q * m + r;
    assert q * (2 * m) == 2 * (q * m);
    Modular.ModUnique(t, 2 * m, q, 2 * r + t % 2);
  }

  lemma BitAndNothing(a: nat)
    ensures BitAnd(a, 0) == 0
  {}

  lemma BitAndOdd(a: nat, m: nat)
    requires m > 0
    ensures BitAnd(a, 2 * m - 1) == 2 * BitAnd(a / 2, m - 1) + a % 2
  {
    var b := 2 * m - 1;
    assert b / 2 == m - 1 && b % 2 == 1;
  }

  /** Masking with a power of two minus one is the remainder. */
  lemma {:induction false} MaskIsMod(t: nat, p: nat)
    ensures BitAnd(t, Pow2(p) - 1) == t % Pow2(p)
    decreases p
  {
    hide BitAnd;
    if p == 0 {
      BitAndNothing(t);
    } else {
      var m := Pow2(p - 1);
      HalvedRemainder(t, m);
      MaskIsMod(t / 2, p - 1);
      BitAndOdd(t, m);
    }
  }
}

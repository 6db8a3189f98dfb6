/** Residues: the one place where non-linear arithmetic is done. */
module Modular {

  lemma SmallMultiple(d: int, n: int)
    requires n > 0
    ensures -n < d * n < n ==> d == 0
  {}

  lemma ModUnique(a: int, n: int, q: int, r: int)
    requires n > 0 && a == q * n + r && 0 <= r < n
    ensures a % n == r && a / n == q
  {
    var d := a / n - q;
    assert d * n == r - a % n by {
      assert a == (a / n) * n + a % n;
      assert d * n == (a / n) * n - q * n;
    }
    SmallMultiple(d, n);
  }

  lemma ModShift(a: int, k: int, n: int)
    requires n > 0
    ensures (a + k * n) % n == a % n
  {
    assert a + k * n == (a / n + k) * n + a % n;
    ModUnique(a + k * n, n, a / n + k, a % n);
  }

  /** Two indices less than n apart share a residue only when they are equal. */
  lemma CloseCongruent(i: int, j: int, n: int)
    requires n > 0 && i % n == j % n && -n < i - j < n
    ensures i == j
  {
    var d := i / n - j / n;
    assert i - j == d * n by {
      assert i == (i / n) * n + i % n;
      assert j == (j / n) * n + j % n;
    }
    SmallMultiple(d, n);
  }

  /** The first index at or after `hand` that shares t's residue. */
  function NextVisit(hand: nat, t: nat, n: nat): (i: nat)
    requires n > 0
    ensures hand <= i < hand + n
  {
    hand + (t - hand) % n
  }

  lemma NextVisitCongruent(hand: nat, t: nat, n: nat)
    requires n > 0
    ensures NextVisit(hand, t, n) % n == t % n
  {
    var k := (t - hand) / n;
    assert t - hand == k * n + (t - hand) % n;
    assert NextVisit(hand, t, n) == t + (-k) * n;
    ModShift(t, -k, n);
  }

  /** NextVisit is the least such index. */
  lemma {:induction false} NextVisitLeast(hand: nat, t: nat, n: nat, i: nat)
    requires n > 0 && hand <= i && i % n == t % n
    ensures NextVisit(hand, t, n) <= i
  {
    var v := NextVisit(hand, t, n);
    NextVisitCongruent(hand, t, n);
    if i < v {
      CloseCongruent(i, v, n);
    }
  }
}

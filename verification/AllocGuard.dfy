/** The overflow guard of REALLOCARRAY and CALLOC (src/util-malloc.c), for a size_t of 2*half bits. */
module AllocGuard {
  import opened Bits

  function MaxNum(half: nat): nat { Pow2(half) }

  function SizeMax(half: nat): nat { Pow2(2 * half) - 1 }

  /** The guard as the code tests it: shortcut, zero size, division. */
  predicate Aborts(half: nat, count: nat, size: nat)
  {
    (count >= MaxNum(half) || size >= MaxNum(half)) &&
    size != 0 && count >= SizeMax(half) / size
  }

  /** A product against its factor: the meaning of the division test. */
  lemma DivisionTest(limit: nat, count: nat, size: nat)
    requires size > 0
    ensures count < limit / size ==> count * size + size <= limit
    ensures count > limit / size ==> count * size > limit
    ensures count == limit / size ==> count * size <= limit < count * size + size
  {
    var q, r := limit / size, limit % size;
    assert limit == q * size + r;
    if count < q {
      assert count + 1 <= q;
      assert (count + 1) * size <= q * size;
    } else if count > q {
      assert (q + 1) * size <= count * size;
    }
  }

  lemma SquareBound(a: nat, b: nat, m: nat)
    requires a < m && b < m
    ensures a * b <= m * m - 1
  {}

  /** What the guard lets through fits in a size_t; what it refuses is within one element of not fitting. */
  lemma GuardTwoSided(half: nat, count: nat, size: nat)
    ensures !Aborts(half, count, size) ==> count * size < Pow2(2 * half)
    ensures Aborts(half, count, size) ==> (count + 1) * size >= Pow2(2 * half)
  {
    if size != 0 {
      DivisionTest(SizeMax(half), count, size);
      if count < MaxNum(half) && size < MaxNum(half) {
        Pow2Add(half, half);
        var m := MaxNum(half);
        SquareBound(count, size, m);
      }
    }
  }

  /** Exactly which requests that would fit are refused all the same. */
  lemma RefusedThoughFitting(half: nat, count: nat, size: nat)
    ensures Aborts(half, count, size) && count * size < Pow2(2 * half)
       <==> size != 0 && count == (Pow2(2 * half) - 1) / size &&
            (count >= Pow2(half) || size >= Pow2(half))
  {
    if size != 0 {
      DivisionTest(SizeMax(half), count, size);
    }
  }

  /** The two limits on a machine with 64 bits. */
  lemma Limits64()
    ensures MaxNum(32) == 0x1_0000_0000 && SizeMax(32) == 0xFFFF_FFFF_FFFF_FFFF
  {
    Pow2Word();
  }

  /** A request for fewer elements passes where a larger one does. */
  lemma GuardMonotone(half: nat, fewer: nat, count: nat, size: nat)
    requires fewer <= count && !Aborts(half, count, size)
    ensures !Aborts(half, fewer, size)
  {}
}

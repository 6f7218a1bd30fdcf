/** `__BPTR_ALIGN` and `__PTR_ALIGN`: rounding an address up with a mask of low bits. */
module ObstackAlign {
  import opened Bits

  /** `__BPTR_ALIGN (B, P, A)`. */
  function BptrAlign(b: nat, p: nat, a: nat): nat
    requires b <= p
  {
    b + AndNot(p - b + a, a)
  }

  /** The masks the macros accept: all ones below some bit. */
  ghost predicate IsMask(a: nat) {
    exists k: nat :: a + 1 == Pow2(k)
  }

  /** No bit of the mask is set in the address. */
  predicate Aligned(p: nat, a: nat) {
    And(p, a) == 0
  }

  lemma AlignedMeansMultiple(p: nat, k: nat)
    ensures Aligned(p, Pow2(k) - 1) <==> IsMultiple(p, k)
  {
    AndLowMask(p, k);
  }

  /** The result is the least address at or above `p` whose offset from `b` is a multiple of `a + 1`. */
  lemma BptrAlignLeast(b: nat, p: nat, k: nat)
    requires b <= p
    ensures var r := BptrAlign(b, p, Pow2(k) - 1);
            && p <= r < p + Pow2(k)
            && IsMultiple(r - b, k)
            && (forall q: nat :: IsMultiple(q, k) && p <= b + q ==> r <= b + q)
  {
    var x := p - b + Pow2(k) - 1;
    AndNotLowMask(x, k);
    ClearedLow(x, k);
    forall q: nat | IsMultiple(q, k) && p <= b + q ensures x - Low(x, k) <= q {
      LeastMultiple(x, q, k);
    }
  }

  lemma BptrAlignMonotone(b: nat, p: nat, q: nat, k: nat)
    requires b <= p <= q
    ensures BptrAlign(b, p, Pow2(k) - 1) <= BptrAlign(b, q, Pow2(k) - 1)
  {
    BptrAlignLeast(b, p, k);
    BptrAlignLeast(b, q, k);
    assert IsMultiple(BptrAlign(b, q, Pow2(k) - 1) - b, k);
  }

  lemma BptrAlignIdempotent(b: nat, p: nat, k: nat)
    requires b <= p
    ensures var r := BptrAlign(b, p, Pow2(k) - 1); r >= b && BptrAlign(b, r, Pow2(k) - 1) == r
  {
    BptrAlignLeast(b, p, k);
    var r := BptrAlign(b, p, Pow2(k) - 1);
    BptrAlignLeast(b, r, k);
    assert IsMultiple(r - b, k);
  }

  /** Aligning relative to an aligned base is aligning relative to zero, as `__PTR_ALIGN` assumes. */
  lemma BptrAlignBaseAgnostic(b: nat, p: nat, k: nat)
    requires b <= p && IsMultiple(b, k)
    ensures BptrAlign(b, p, Pow2(k) - 1) == BptrAlign(0, p, Pow2(k) - 1)
  {
    var r, r0 := BptrAlign(b, p, Pow2(k) - 1), BptrAlign(0, p, Pow2(k) - 1);
    BptrAlignLeast(b, p, k);
    BptrAlignLeast(0, p, k);
    MultiplesAdd(b, r - b, k);
    MultiplesAdd(b, r0 - b, k);
    assert IsMultiple(r0 - b, k) && IsMultiple(r, k);
  }

  /** `__PTR_ALIGN` where a pointer converts to an integer: alignment relative to address zero. */
  function AlignUp(p: nat, a: nat): (r: nat)
    requires IsMask(a)
    ensures p <= r <= p + a
    ensures Aligned(r, a)
    ensures Aligned(p, a) ==> r == p
  {
    AlignUpFacts(p, a);
    BptrAlign(0, p, a)
  }

  lemma AlignUpFacts(p: nat, a: nat)
    requires IsMask(a)
    ensures var r := BptrAlign(0, p, a);
            p <= r <= p + a && Aligned(r, a) && (Aligned(p, a) ==> r == p)
  {
    var k: nat :| a + 1 == Pow2(k);
    BptrAlignLeast(0, p, k);
    AlignedMeansMultiple(p, k);
    AlignedMeansMultiple(BptrAlign(0, p, a), k);
  }

  /** An address aligned for at least 16 bytes is aligned for a four-byte unit. */
  lemma AlignedForUnits(p: nat, a: nat)
    requires IsMask(a) && a + 1 >= 16 && Aligned(p, a)
    ensures p % 4 == 0
  {
    var k: nat :| a + 1 == Pow2(k);
    AlignedMeansMultiple(p, k);
    assert Pow2(0) == 1 && Pow2(1) == 2;
    assert Low(p, k) == p % 2 + 2 * Low(p / 2, k - 1);
    assert Low(p / 2, k - 1) == p / 2 % 2 + 2 * Low(p / 4, k - 2);
  }
}

/** Powers of two and the bitwise operators of C on natural numbers. */
module Bits {

  function Pow2(n: nat): (r: nat)
    ensures r >= 1
  {
    if n == 0 then 1 else 2 * Pow2(n - 1)
  }

  /** Whether bit `i` of `x` is one. */
  predicate Bit(x: nat, i: nat) {
    if i == 0 then x % 2 == 1 else Bit(x / 2, i - 1)
  }

  /** The operator `x & y`. */
  function And(x: nat, y: nat): nat {
    if x == 0 || y == 0 then 0
    else 2 * And(x / 2, y / 2) + (if x % 2 == 1 && y % 2 == 1 then 1 else 0)
  }

  /** The operator `x | y`. */
  function Or(x: nat, y: nat): nat {
    if x == 0 then y else if y == 0 then x
    else 2 * Or(x / 2, y / 2) + (if x % 2 == 1 || y % 2 == 1 then 1 else 0)
  }

  /** The operator `x & ~y`, with `~y` extended to the width of `x`. */
  function AndNot(x: nat, y: nat): nat {
    if x == 0 then 0
    else 2 * AndNot(x / 2, y / 2) + (if x % 2 == 1 && y % 2 == 0 then 1 else 0)
  }

  /** Which of the low `w` bits of `x` are zero. */
  function ClearBits(x: nat, w: nat): set<nat> {
    set i: nat | i < w && !Bit(x, i)
  }

  /** The residue of `x` modulo `m`, by repeated addition or subtraction. */
  function Mod(x: int, m: nat): (r: nat)
    requires m > 0
    ensures r < m
    decreases if x < 0 then m - x else if x >= m then x else 0
  {
    if x < 0 then Mod(x + m, m) else if x < m then x else Mod(x - m, m)
  }

  lemma {:induction false} ModIsRemainder(x: int, m: nat)
    requires m > 0
    ensures Mod(x, m) == x % m
    decreases if x < 0 then m - x else if x >= m then x else 0
  {
    if x < 0 {
      ModIsRemainder(x + m, m);
      RemainderShift(x + m, m, -1);
    } else if x < m {
      DivModUnique(x, m, 0, x);
    } else {
      ModIsRemainder(x - m, m);
      RemainderShift(x - m, m, 1);
    }
  }

  lemma RemainderShift(x: int, m: int, k: int)
    requires m > 0
    ensures (x + m * k) % m == x % m
  {
    assert m * (x / m + k) == m * (x / m) + m * k;
    DivModUnique(x + m * k, m, x / m + k, x % m);
  }

  lemma ModShift(x: int, m: nat)
    requires m > 0
    ensures Mod(x + m, m) == Mod(x, m)
  {
  }

  lemma {:induction false} ModAdd(x: int, y: int, m: nat)
    requires m > 0
    ensures Mod(Mod(x, m) + y, m) == Mod(x + y, m)
    decreases if x < 0 then m - x else if x >= m then x else 0
  {
    if x < 0 {
      ModAdd(x + m, y, m);
      ModShift(x + y, m);
    } else if x >= m {
      ModAdd(x - m, y, m);
      ModShift(x - m + y, m);
    }
  }

  lemma {:induction false} ZeroHasNoBits(i: nat)
    ensures !Bit(0, i)
  {
    if i > 0 { ZeroHasNoBits(i - 1); }
  }

  lemma {:induction false} AndBit(x: nat, y: nat, i: nat)
    ensures Bit(And(x, y), i) <==> Bit(x, i) && Bit(y, i)
  {
    ZeroHasNoBits(i);
    if x != 0 && y != 0 && i > 0 { AndBit(x / 2, y / 2, i - 1); }
  }

  lemma {:induction false} OrBit(x: nat, y: nat, i: nat)
    ensures Bit(Or(x, y), i) <==> Bit(x, i) || Bit(y, i)
  {
    ZeroHasNoBits(i);
    if x != 0 && y != 0 && i > 0 { OrBit(x / 2, y / 2, i - 1); }
  }

  lemma {:induction false} Pow2Bit(b: nat, i: nat)
    ensures Bit(Pow2(b), i) <==> i == b
  {
    if b == 0 {
      if i > 0 { ZeroHasNoBits(i - 1); }
    } else if i > 0 {
      Pow2Bit(b - 1, i - 1);
    }
  }

  lemma {:induction false} Pow2Monotone(a: nat, b: nat)
    requires a <= b
    ensures Pow2(a) <= Pow2(b)
    ensures a < b ==> 2 * Pow2(a) <= Pow2(b)
    decreases b
  {
    if a < b { Pow2Monotone(a, b - 1); }
  }

  lemma {:induction false} AndBound(x: nat, y: nat)
    ensures And(x, y) <= x && And(x, y) <= y
  {
    if x != 0 && y != 0 { AndBound(x / 2, y / 2); }
  }

  lemma {:induction false} OrBound(x: nat, y: nat, w: nat)
    requires x < Pow2(w) && y < Pow2(w)
    ensures Or(x, y) < Pow2(w)
  {
    if x != 0 && y != 0 { OrBound(x / 2, y / 2, w - 1); }
  }

  /** A number is its bits. */
  lemma {:induction false} BitsDetermine(x: nat, y: nat)
    requires forall i: nat :: Bit(x, i) == Bit(y, i)
    ensures x == y
    decreases x + y
  {
    assert Bit(x, 0) == Bit(y, 0);
    if x > 0 || y > 0 {
      forall i: nat ensures Bit(x / 2, i) == Bit(y / 2, i) {
        assert Bit(x, i + 1) == Bit(y, i + 1);
      }
      BitsDetermine(x / 2, y / 2);
    }
  }

  /** Testing one bit: `x & (1 << b)` is zero exactly when bit `b` of `x` is zero. */
  lemma {:induction false} AndMask(x: nat, b: nat)
    ensures And(x, Pow2(b)) == 0 <==> !Bit(x, b)
  {
    AndBit(x, Pow2(b), b);
    Pow2Bit(b, b);
    if !Bit(x, b) {
      forall i: nat ensures Bit(And(x, Pow2(b)), i) == Bit(0, i) {
        AndBit(x, Pow2(b), i);
        Pow2Bit(b, i);
        ZeroHasNoBits(i);
      }
      BitsDetermine(And(x, Pow2(b)), 0);
    } else {
      ZeroHasNoBits(b);
    }
  }

  /** `x & ~y` bit by bit. */
  lemma {:induction false} AndNotBit(x: nat, y: nat, i: nat)
    ensures Bit(AndNot(x, y), i) <==> Bit(x, i) && !Bit(y, i)
  {
    ZeroHasNoBits(i);
    if x != 0 && i > 0 { AndNotBit(x / 2, y / 2, i - 1); }
  }

  /** The number formed by the low `k` bits of `x`. */
  function Low(x: nat, k: nat): (r: nat)
    ensures r <= x
  {
    if k == 0 then 0 else x % 2 + 2 * Low(x / 2, k - 1)
  }

  lemma {:induction false} LowIsRemainder(x: nat, k: nat)
    ensures Low(x, k) == x % Pow2(k)
  {
    LowIsMod(x, k);
    ModIsRemainder(x, Pow2(k));
  }

  lemma {:induction false} LowIsMod(x: nat, k: nat)
    ensures Low(x, k) == Mod(x, Pow2(k))
    decreases k
  {
    if k == 0 {
      ModOne(x);
    } else {
      LowIsMod(x / 2, k - 1);
      ModDouble(x, Pow2(k - 1));
    }
  }

  lemma {:induction false} ModOne(x: nat)
    ensures Mod(x, 1) == 0
  {
    if x > 0 { ModOne(x - 1); }
  }

  lemma {:induction false} ModDouble(x: nat, m: nat)
    requires m > 0
    ensures Mod(x, 2 * m) == 2 * Mod(x / 2, m) + x % 2
  {
    if x >= 2 * m { ModDouble(x - 2 * m, m); }
  }

  /** `x & (2^k - 1)` keeps the low `k` bits. */
  lemma {:induction false} AndLowMask(x: nat, k: nat)
    ensures And(x, Pow2(k) - 1) == Low(x, k)
    decreases k
  {
    if k > 0 {
      AndLowMask(x / 2, k - 1);
    }
  }

  /** `x & ~(2^k - 1)` clears them. */
  lemma {:induction false} AndNotLowMask(x: nat, k: nat)
    ensures AndNot(x, Pow2(k) - 1) == x - Low(x, k)
    decreases k, x
  {
    if x > 0 { AndNotLowMask(x / 2, if k == 0 then 0 else k - 1); }
  }

  /** Euclidean division is determined by its defining equation. */
  lemma DivModUnique(x: int, d: int, q: int, r: int)
    requires d > 0 && x == d * q + r && 0 <= r < d
    ensures x / d == q && x % d == r
  {
    QuotientUnique(d, q - x / d, x % d - r);
  }

  lemma QuotientUnique(d: int, k: int, e: int)
    requires d > 0 && d * k == e && -d < e < d
    ensures k == 0
  {
    if k >= 1 { MulMonotone(d, 1, k); } else if k <= -1 { MulMonotone(d, k, -1); }
  }

  lemma MulMonotone(d: int, a: int, b: int)
    requires d >= 0 && a <= b
    ensures d * a <= d * b
  {
  }

  /** Setting bits never makes a clear bit out of a set one, and a real change costs a clear bit. */
  lemma OrFewerClearBits(x: nat, y: nat, w: nat)
    requires x < Pow2(w) && y < Pow2(w)
    ensures |ClearBits(Or(x, y), w)| <= |ClearBits(x, w)|
    ensures Or(x, y) != x ==> |ClearBits(Or(x, y), w)| < |ClearBits(x, w)|
  {
    var before, after := ClearBits(x, w), ClearBits(Or(x, y), w);
    forall i: nat { OrBit(x, y, i); }
    assert before == after + (before - after);
    OrBound(x, y, w);
    if before == after { SameBits(x, Or(x, y), w); }
  }

  lemma SameBits(x: nat, y: nat, w: nat)
    requires x < Pow2(w) && y < Pow2(w) && ClearBits(x, w) == ClearBits(y, w)
    ensures x == y
  {
    forall i: nat ensures Bit(x, i) == Bit(y, i) {
      if i < w {
        assert i in ClearBits(x, w) <==> i in ClearBits(y, w);
      } else {
        HighBitsClear(x, w, i);
        HighBitsClear(y, w, i);
      }
    }
    BitsDetermine(x, y);
  }

  lemma {:induction false} HighBitsClear(x: nat, w: nat, i: nat)
    requires x < Pow2(w) && w <= i
    ensures !Bit(x, i)
  {
    if w == 0 { ZeroHasNoBits(i); } else { HighBitsClear(x / 2, w - 1, i - 1); }
  }

  /** `x` is a multiple of 2^k: its low `k` bits are zero, and so is its remainder. */
  predicate IsMultiple(x: nat, k: nat) {
    Low(x, k) == 0
  }

  lemma MultipleIsRemainderZero(x: nat, k: nat)
    ensures IsMultiple(x, k) <==> x % Pow2(k) == 0
  {
    LowIsRemainder(x, k);
  }

  lemma {:induction false} ClearedLow(x: nat, k: nat)
    ensures Low(x, k) < Pow2(k)
    ensures IsMultiple(x - Low(x, k), k)
    decreases k
  {
    if k > 0 {
      ClearedLow(x / 2, k - 1);
      assert (x - Low(x, k)) / 2 == x / 2 - Low(x / 2, k - 1);
    }
  }

  lemma {:induction false} LeastMultiple(x: nat, y: nat, k: nat)
    requires IsMultiple(y, k) && y > x - Pow2(k)
    ensures y >= x - Low(x, k)
    decreases k
  {
    if k > 0 { LeastMultiple(x / 2, y / 2, k - 1); }
  }

  lemma {:induction false} MultiplesAdd(x: nat, y: nat, k: nat)
    requires IsMultiple(x, k)
    ensures IsMultiple(x + y, k) <==> IsMultiple(y, k)
    decreases k
  {
    if k > 0 { MultiplesAdd(x / 2, y / 2, k - 1); }
  }

  lemma {:induction false} GreatestMultiple(x: nat, y: nat, k: nat)
    requires IsMultiple(y, k) && y <= x
    ensures y <= x - Low(x, k)
    decreases k
  {
    if k > 0 { GreatestMultiple(x / 2, y / 2, k - 1); }
  }

  lemma {:induction false} Pow2IsMultiple(a: nat, k: nat)
    requires k <= a
    ensures IsMultiple(Pow2(a), k)
  {
    if k > 0 { Pow2IsMultiple(a - 1, k - 1); }
  }

  lemma {:induction false} LowOfSum(x: nat, r: nat, k: nat)
    requires IsMultiple(x, k) && r < Pow2(k)
    ensures Low(x + r, k) == r
    ensures Bit(x + r, k) == Bit(x, k)
    decreases k
  {
    if k > 0 { LowOfSum(x / 2, r / 2, k - 1); }
  }

  lemma {:induction false} MultiplesSubtract(x: nat, y: nat, k: nat)
    requires IsMultiple(x, k) && IsMultiple(y, k) && y <= x
    ensures IsMultiple(x - y, k)
    decreases k
  {
    if k > 0 {
      MultiplesSubtract(x / 2, y / 2, k - 1);
      assert x % 2 == 0 && y % 2 == 0 && (x - y) / 2 == x / 2 - y / 2;
    }
  }

  /** Two multiples of 2^k are equal or at least 2^k apart. */
  lemma {:induction false} MultiplesApart(x: nat, y: nat, k: nat)
    requires IsMultiple(x, k) && IsMultiple(y, k) && x < y
    ensures x + Pow2(k) <= y
    decreases k
  {
    if k > 0 { MultiplesApart(x / 2, y / 2, k - 1); }
  }

  lemma {:induction false} NextMultipleParity(x: nat, k: nat)
    requires IsMultiple(x, k)
    ensures IsMultiple(x + Pow2(k), k) && Bit(x + Pow2(k), k) == !Bit(x, k)
    decreases k
  {
    if k > 0 { NextMultipleParity(x / 2, k - 1); }
  }
}

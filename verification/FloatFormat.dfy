/**
 Binary floating point with precision `p` and maximum exponent `emax`, as in IEEE 754-2008,
 restricted to the nonnegative numbers and +infinity that the probe meets. A finite number is
 held as an integer count of the smallest subnormal, 2^(2 - emax - p), so sums are exact
 before they are rounded.
 */
module FloatFormat {
  import opened Bits

  datatype Format = Format(p: nat, emax: nat)

  /** Precision one is enough; the exponent range must leave room below one for a quarter of the last place. */
  predicate ValidFormat(f: Format) {
    f.p >= 1 && f.emax >= 2
  }

  datatype Float = Finite(m: nat) | Inf

  /** The last place of the largest numbers is 2^TopUlp units. */
  function TopUlp(f: Format): nat
    requires ValidFormat(f)
  {
    2 * f.emax - 1
  }

  /** The power of two just out of range, 2^(emax + 1), in units. */
  function Limit(f: Format): nat
    requires ValidFormat(f)
  {
    Pow2(f.p + TopUlp(f))
  }

  /** The number 1. */
  function One(f: Format): Float
    requires ValidFormat(f)
  {
    Finite(Pow2(f.emax + f.p - 2))
  }

  /** (2 - 2^(1-p)) * 2^emax. */
  function MaxFinite(f: Format): nat
    requires ValidFormat(f)
  {
    Pow2Monotone(TopUlp(f), f.p + TopUlp(f));
    Limit(f) - Pow2(TopUlp(f))
  }

  /** The weight of the last of `p` significant bits of `x`, as an exponent. */
  function Exponent(x: nat, p: nat): nat {
    if x < Pow2(p) then 0 else 1 + Exponent(x / 2, p)
  }

  /** `x` has at most `p` significant bits. */
  predicate Fits(x: nat, p: nat) {
    IsMultiple(x, Exponent(x, p))
  }

  predicate IsFinite(f: Format, m: nat)
    requires ValidFormat(f)
  {
    Fits(m, f.p) && m < Limit(f)
  }

  /** Rounding to a multiple of 2^e, ties to the even one. */
  function RoundAt(x: nat, e: nat): nat {
    var r := Low(x, e);
    if 2 * r < Pow2(e) || (2 * r == Pow2(e) && !Bit(x, e)) then x - r else x - r + Pow2(e)
  }

  /** roundTiesToEven, with overflow to infinity. */
  function Round(f: Format, x: nat): Float
    requires ValidFormat(f)
  {
    var y := RoundAt(x, Exponent(x, f.p));
    if y >= Limit(f) then Inf else Finite(y)
  }

  function Add(f: Format, x: Float, y: Float): Float
    requires ValidFormat(f)
  {
    if x.Inf? || y.Inf? then Inf else Round(f, x.m + y.m)
  }

  function Double(f: Format, x: Float): Float
    requires ValidFormat(f)
  {
    if x.Inf? then Inf else Round(f, 2 * x.m)
  }

  function Halve(f: Format, x: Float): Float
    requires ValidFormat(f)
  {
    if x.Inf? then Inf else Round(f, if x.m % 4 == 3 then x.m / 2 + 1 else x.m / 2)
  }

  // ---------- Rounding does what section 4.3.1 of IEEE 754-2008 asks ----------

  lemma {:induction false} ExponentIs(x: nat, p: nat, e: nat)
    requires x < Pow2(p + e) && (e == 0 || x >= Pow2(p + e - 1))
    ensures Exponent(x, p) == e
    decreases e
  {
    if e > 0 {
      Pow2Monotone(p, p + e - 1);
      ExponentIs(x / 2, p, e - 1);
    }
  }

  lemma {:induction false} ExponentBounds(x: nat, p: nat)
    ensures x < Pow2(p + Exponent(x, p))
    ensures Exponent(x, p) > 0 ==> x >= Pow2(p + Exponent(x, p) - 1)
  {
    if x >= Pow2(p) {
      ExponentBounds(x / 2, p);
    }
  }

  lemma {:induction false} ExponentMonotone(x: nat, y: nat, p: nat)
    requires x <= y
    ensures Exponent(x, p) <= Exponent(y, p)
  {
    if x >= Pow2(p) { ExponentMonotone(x / 2, y / 2, p); }
  }

  function Distance(x: int, y: int): nat {
    if x < y then y - x else x - y
  }

  /** `e` is the weight of the last of the `p` significant bits of `x`. */
  predicate InBinade(x: nat, p: nat, e: nat) {
    x < Pow2(p + e) && (e > 0 ==> x >= Pow2(p + e - 1))
  }

  lemma BinadeExponent(x: nat, p: nat, e: nat)
    requires InBinade(x, p, e)
    ensures Exponent(x, p) == e
  {
    ExponentIs(x, p, e);
  }

  /** Clearing the bits below the last significant place stays in the binade. */
  lemma DownLower(x: nat, p: nat, e: nat)
    requires p >= 1 && InBinade(x, p, e)
    ensures var d := x - Low(x, e); IsMultiple(d, e) && x < d + Pow2(e) && InBinade(d, p, e)
  {
    ClearedLow(x, e);
    if e > 0 {
      Pow2IsMultiple(p + e - 1, e);
      GreatestMultiple(x, Pow2(p + e - 1), e);
    }
  }

  lemma UpUpper(d: nat, p: nat, e: nat)
    requires IsMultiple(d, e) && d < Pow2(p + e)
    ensures d + Pow2(e) <= Pow2(p + e)
  {
    Pow2IsMultiple(p + e, e);
    MultiplesApart(d, Pow2(p + e), e);
  }

  lemma MultipleFits(d: nat, p: nat, e: nat)
    requires InBinade(d, p, e) && IsMultiple(d, e)
    ensures Fits(d, p)
  {
    BinadeExponent(d, p, e);
  }

  lemma PowerFits(p: nat, e: nat)
    requires p >= 1
    ensures Fits(Pow2(p + e), p)
  {
    ExponentIs(Pow2(p + e), p, e + 1);
    Pow2IsMultiple(p + e, e + 1);
  }

  lemma UpInBinade(d: nat, p: nat, e: nat, up: nat)
    requires InBinade(d, p, e) && IsMultiple(d, e) && up == d + Pow2(e)
    ensures up == Pow2(p + e) || InBinade(up, p, e)
  {
    UpUpper(d, p, e);
  }

  /** The next multiple above fits too. */
  lemma UpFits(d: nat, p: nat, e: nat, up: nat)
    requires p >= 1 && InBinade(d, p, e) && IsMultiple(d, e) && up == d + Pow2(e) && IsMultiple(up, e)
    ensures Fits(up, p)
  {
    UpInBinade(d, p, e, up);
    if up == Pow2(p + e) {
      PowerFits(p, e);
    } else {
      MultipleFits(up, p, e);
    }
  }

  /** No number that fits lies strictly between two neighbouring multiples. */
  lemma NoneBetween(d: nat, p: nat, e: nat, z: nat)
    requires InBinade(d, p, e) && IsMultiple(d, e) && Fits(z, p)
    ensures z <= d || d + Pow2(e) <= z
  {
    UpUpper(d, p, e);
    if d < z < d + Pow2(e) {
      BinadeExponent(z, p, e);
      MultiplesApart(d, z, e);
    }
  }

  /** Whichever neighbour rounding picks, it is the nearer one. */
  lemma RoundAtNear(x: nat, e: nat)
    requires x < x - Low(x, e) + Pow2(e)
    ensures var d, y := x - Low(x, e), RoundAt(x, e);
            && (y == d || y == d + Pow2(e))
            && Distance(x, y) <= x - d && Distance(x, y) <= d + Pow2(e) - x
  {
  }

  /** The rounded number fits, and no number that fits is nearer. */
  lemma NearestAt(x: nat, p: nat, e: nat, z: nat)
    requires p >= 1 && InBinade(x, p, e) && Fits(z, p)
    ensures Fits(RoundAt(x, e), p) && Distance(x, RoundAt(x, e)) <= Distance(x, z)
  {
    var d := x - Low(x, e);
    DownLower(x, p, e);
    MultipleFits(d, p, e);
    NextMultipleParity(d, e);
    UpFits(d, p, e, d + Pow2(e));
    NoneBetween(d, p, e, z);
    RoundAtNear(x, e);
  }

  /** Of two equally near numbers the even one is delivered. */
  lemma TieAt(x: nat, p: nat, e: nat, z: nat)
    requires p >= 1 && InBinade(x, p, e) && Fits(z, p)
    requires z != RoundAt(x, e) && Distance(x, z) == Distance(x, RoundAt(x, e))
    ensures !Bit(RoundAt(x, e), e)
  {
    var d := x - Low(x, e);
    DownLower(x, p, e);
    NoneBetween(d, p, e, z);
    RoundAtNear(x, e);
    LowOfSum(d, Low(x, e), e);
    NextMultipleParity(d, e);
  }

  /** A finite result is a finite number of the format, and none is nearer to the exact one. */
  lemma RoundIsNearest(f: Format, x: nat, z: nat)
    requires ValidFormat(f) && Round(f, x).Finite? && IsFinite(f, z)
    ensures IsFinite(f, Round(f, x).m) && Distance(x, Round(f, x).m) <= Distance(x, z)
  {
    var e := Exponent(x, f.p);
    ExponentBounds(x, f.p);
    NearestAt(x, f.p, e, z);
  }

  /** Of two equally near finite numbers the one with an even last significant bit is the result. */
  lemma RoundTiesToEven(f: Format, x: nat, z: nat)
    requires ValidFormat(f) && Round(f, x).Finite? && IsFinite(f, z)
    requires z != Round(f, x).m && Distance(x, z) == Distance(x, Round(f, x).m)
    ensures !Bit(Round(f, x).m, Exponent(x, f.p))
  {
    var e := Exponent(x, f.p);
    ExponentBounds(x, f.p);
    TieAt(x, f.p, e, z);
  }

  /** A sum overflows exactly from 2^emax * (2 - 2^(1-p) / 2) on, half a last place above the largest number. */
  lemma OverflowThreshold(f: Format, x: nat)
    requires ValidFormat(f)
    ensures Round(f, x) == Inf <==> 2 * x >= 2 * MaxFinite(f) + Pow2(TopUlp(f))
  {
    if x >= Limit(f) {
      BeyondLimit(f, x);
    } else if x >= MaxFinite(f) {
      NearLimit(f, x);
    } else {
      BelowMax(f, x);
    }
  }

  lemma NearLimit(f: Format, x: nat)
    requires ValidFormat(f) && MaxFinite(f) <= x < Limit(f)
    ensures Round(f, x) == Inf <==> 2 * (x - MaxFinite(f)) >= Pow2(TopUlp(f))
  {
    MaxFiniteRange(f);
    MaxFiniteOdd(f);
    BinadeExponent(x, f.p, TopUlp(f));
    LowOfSum(MaxFinite(f), x - MaxFinite(f), TopUlp(f));
  }

  lemma BeyondLimit(f: Format, x: nat)
    requires ValidFormat(f) && x >= Limit(f)
    ensures Round(f, x) == Inf
  {
    var e := Exponent(x, f.p);
    ExponentIs(Limit(f), f.p, TopUlp(f) + 1);
    ExponentMonotone(Limit(f), x, f.p);
    ExponentBounds(x, f.p);
    Pow2IsMultiple(f.p + e - 1, e);
    GreatestMultiple(x, Pow2(f.p + e - 1), e);
    Pow2Monotone(f.p + TopUlp(f), f.p + e - 1);
  }

  /** The largest finite number lies in the top binade. */
  lemma MaxFiniteRange(f: Format)
    requires ValidFormat(f)
    ensures InBinade(MaxFinite(f), f.p, TopUlp(f)) && IsMultiple(MaxFinite(f), TopUlp(f))
  {
    var u := TopUlp(f);
    Pow2Monotone(u, f.p + u - 1);
    Pow2IsMultiple(f.p + u, u);
    Pow2IsMultiple(u, u);
    MultiplesSubtract(Limit(f), Pow2(u), u);
  }

  /** Its significand is odd. */
  lemma MaxFiniteOdd(f: Format)
    requires ValidFormat(f)
    ensures Bit(MaxFinite(f), TopUlp(f))
  {
    MaxFiniteRange(f);
    NextMultipleParity(MaxFinite(f), TopUlp(f));
    Pow2Bit(f.p + TopUlp(f), TopUlp(f));
  }

  lemma MaxFiniteIsFinite(f: Format)
    requires ValidFormat(f)
    ensures IsFinite(f, MaxFinite(f))
  {
    MaxFiniteRange(f);
    MultipleFits(MaxFinite(f), f.p, TopUlp(f));
  }

  /** No finite number is larger. */
  lemma MaxFiniteIsLargest(f: Format, m: nat)
    requires ValidFormat(f) && IsFinite(f, m)
    ensures m <= MaxFinite(f)
  {
    MaxFiniteRange(f);
    NoneBetween(MaxFinite(f), f.p, TopUlp(f), m);
  }

  lemma BelowMax(f: Format, x: nat)
    requires ValidFormat(f) && x < MaxFinite(f)
    ensures Round(f, x).Finite? && Round(f, x).m <= MaxFinite(f)
  {
    MaxFiniteIsFinite(f);
    var e := Exponent(x, f.p);
    ExponentBounds(x, f.p);
    DownLower(x, f.p, e);
    NoneBetween(x - Low(x, e), f.p, e, MaxFinite(f));
    RoundAtNear(x, e);
  }

  /** Less than half a last place above a multiple of it rounds back. */
  lemma RoundsBack(f: Format, m: nat, r: nat, u: nat)
    requires ValidFormat(f) && InBinade(m, f.p, u) && IsMultiple(m, u) && m < Limit(f)
    requires 2 * r < Pow2(u) && m + r < Pow2(f.p + u)
    ensures Round(f, m + r) == Finite(m)
  {
    BinadeExponent(m + r, f.p, u);
    LowOfSum(m, r, u);
  }

  /** A sum that fits is exact. */
  lemma RoundExact(f: Format, x: nat)
    requires ValidFormat(f) && IsFinite(f, x)
    ensures Round(f, x) == Finite(x)
  {
    assert Low(x, Exponent(x, f.p)) == 0;
  }

  // ---------- Sums, doubles and halves ----------

  /**
   `s` is the exact number `x` rounded: infinite exactly from half a last place above the largest
   on, otherwise finite and no farther than `z`, and if `z` is another and as near, even.
   */
  predicate CorrectlyRounded(f: Format, x: nat, s: Float, z: nat)
    requires ValidFormat(f)
  {
    && (s == Inf <==> 2 * x >= 2 * MaxFinite(f) + Pow2(TopUlp(f)))
    && (s.Finite? ==> IsFinite(f, s.m) && Distance(x, s.m) <= Distance(x, z))
    && (s.Finite? && z != s.m && Distance(x, s.m) == Distance(x, z) ==> !Bit(s.m, Exponent(x, f.p)))
  }

  lemma RoundIsCorrect(f: Format, x: nat, s: Float, z: nat)
    requires ValidFormat(f) && IsFinite(f, z) && s == Round(f, x)
    ensures CorrectlyRounded(f, x, s, z)
  {
    OverflowThreshold(f, x);
    if s.Finite? {
      RoundIsNearest(f, x, z);
      if z != s.m && Distance(x, z) == Distance(x, s.m) { RoundTiesToEven(f, x, z); }
    }
  }

  lemma AddIsCorrectlyRounded(f: Format, a: nat, b: nat, z: nat)
    requires ValidFormat(f) && IsFinite(f, a) && IsFinite(f, b) && IsFinite(f, z)
    ensures CorrectlyRounded(f, a + b, Add(f, Finite(a), Finite(b)), z)
    ensures Add(f, Inf, Finite(a)) == Inf && Add(f, Finite(a), Inf) == Inf && Add(f, Inf, Inf) == Inf
  {
    RoundIsCorrect(f, a + b, Add(f, Finite(a), Finite(b)), z);
  }

  /** Doubling is exact until it overflows. */
  lemma DoubleIsExact(f: Format, m: nat)
    requires ValidFormat(f) && IsFinite(f, m)
    ensures Double(f, Finite(m)) == if 2 * m <= MaxFinite(f) then Finite(2 * m) else Inf
  {
    TwiceFits(m, f.p);
    if 2 * m < Limit(f) {
      RoundExact(f, 2 * m);
      MaxFiniteIsLargest(f, 2 * m);
    } else {
      BeyondLimit(f, 2 * m);
    }
  }

  lemma TwiceFits(m: nat, p: nat)
    requires Fits(m, p)
    ensures Fits(2 * m, p)
  {
    if 2 * m >= Pow2(p) {
      assert Exponent(2 * m, p) == 1 + Exponent(m, p);
    }
  }

  lemma HalfFits(m: nat, p: nat)
    requires Fits(m, p) && m % 2 == 0
    ensures Fits(m / 2, p)
  {
    if m >= Pow2(p) {
      assert Exponent(m, p) == 1 + Exponent(m / 2, p);
    }
  }

  lemma OddIsSmall(m: nat, p: nat)
    requires p >= 1 && Fits(m, p) && m % 2 == 1
    ensures m < Pow2(p) && Fits(m / 2, p) && Fits(m / 2 + 1, p)
  {
    assert m < Pow2(p);
    assert Pow2(p) == 2 * Pow2(p - 1);
    ExponentIs(m / 2 + 1, p, 0);
  }

  /** Half of a finite number is finite, no finite number is nearer to the exact half, and of two as near it is even. */
  lemma HalveIsNearest(f: Format, m: nat, z: nat)
    requires ValidFormat(f) && IsFinite(f, m) && IsFinite(f, z)
    ensures var h := Halve(f, Finite(m));
            && h.Finite? && IsFinite(f, h.m)
            && Distance(2 * h.m, m) <= Distance(2 * z, m)
            && (z != h.m && Distance(2 * h.m, m) == Distance(2 * z, m) ==> h.m % 2 == 0)
  {
    if m % 2 == 0 { HalfFits(m, f.p); } else { OddIsSmall(m, f.p); }
    var r := if m % 4 == 3 then m / 2 + 1 else m / 2;
    assert r <= m;
    RoundExact(f, r);
  }
}

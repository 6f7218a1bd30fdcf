/** The search for the largest finite number at the start of the math exception probe. */
module FloatProbe {
  import opened Bits
  import opened FloatFormat

  /** The number whose top `b + 1` significant bits are ones: what `largest` is after `b` bits were added. */
  function TopBits(f: Format, b: nat): nat
    requires ValidFormat(f) && b < f.p
  {
    Pow2Monotone(f.p + TopUlp(f) - 1 - b, f.p + TopUlp(f));
    Limit(f) - Pow2(f.p + TopUlp(f) - 1 - b)
  }

  lemma PowerIsFinite(f: Format, k: nat)
    requires ValidFormat(f) && k < f.p + TopUlp(f)
    ensures Round(f, Pow2(k)) == Finite(Pow2(k))
  {
    Pow2Monotone(k, f.p + TopUlp(f));
    if k < f.p {
      Pow2Monotone(k, f.p);
      ExponentIs(Pow2(k), f.p, 0);
    } else {
      Pow2Monotone(f.p, k);
      ExponentIs(Pow2(k), f.p, k + 1 - f.p);
      Pow2IsMultiple(k, k + 1 - f.p);
    }
    RoundExact(f, Pow2(k));
  }

  lemma TopBitsFinite(f: Format, b: nat)
    requires ValidFormat(f) && b < f.p
    ensures Round(f, TopBits(f, b)) == Finite(TopBits(f, b))
  {
    var u := TopUlp(f);
    Pow2Monotone(f.p + u - 1 - b, f.p + u - 1);
    ExponentIs(TopBits(f, b), f.p, u);
    Pow2IsMultiple(f.p + u, u);
    Pow2IsMultiple(f.p + u - 1 - b, u);
    MultiplesSubtract(Limit(f), Pow2(f.p + u - 1 - b), u);
    RoundExact(f, TopBits(f, b));
  }

  /** Doubling phase: 2^k + 2^k. */
  lemma DoublingStep(f: Format, k: nat)
    requires ValidFormat(f) && k < f.p + TopUlp(f)
    ensures Add(f, Finite(Pow2(k)), Finite(Pow2(k))) ==
            if k + 1 < f.p + TopUlp(f) then Finite(Pow2(k + 1)) else Inf
  {
    assert Pow2(k) + Pow2(k) == Pow2(k + 1);
    if k + 1 < f.p + TopUlp(f) { PowerIsFinite(f, k + 1); } else { BeyondLimit(f, Pow2(k + 1)); }
  }

  /** Filling phase: adding 2^k to a number whose top b + 1 bits are ones. */
  lemma FillingStep(f: Format, b: nat, k: nat)
    requires ValidFormat(f) && b < f.p && k + b + 3 >= f.p + TopUlp(f)
    requires k + b + 3 == f.p + TopUlp(f) ==> b == f.p - 1
    ensures Add(f, Finite(TopBits(f, b)), Finite(Pow2(k))) ==
            (if k + b + 1 >= f.p + TopUlp(f) then Inf
             else if b < f.p - 1 then Finite(TopBits(f, b + 1))
             else if k + 1 == TopUlp(f) then Inf
             else Finite(TopBits(f, b)))
  {
    if k + b + 1 >= f.p + TopUlp(f) {
      TooMuch(f, b, k);
    } else if b < f.p - 1 {
      NextBit(f, b, k);
    } else {
      LastBit(f, b, k);
    }
  }

  lemma LastBit(f: Format, b: nat, k: nat)
    requires ValidFormat(f) && b == f.p - 1 && TopUlp(f) <= k + 2 <= TopUlp(f) + 1
    ensures Round(f, TopBits(f, b) + Pow2(k)) == if k + 1 == TopUlp(f) then Inf else Finite(TopBits(f, b))
  {
    AllBits(f);
    LastPlace(f, TopBits(f, b), k);
  }

  lemma AllBits(f: Format)
    requires ValidFormat(f)
    ensures TopBits(f, f.p - 1) == MaxFinite(f)
  {
  }

  lemma LastPlace(f: Format, m: nat, k: nat)
    requires ValidFormat(f) && m == MaxFinite(f) && TopUlp(f) <= k + 2 <= TopUlp(f) + 1
    ensures Round(f, m + Pow2(k)) == if k + 1 == TopUlp(f) then Inf else Finite(m)
  {
    if k + 1 == TopUlp(f) { HalfPlace(f, k); } else { QuarterPlace(f, k); }
  }

  lemma TooMuch(f: Format, b: nat, k: nat)
    requires ValidFormat(f) && b < f.p && k + b + 1 >= f.p + TopUlp(f)
    ensures Round(f, TopBits(f, b) + Pow2(k)) == Inf
  {
    Pow2Monotone(f.p + TopUlp(f) - 1 - b, k);
    BeyondLimit(f, TopBits(f, b) + Pow2(k));
  }

  lemma NextBit(f: Format, b: nat, k: nat)
    requires ValidFormat(f) && b + 1 < f.p && k + b + 2 == f.p + TopUlp(f)
    ensures Round(f, TopBits(f, b) + Pow2(k)) == Finite(TopBits(f, b + 1))
  {
    TopBitsFinite(f, b + 1);
    assert Pow2(k + 1) == 2 * Pow2(k) && k + 1 == f.p + TopUlp(f) - 1 - b;
    assert TopBits(f, b) + Pow2(k) == TopBits(f, b + 1);
  }

  /** Half a last place above the largest number rounds to infinity. */
  lemma HalfPlace(f: Format, k: nat)
    requires ValidFormat(f) && k + 1 == TopUlp(f)
    ensures Round(f, MaxFinite(f) + Pow2(k)) == Inf
  {
    assert Pow2(TopUlp(f)) == 2 * Pow2(k);
    OverflowThreshold(f, MaxFinite(f) + Pow2(k));
  }

  /** A quarter of a last place above it rounds back. */
  lemma QuarterPlace(f: Format, k: nat)
    requires ValidFormat(f) && k + 2 == TopUlp(f)
    ensures Round(f, MaxFinite(f) + Pow2(k)) == Finite(MaxFinite(f))
  {
    MaxFiniteRange(f);
    FourQuarters(k);
    QuarterOf(f, MaxFinite(f), Pow2(k));
  }

  lemma FourQuarters(k: nat)
    ensures Pow2(k + 2) == 4 * Pow2(k)
  {
    assert Pow2(k + 2) == 2 * Pow2(k + 1);
  }

  lemma QuarterOf(f: Format, m: nat, r: nat)
    requires ValidFormat(f) && InBinade(m, f.p, TopUlp(f)) && IsMultiple(m, TopUlp(f))
    requires m + Pow2(TopUlp(f)) == Limit(f) && Pow2(TopUlp(f)) == 4 * r && r > 0
    ensures Round(f, m + r) == Finite(m)
  {
    RoundsBack(f, m, r, TopUlp(f));
  }

  lemma HalvingStep(f: Format, k: nat)
    requires ValidFormat(f) && 0 < k < f.p + TopUlp(f)
    ensures Halve(f, Finite(Pow2(k))) == Finite(Pow2(k - 1))
  {
    PowerIsFinite(f, k - 1);
    assert Pow2(k) == 2 * Pow2(k - 1);
    if k > 1 { assert Pow2(k - 1) == 2 * Pow2(k - 2); }
  }

  /**
   Where the search is. `small` is 2^k units throughout; while doubling, so is `largest`;
   while filling, the top `b + 1` bits of `largest` are ones.
   */
  datatype Phase = Doubling(k: nat) | Filling(b: nat, k: nat)

  ghost predicate At(f: Format, ph: Phase, largest: Float, small: Float, turns: nat)
    requires ValidFormat(f)
  {
    var top := f.p + TopUlp(f);
    && ph.k < top && small == Finite(Pow2(ph.k))
    && match ph
       case Doubling(k) => largest == small && k + 1 < top && turns + f.emax + f.p - 2 == k
       case Filling(b, k) =>
         && b < f.p && largest == Finite(TopBits(f, b))
         && top - 3 <= k + b <= top && (k + b == top - 3 ==> b == f.p - 1)
         && turns + k == f.emax + top - 1 + 2 * b
  }

  /** What one turn of the loop leaves, or that it is the last one. */
  ghost predicate AfterTurn(f: Format, ph': Phase, largest: Float, small: Float, turns: nat)
    requires ValidFormat(f)
  {
    var t := Add(f, largest, small);
    if t == largest then
      && largest == Finite(MaxFinite(f)) && small == Finite(Pow2(TopUlp(f) - 2))
      && turns + 1 == f.emax + 3 * f.p
    else if t.Finite? then At(f, ph', t, Double(f, small), turns + 1)
    else At(f, ph', largest, Halve(f, small), turns + 1)
  }

  lemma DoublingTurn(f: Format, k: nat, largest: Float, small: Float, turns: nat) returns (ph: Phase)
    requires ValidFormat(f) && At(f, Doubling(k), largest, small, turns)
    ensures AfterTurn(f, ph, largest, small, turns)
  {
    DoublingStep(f, k);
    PowerIsFinite(f, k + 1);
    ph := if k + 2 < f.p + TopUlp(f) then Doubling(k + 1) else Filling(0, k + 1);
  }

  lemma FillingTurn(f: Format, b: nat, k: nat, largest: Float, small: Float, turns: nat) returns (ph: Phase)
    requires ValidFormat(f) && At(f, Filling(b, k), largest, small, turns)
    ensures AfterTurn(f, ph, largest, small, turns)
  {
    var top := f.p + TopUlp(f);
    FillingStep(f, b, k);
    if k + b + 1 < top && b < f.p - 1 {
      PowerIsFinite(f, k + 1);
      assert TopBits(f, b + 1) != TopBits(f, b);
      ph := Filling(b + 1, k + 1);
    } else {
      HalvingStep(f, k);
      ph := Filling(b, k - 1);
    }
  }

  lemma Turn(f: Format, ph: Phase, largest: Float, small: Float, turns: nat) returns (ph': Phase)
    requires ValidFormat(f) && At(f, ph, largest, small, turns)
    ensures AfterTurn(f, ph', largest, small, turns)
    ensures turns < f.emax + 3 * f.p
  {
    match ph
    case Doubling(k) => ph' := DoublingTurn(f, k, largest, small, turns);
    case Filling(b, k) => ph' := FillingTurn(f, b, k, largest, small, turns);
  }

  /** The loop stops after exactly emax + 3p turns with the largest finite number. */
  method Probe(f: Format) returns (largest: Float, small: Float, inf: Float, turns: nat)
    requires ValidFormat(f)
    ensures largest == Finite(MaxFinite(f))
    ensures small == Finite(Pow2(TopUlp(f) - 2))
    ensures inf == Inf
    ensures turns == f.emax + 3 * f.p
  {
    largest := One(f);
    small := One(f);
    turns := 0;
    ghost var ph := Doubling(f.emax + f.p - 2);
    while true
      invariant At(f, ph, largest, small, turns)
      decreases f.emax + 3 * f.p - turns
    {
      ghost var ph' := Turn(f, ph, largest, small, turns);
      turns := turns + 1;
      var t := Add(f, largest, small);
      if t == largest {
        break;
      }
      ph := ph';
      if t.Finite? {
        largest := t;
        small := Double(f, small);
        continue;
      }
      small := Halve(f, small);
    }
    inf := Add(f, largest, largest);
    TwiceMaxOverflows(f);
  }

  lemma TwiceMaxOverflows(f: Format)
    requires ValidFormat(f)
    ensures Add(f, Finite(MaxFinite(f)), Finite(MaxFinite(f))) == Inf
  {
    MaxFiniteRange(f);
    assert Pow2(f.p + TopUlp(f)) == 2 * Pow2(f.p + TopUlp(f) - 1);
    BeyondLimit(f, MaxFinite(f) + MaxFinite(f));
  }
}

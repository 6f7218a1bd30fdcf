/**
 The macros as code: compare-and-exchange on a word in memory, the do-while retry loop
 around it, and the expressions derived from `atomic_exchange_and_add`.
 */
module AtomicMacros {
  import opened Bits
  import opened AtomicOps

  class SharedWord {
    const f: Format
    var mem: nat

    ghost predicate Valid()
      reads this
    {
      ValidFormat(f) && IsWord(f, mem)
    }

    constructor (f: Format, m0: nat)
      requires ValidFormat(f) && IsWord(f, m0)
      ensures Valid() && this.f == f && mem == m0
    {
      this.f := f;
      mem := m0;
    }

    /** `atomic_compare_and_exchange_val_acq`: store if equal, return the old value. */
    method CompareAndExchange(newval: nat, oldval: nat) returns (was: nat)
      requires Valid() && IsWord(f, newval)
      modifies this
      ensures Valid() && was == old(mem)
      ensures mem == if old(mem) == oldval then newval else old(mem)
    {
      was := mem;
      if was == oldval {
        mem := newval;
      }
    }

    /** `atomic_compare_and_exchange_bool_acq`, built from the value form: true if nothing was stored. */
    method CompareAndExchangeFails(newval: nat, oldval: nat) returns (failed: bool)
      requires Valid() && IsWord(f, newval)
      modifies this
      ensures Valid()
      ensures failed <==> old(mem) != oldval
      ensures mem == if failed then old(mem) else newval
    {
      var was := CompareAndExchange(newval, oldval);
      failed := was != oldval;
    }

    /**
     The retry loop of every read-modify-write macro. `others[k]` is what other threads leave in
     the word between the k-th load and its compare-and-exchange, and between that and the next
     load; afterwards they leave it alone. The operation takes effect on the word as its last
     load saw it, and every earlier turn failed because the word had changed in between.
     */
    method FetchModify(op: Op, others: seq<(nat, nat)>) returns (resp: Response, tries: nat)
      requires Valid() && ValidOp(f, op) && !Primitive(op)
      requires forall k :: 0 <= k < |others| ==> IsWord(f, others[k].0) && IsWord(f, others[k].1)
      modifies this
      ensures Valid() && tries <= |others|
      ensures var seen := LoadAt(old(mem), others, tries);
              SequentialSpec(f, op, seen, mem, resp)
      ensures AllFailed(f, op, old(mem), others, tries)
      ensures var seen := LoadAt(old(mem), others, tries);
              Exits(f, op, seen) || tries == |others| || others[tries].0 == seen
    {
      tries := 0;
      var seen := mem;
      while true
        invariant Valid() && tries <= |others|
        invariant mem == LoadAt(old(mem), others, tries)
        invariant AllFailed(f, op, old(mem), others, tries)
        decreases |others| - tries
      {
        seen := mem;
        if Exits(f, op, seen) {
          break;
        }
        if tries < |others| {
          mem := others[tries].0;
        }
        EffectIsWord(f, op, seen);
        var failed := CompareAndExchangeFails(NewValue(f, op, seen), seen);
        if !failed {
          break;
        }
        mem := others[tries].1;
        tries := tries + 1;
      }
      resp := Respond(op, seen);
      TurnMeetsSpec(f, op, seen, mem);
    }
  }

  /** The word at the k-th load, when every earlier turn failed. */
  function LoadAt(m0: nat, others: seq<(nat, nat)>, k: nat): nat
    requires k <= |others|
  {
    if k == 0 then m0 else others[k - 1].1
  }

  /** The first `n` turns loaded a word that did not end the loop and was changed before the exchange. */
  ghost predicate AllFailed(f: Format, op: Op, m0: nat, others: seq<(nat, nat)>, n: nat)
    requires ValidFormat(f) && n <= |others|
  {
    forall k :: 0 <= k < n ==> others[k].0 != LoadAt(m0, others, k) && !Exits(f, op, LoadAt(m0, others, k))
  }

  lemma TurnMeetsSpec(f: Format, op: Op, seen: nat, after: nat)
    requires ValidFormat(f) && ValidOp(f, op) && IsWord(f, seen) && !Primitive(op)
    requires after == if Exits(f, op, seen) then seen else NewValue(f, op, seen)
    ensures SequentialSpec(f, op, seen, after, Respond(op, seen))
  {
    EffectMeetsSpec(f, op, seen);
  }

  // ---------- Expressions over the old value that atomic_exchange_and_add returned ----------

  /**
   `old + d` as C computes it: in `int` when the type of the word is narrower than `int`,
   otherwise in the type of the word, where it wraps.
   */
  function PromotedAdd(f: Format, intBits: nat, seen: nat, d: int): int
    requires ValidFormat(f)
  {
    if f.bits < intBits then Value(f, seen) + d else Value(f, Wrap(f, seen + d))
  }

  /** `atomic_increment_and_test` on a word that held `seen`. */
  predicate IncrementAndTest(f: Format, intBits: nat, seen: nat)
    requires ValidFormat(f)
  {
    PromotedAdd(f, intBits, seen, 1) == 0
  }

  /** `atomic_decrement_and_test` on a word that held `seen`. */
  predicate DecrementAndTest(f: Format, seen: nat)
    requires ValidFormat(f)
  {
    Value(f, seen) == 1
  }

  lemma DecrementAndTestIsZeroTest(f: Format, seen: nat)
    requires ValidFormat(f) && IsWord(f, seen)
    ensures DecrementAndTest(f, seen) <==> Wrap(f, seen - 1) == 0
  {
    ModShift(-1, Modulus(f));
    assert Modulus(f) == 2 * Pow2(f.bits - 1) && Pow2(f.bits - 1) == 2 * Pow2(f.bits - 2);
  }

  /** A narrow unsigned word that wraps to zero is not reported: 255 + 1 is 256 in `int`. */
  lemma IncrementAndTestMissesWrap()
    ensures !IncrementAndTest(Format(8, false), 32, 255) && Wrap(Format(8, false), 255 + 1) == 0
  {
    assert Pow2(8) == 256 by { assert Pow2(4) == 16; assert Pow2(6) == 64; }
  }

  /** "True iff it's now zero" holds for every word exactly when the type is signed or not narrower than `int`. */
  lemma IncrementAndTestExact(f: Format, intBits: nat)
    requires ValidFormat(f)
    ensures (forall seen: nat :: IsWord(f, seen) ==> (IncrementAndTest(f, intBits, seen) <==> Wrap(f, seen + 1) == 0))
            <==> f.signed || f.bits >= intBits
  {
    var last := Modulus(f) - 1;
    ModShift(0, Modulus(f));
    assert Modulus(f) == 2 * Pow2(f.bits - 1);
    if f.signed || f.bits >= intBits {
      forall seen: nat | IsWord(f, seen) ensures IncrementAndTest(f, intBits, seen) <==> Wrap(f, seen + 1) == 0 {
        if seen < last { assert Wrap(f, seen + 1) == seen + 1; } else { assert Wrap(f, seen + 1) == 0; }
      }
    } else {
      assert IsWord(f, last) && Wrap(f, last + 1) == 0 && !IncrementAndTest(f, intBits, last);
    }
  }

  /** `atomic_increment_val` and `atomic_decrement_val` return what is now stored, unless a narrow type wrapped. */
  lemma PromotedValueExact(f: Format, intBits: nat, seen: nat, d: int)
    requires ValidFormat(f) && IsWord(f, seen) && (d == 1 || d == -1)
    ensures PromotedAdd(f, intBits, seen, d) == Value(f, Wrap(f, seen + d))
            <==> f.bits >= intBits || LowestValue(f) <= Value(f, seen) + d <= HighestValue(f)
  {
    ModShift(-1, Modulus(f));
    ModShift(0, Modulus(f));
    assert Modulus(f) == 2 * Pow2(f.bits - 1) && Pow2(f.bits - 1) == 2 * Pow2(f.bits - 2);
  }
}

/**
 The read-modify-write macros of atomic.h over one memory word: what one turn of each retry
 loop computes from the value it loaded, and the sequential operation it is meant to implement.
 */
module AtomicOps {
  import opened Bits

  /** The type `__typeof (*(mem))`: its width and whether it is signed (two's complement). */
  datatype Format = Format(bits: nat, signed: bool)

  predicate ValidFormat(f: Format) {
    f.bits >= 2
  }

  function Modulus(f: Format): (m: nat)
    ensures m >= 1
  {
    Pow2(f.bits)
  }

  /** Words are held as their unsigned representation. */
  predicate IsWord(f: Format, u: int) {
    0 <= u < Modulus(f)
  }

  /** The number a word stands for when C compares it. */
  function Value(f: Format, u: nat): int
    requires ValidFormat(f)
  {
    if f.signed && u >= Pow2(f.bits - 1) then u - Modulus(f) else u
  }

  function LowestValue(f: Format): int
    requires ValidFormat(f)
  {
    if f.signed then 0 - Pow2(f.bits - 1) else 0
  }

  function HighestValue(f: Format): int
    requires ValidFormat(f)
  {
    if f.signed then Pow2(f.bits - 1) - 1 else Modulus(f) - 1
  }

  /** Unsigned words stand for themselves; signed ones for the number in [-2^(w-1), 2^(w-1)) congruent to them. */
  lemma ValueIsTwosComplement(f: Format, u: nat)
    requires ValidFormat(f) && u < Pow2(f.bits)
    ensures !f.signed ==> Value(f, u) == u
    ensures f.signed ==> 0 - Pow2(f.bits - 1) <= Value(f, u) < Pow2(f.bits - 1)
    ensures (Value(f, u) - u) % Pow2(f.bits) == 0
  {
    var m: int := Pow2(f.bits);
    assert m == 2 * Pow2(f.bits - 1);
    DivModUnique(0, m, 0, 0);
    DivModUnique(0 - m, m, -1, 0);
  }

  /** Every value lies between the two bounds, and both are values of words. */
  lemma BoundsAttained(f: Format)
    requires ValidFormat(f)
    ensures forall u: nat :: u < Pow2(f.bits) ==> LowestValue(f) <= Value(f, u) <= HighestValue(f)
    ensures exists u: nat :: u < Pow2(f.bits) && Value(f, u) == LowestValue(f)
    ensures exists u: nat :: u < Pow2(f.bits) && Value(f, u) == HighestValue(f)
  {
    assert Pow2(f.bits) == 2 * Pow2(f.bits - 1);
    assert Value(f, if f.signed then Pow2(f.bits - 1) else 0) == LowestValue(f);
    assert Value(f, if f.signed then Pow2(f.bits - 1) - 1 else Pow2(f.bits) - 1) == HighestValue(f);
  }

  /** Conversion of an arithmetic result back to the type of the word. */
  function Wrap(f: Format, x: int): (u: nat)
    ensures IsWord(f, u)
  {
    Mod(x, Modulus(f))
  }

  datatype Op =
    | Exchange(v: nat)
    | ExchangeAndAdd(v: nat)
    | Max(v: nat)
    | Min(v: nat)
    | DecrementIfPositive
    | BitTestSet(bit: nat)
    | AndOp(mask: nat)
    | AndVal(mask: nat)
    | OrOp(mask: nat)
    | OrVal(mask: nat)
    | CompareAndExchangeVal(newv: nat, oldv: nat)
    | CompareAndExchangeBool(newv: nat, oldv: nat)

  predicate IsMax(op: Op) { op.Max? }

  /** What the macro evaluates to; `Void` for the statement-like macros. */
  datatype Response = Void | Val(u: nat) | Flag(b: bool)

  predicate ValidOp(f: Format, op: Op) {
    match op
    case Exchange(v) => IsWord(f, v)
    case ExchangeAndAdd(v) => IsWord(f, v)
    case Max(v) => IsWord(f, v)
    case Min(v) => IsWord(f, v)
    case DecrementIfPositive => true
    case BitTestSet(b) => b < f.bits
    case AndOp(m) => IsWord(f, m)
    case AndVal(m) => IsWord(f, m)
    case OrOp(m) => IsWord(f, m)
    case OrVal(m) => IsWord(f, m)
    case CompareAndExchangeVal(n, o) => IsWord(f, n) && IsWord(f, o)
    case CompareAndExchangeBool(n, o) => IsWord(f, n) && IsWord(f, o)
  }

  /** The operations that are one compare-and-exchange, without a loop. */
  predicate Primitive(op: Op) {
    op.CompareAndExchangeVal? || op.CompareAndExchangeBool?
  }

  /** The test that leaves the loop before the compare-and-exchange. */
  predicate Exits(f: Format, op: Op, seen: nat)
    requires ValidFormat(f)
  {
    match op
    case Max(v) => Value(f, seen) >= Value(f, v)
    case Min(v) => Value(f, seen) <= Value(f, v)
    case DecrementIfPositive => Value(f, seen) <= 0
    case _ => false
  }

  /** The new value handed to the compare-and-exchange after `seen` was loaded. */
  function NewValue(f: Format, op: Op, seen: nat): nat {
    match op
    case Exchange(v) => v
    case ExchangeAndAdd(v) => Wrap(f, seen + v)
    case Max(v) => v
    case Min(v) => v
    case DecrementIfPositive => Wrap(f, seen - 1)
    case BitTestSet(b) => Or(seen, Pow2(b))
    case AndOp(m) => And(seen, m)
    case AndVal(m) => And(seen, m)
    case OrOp(m) => Or(seen, m)
    case OrVal(m) => Or(seen, m)
    case CompareAndExchangeVal(n, o) => n
    case CompareAndExchangeBool(n, o) => n
  }

  /** The value the compare-and-exchange expects to find after `seen` was loaded. */
  function Expected(op: Op, seen: nat): nat {
    match op
    case CompareAndExchangeVal(n, o) => o
    case CompareAndExchangeBool(n, o) => o
    case _ => seen
  }

  /** The value of the macro when its last load (or its compare-and-exchange) saw `seen`. */
  function Respond(op: Op, seen: nat): Response {
    match op
    case Exchange(_) => Val(seen)
    case ExchangeAndAdd(_) => Val(seen)
    case Max(_) => Void
    case Min(_) => Void
    case DecrementIfPositive => Val(seen)
    case BitTestSet(b) => Val(And(seen, Pow2(b)))
    case AndOp(_) => Void
    case AndVal(_) => Val(seen)
    case OrOp(_) => Void
    case OrVal(_) => Val(seen)
    case CompareAndExchangeVal(_, _) => Val(seen)
    case CompareAndExchangeBool(_, o) => Flag(seen != o)
  }

  /** What a whole undisturbed turn does to the word. */
  function Effect(f: Format, op: Op, seen: nat): nat
    requires ValidFormat(f)
  {
    if Exits(f, op, seen) || Expected(op, seen) != seen then seen else NewValue(f, op, seen)
  }

  /**
   The sequential operations, stated without the code: fetch-and-modify and compare-exchange
   as sections 7.17.7.4 and 7.17.7.5 of ISO/IEC 9899:2011 and the comments of the header
   describe them, with the arithmetic maximum, minimum and bounded decrement added.
   */
  ghost predicate SequentialSpec(f: Format, op: Op, before: nat, after: nat, resp: Response)
    requires ValidFormat(f)
  {
    && IsWord(f, after)
    && match op
       case Exchange(v) => after == v && resp == Val(before)
       case ExchangeAndAdd(v) => (after - before - v) % Modulus(f) == 0 && resp == Val(before)
       case Max(v) =>
         && resp == Void
         && Value(f, after) == if Value(f, before) < Value(f, v) then Value(f, v) else Value(f, before)
       case Min(v) =>
         && resp == Void
         && Value(f, after) == if Value(f, before) > Value(f, v) then Value(f, v) else Value(f, before)
       case DecrementIfPositive =>
         && resp == Val(before)
         && Value(f, after) == Value(f, before) - (if Value(f, before) > 0 then 1 else 0)
       case BitTestSet(b) =>
         && (forall i: nat :: Bit(after, i) <==> Bit(before, i) || i == b)
         && resp.Val? && (forall i: nat :: Bit(resp.u, i) <==> i == b && Bit(before, b))
       case AndOp(m) => (forall i: nat :: Bit(after, i) <==> Bit(before, i) && Bit(m, i)) && resp == Void
       case AndVal(m) => (forall i: nat :: Bit(after, i) <==> Bit(before, i) && Bit(m, i)) && resp == Val(before)
       case OrOp(m) => (forall i: nat :: Bit(after, i) <==> Bit(before, i) || Bit(m, i)) && resp == Void
       case OrVal(m) => (forall i: nat :: Bit(after, i) <==> Bit(before, i) || Bit(m, i)) && resp == Val(before)
       case CompareAndExchangeVal(n, o) => resp == Val(before) && after == if before == o then n else before
       case CompareAndExchangeBool(n, o) =>
         resp == Flag(before != o) && after == if before == o then n else before
  }

  lemma EffectIsWord(f: Format, op: Op, seen: nat)
    requires ValidFormat(f) && ValidOp(f, op) && IsWord(f, seen)
    ensures IsWord(f, Effect(f, op, seen))
  {
    match op
    case BitTestSet(b) => Pow2Monotone(b, f.bits); OrBound(seen, Pow2(b), f.bits);
    case AndOp(m) => AndBound(seen, m);
    case AndVal(m) => AndBound(seen, m);
    case OrOp(m) => OrBound(seen, m, f.bits);
    case OrVal(m) => OrBound(seen, m, f.bits);
    case _ =>
  }

  /** One undisturbed turn of each loop is the sequential operation. */
  lemma EffectMeetsSpec(f: Format, op: Op, seen: nat)
    requires ValidFormat(f) && ValidOp(f, op) && IsWord(f, seen)
    ensures SequentialSpec(f, op, seen, Effect(f, op, seen), Respond(op, seen))
  {
    EffectIsWord(f, op, seen);
    match op
    case ExchangeAndAdd(v) => WrapCongruent(f, seen + v);
    case BitTestSet(b) =>
      forall i: nat
        ensures Bit(Or(seen, Pow2(b)), i) <==> Bit(seen, i) || i == b
        ensures Bit(And(seen, Pow2(b)), i) <==> i == b && Bit(seen, b)
      {
        OrBit(seen, Pow2(b), i);
        AndBit(seen, Pow2(b), i);
        Pow2Bit(b, i);
      }
    case AndOp(m) => forall i: nat { AndBit(seen, m, i); }
    case AndVal(m) => forall i: nat { AndBit(seen, m, i); }
    case OrOp(m) => forall i: nat { OrBit(seen, m, i); }
    case OrVal(m) => forall i: nat { OrBit(seen, m, i); }
    case _ =>
  }

  /** The sequential specification leaves no freedom. */
  lemma SpecIsDeterministic(f: Format, op: Op, seen: nat, a: nat, ra: Response, b: nat, rb: Response)
    requires ValidFormat(f) && ValidOp(f, op) && IsWord(f, seen)
    requires SequentialSpec(f, op, seen, a, ra) && SequentialSpec(f, op, seen, b, rb)
    ensures a == b && ra == rb
  {
    match op
    case ExchangeAndAdd(v) => CongruentWordsEqual(a - seen - v, b - seen - v, Modulus(f));
    case Max(v) => ValueInjective(f, a, b);
    case Min(v) => ValueInjective(f, a, b);
    case DecrementIfPositive => ValueInjective(f, a, b);
    case BitTestSet(i) => BitsDetermine(a, b); BitsDetermine(ra.u, rb.u);
    case AndOp(m) => BitsDetermine(a, b);
    case AndVal(m) => BitsDetermine(a, b);
    case OrOp(m) => BitsDetermine(a, b);
    case OrVal(m) => BitsDetermine(a, b);
    case _ =>
  }

  lemma ValueInjective(f: Format, a: nat, b: nat)
    requires ValidFormat(f) && IsWord(f, a) && IsWord(f, b) && Value(f, a) == Value(f, b)
    ensures a == b
  {
  }

  lemma WrapCongruent(f: Format, x: int)
    ensures (Wrap(f, x) - x) % Modulus(f) == 0
  {
    var m := Modulus(f);
    ModIsRemainder(x, m);
    assert x % m - x == m * (-(x / m)) + 0;
    DivModUnique(x % m - x, m, -(x / m), 0);
  }

  lemma CongruentWordsEqual(x: int, y: int, m: int)
    requires m > 0 && x % m == 0 && y % m == 0 && -m < x - y < m
    ensures x == y
  {
    var qx, qy := x / m, y / m;
    assert x == m * qx && y == m * qy;
    assert m * (qx - qy) == x - y by { MulDistributes(m, qx, qy); }
    QuotientUnique(m, qx - qy, x - y);
  }

  lemma MulDistributes(m: int, a: int, b: int)
    ensures m * (a - b) == m * a - m * b
  {
  }
}

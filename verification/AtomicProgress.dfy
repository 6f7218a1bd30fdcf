/**
 Progress of the retry loops: a failed compare-and-exchange is paid for by another thread's
 success, and where every change of the word lowers a rank, each single call is bounded too.
 */
module AtomicProgress {
  import opened Bits
  import opened AtomicOps
  import opened AtomicMachine
  import opened AtomicLinearizability
  import opened AtomicHistory

  // ---------- Amortised lock-freedom ----------

  /** `e` is a compare-and-exchange of a retry loop that fails. */
  predicate FailsHere(f: Format, s: State, e: Event)
    requires Enabled(f, s, e)
  {
    e.Cas? && s.threads[e.t].Loaded? && !CasMatches(s, e)
  }

  function Failures(f: Format, m0: nat, n: nat, trace: seq<Event>): nat
    requires ValidFormat(f) && Legal(f, m0, n, trace)
  {
    if trace == [] then 0
    else
      var k := |trace| - 1;
      Failures(f, m0, n, trace[..k]) + (if FailsHere(f, After(f, m0, n, trace[..k]), trace[k]) then 1 else 0)
  }

  /** At `k` a thread compares and exchanges, and the word is not what its last load in that call saw. */
  ghost predicate AttemptFails(f: Format, m0: nat, n: nat, trace: seq<Event>, k: nat)
    requires ValidFormat(f) && Legal(f, m0, n, trace)
  {
    k < |trace| && exists i: nat :: Open(trace[..k], trace[k].t, i) && FailsAt(f, m0, n, trace, trace[k].t, i, k)
  }

  lemma AttemptFailsPrefix(f: Format, m0: nat, n: nat, trace: seq<Event>, k: nat)
    requires ValidFormat(f) && Legal(f, m0, n, trace) && k < |trace| - 1
    ensures Legal(f, m0, n, trace[..|trace| - 1])
    ensures AttemptFails(f, m0, n, trace, k) <==> AttemptFails(f, m0, n, trace[..|trace| - 1], k)
  {
    var pre := trace[..|trace| - 1];
    LegalPrefix(f, m0, n, trace, |trace| - 1);
    assert pre[..k] == trace[..k] && pre[k] == trace[k];
    if AttemptFails(f, m0, n, trace, k) {
      var i: nat :| Open(trace[..k], trace[k].t, i) && FailsAt(f, m0, n, trace, trace[k].t, i, k);
      FailsAtPrefix(f, m0, n, trace, trace[k].t, i, k);
    }
    if AttemptFails(f, m0, n, pre, k) {
      var i: nat :| Open(pre[..k], pre[k].t, i) && FailsAt(f, m0, n, pre, pre[k].t, i, k);
      FailsAtPrefix(f, m0, n, trace, trace[k].t, i, k);
    }
  }

  lemma LastAttempt(f: Format, m0: nat, n: nat, trace: seq<Event>)
    requires ValidFormat(f) && IsWord(f, m0) && Legal(f, m0, n, trace) && trace != []
    requires Legal(f, m0, n, trace[..|trace| - 1])
    ensures var k := |trace| - 1;
            AttemptFails(f, m0, n, trace, k) <==> FailsHere(f, After(f, m0, n, trace[..k]), trace[k])
  {
    var k := |trace| - 1;
    var s, t := After(f, m0, n, trace[..k]), trace[k].t;
    if trace[k].Cas? {
      InvHolds(f, m0, n, trace[..k]);
      assert ThreadOk(f, trace[..k], Log(f, m0, n, trace[..k]), t, s.threads[t]);
      RemembersHolds(f, m0, n, trace[..k], t);
      CasFails(f, m0, n, trace, t);
    }
  }

  /** The failed compare-and-exchanges of a trace. */
  ghost function FailedAttempts(f: Format, m0: nat, n: nat, trace: seq<Event>): set<nat>
    requires ValidFormat(f) && Legal(f, m0, n, trace)
  {
    set k: nat | k < |trace| && AttemptFails(f, m0, n, trace, k)
  }

  lemma OneMore(before: set<nat>, now: set<nat>, k: nat, more: bool)
    requires k !in before && forall x: nat :: x in now <==> x in before || (x == k && more)
    ensures |now| == |before| + (if more then 1 else 0)
  {
    assert now == before + (if more then {k} else {});
  }

  lemma AttemptsExtend(f: Format, m0: nat, n: nat, trace: seq<Event>)
    requires ValidFormat(f) && Legal(f, m0, n, trace) && trace != [] && Legal(f, m0, n, trace[..|trace| - 1])
    ensures var k := |trace| - 1;
            |FailedAttempts(f, m0, n, trace)| ==
            |FailedAttempts(f, m0, n, trace[..k])| + (if AttemptFails(f, m0, n, trace, k) then 1 else 0)
  {
    var k := |trace| - 1;
    forall x: nat | x < k
      ensures AttemptFails(f, m0, n, trace, x) <==> AttemptFails(f, m0, n, trace[..k], x)
    {
      AttemptFailsPrefix(f, m0, n, trace, x);
    }
    OneMore(FailedAttempts(f, m0, n, trace[..k]), FailedAttempts(f, m0, n, trace), k, AttemptFails(f, m0, n, trace, k));
  }

  /** `Failures` counts them. */
  lemma {:induction false} FailuresOnTrace(f: Format, m0: nat, n: nat, trace: seq<Event>)
    requires ValidFormat(f) && IsWord(f, m0) && Legal(f, m0, n, trace)
    ensures Failures(f, m0, n, trace) == |FailedAttempts(f, m0, n, trace)|
  {
    if trace != [] {
      var k := |trace| - 1;
      FailuresOnTrace(f, m0, n, trace[..k]);
      LastAttempt(f, m0, n, trace);
      AttemptsExtend(f, m0, n, trace);
    }
  }

  /** Steps that left a different value in the word. */
  function Changes(f: Format, m0: nat, n: nat, trace: seq<Event>): nat
    requires ValidFormat(f) && Legal(f, m0, n, trace)
  {
    if trace == [] then 0
    else
      var k := |trace| - 1;
      Changes(f, m0, n, trace[..k])
      + (if After(f, m0, n, trace).mem != After(f, m0, n, trace[..k]).mem then 1 else 0)
  }

  /** Loads and compare-and-exchanges, the steps spent inside the macros. */
  function MemorySteps(trace: seq<Event>): nat {
    if trace == [] then 0
    else
      var k := |trace| - 1;
      MemorySteps(trace[..k]) + (if trace[k].Load? || trace[k].Cas? then 1 else 0)
  }

  function ThreadIds(n: nat): (ids: set<nat>)
    ensures forall t: nat :: t in ids <==> t < n
    ensures |ids| == n
  {
    if n == 0 then {} else ThreadIds(n - 1) + {n - 1}
  }

  /** Threads whose next compare-and-exchange would fail if it came now. */
  function Stale(s: State): set<nat> {
    set t: nat | t < |s.threads| && s.threads[t].Loaded? && s.threads[t].seen != s.mem
  }

  function Holding(s: State): set<nat> {
    set t: nat | t < |s.threads| && s.threads[t].Loaded?
  }

  lemma SubsetSize(a: set<nat>, b: set<nat>)
    requires a <= b
    ensures |a| <= |b|
  {
    assert b == a + (b - a);
  }

  lemma StaleBound(s: State, t: nat)
    requires t < |s.threads| && !s.threads[t].Loaded?
    ensures |Stale(s)| <= |s.threads| - 1
  {
    SubsetSize(Stale(s), ThreadIds(|s.threads|) - {t});
  }

  /** Only a change of the word can make a thread stale, and a failure uses up a stale thread. */
  lemma StaleStep(f: Format, s: State, e: Event, now: nat)
    requires ValidFormat(f) && Enabled(f, s, e)
    ensures var s' := Next(f, s, e, now);
            && (s'.mem == s.mem && !FailsHere(f, s, e) ==> |Stale(s')| <= |Stale(s)|)
            && (FailsHere(f, s, e) ==> s'.mem == s.mem && |Stale(s')| + 1 <= |Stale(s)|)
            && (s'.mem != s.mem ==> |Stale(s')| <= |s.threads| - 1)
  {
    var s' := Next(f, s, e, now);
    if FailsHere(f, s, e) {
      assert e.t in Stale(s);
      SubsetSize(Stale(s'), Stale(s) - {e.t});
    } else if s'.mem == s.mem {
      SubsetSize(Stale(s'), Stale(s));
    } else {
      StaleBound(s', e.t);
    }
  }

  lemma {:induction false} FailuresAmortised(f: Format, m0: nat, n: nat, trace: seq<Event>)
    requires ValidFormat(f) && Legal(f, m0, n, trace)
    ensures |After(f, m0, n, trace).threads| == n
    ensures Failures(f, m0, n, trace) + |Stale(After(f, m0, n, trace))|
            <= (if n == 0 then 0 else n - 1) * Changes(f, m0, n, trace)
  {
    if trace == [] {
      assert Stale(Init(m0, n)) == {};
    } else {
      var k := |trace| - 1;
      FailuresAmortised(f, m0, n, trace[..k]);
      StaleStep(f, After(f, m0, n, trace[..k]), trace[k], k);
      MulSucc(n - 1, Changes(f, m0, n, trace[..k]));
    }
  }

  lemma MulSucc(a: int, b: int)
    ensures a * (b + 1) == a * b + a
  {
  }

  /** With `n` threads, failed attempts number at most `n - 1` for each change of the word. */
  lemma LockFree(f: Format, m0: nat, n: nat, trace: seq<Event>)
    requires ValidFormat(f) && Legal(f, m0, n, trace) && n > 0
    ensures Failures(f, m0, n, trace) <= (n - 1) * Changes(f, m0, n, trace)
  {
    FailuresAmortised(f, m0, n, trace);
  }

  lemma HoldingUpdate(s: State, s': State, t: nat)
    requires t < |s.threads| == |s'.threads| && s'.threads == s.threads[t := s'.threads[t]]
    ensures |Holding(s')| == |Holding(s)| - (if s.threads[t].Loaded? then 1 else 0)
                                          + (if s'.threads[t].Loaded? then 1 else 0)
  {
    var rest := Holding(s) - {t};
    assert Holding(s') == if s'.threads[t].Loaded? then rest + {t} else rest;
    assert Holding(s) == if s.threads[t].Loaded? then rest + {t} else rest;
  }

  /** Every load or compare-and-exchange belongs to a success, a failure or a load still held. */
  lemma {:induction false} StepsAccounted(f: Format, m0: nat, n: nat, trace: seq<Event>)
    requires ValidFormat(f) && Legal(f, m0, n, trace)
    ensures MemorySteps(trace) <= 2 * |Log(f, m0, n, trace)| + 2 * Failures(f, m0, n, trace)
                                  + |Holding(After(f, m0, n, trace))|
    ensures Changes(f, m0, n, trace) <= |Log(f, m0, n, trace)|
  {
    if trace == [] {
    } else {
      var k := |trace| - 1;
      StepsAccounted(f, m0, n, trace[..k]);
      HoldingUpdate(After(f, m0, n, trace[..k]), After(f, m0, n, trace), trace[k].t);
    }
  }

  /**
   Some call always completes: the steps spent inside the macros are bounded by the number of
   calls that have taken effect, so a longer run has completed more calls.
   */
  lemma SomeCallCompletes(f: Format, m0: nat, n: nat, trace: seq<Event>)
    requires ValidFormat(f) && Legal(f, m0, n, trace) && n > 0
    ensures MemorySteps(trace) <= 2 * n * |Log(f, m0, n, trace)| + n
  {
    StepsAccounted(f, m0, n, trace);
    FailuresAmortised(f, m0, n, trace);
    var s, done, c := After(f, m0, n, trace), |Log(f, m0, n, trace)|, Changes(f, m0, n, trace);
    SubsetSize(Holding(s), ThreadIds(n));
    StepArithmetic(n, done, c, Failures(f, m0, n, trace), MemorySteps(trace));
  }

  lemma StepArithmetic(n: nat, done: nat, changes: nat, fails: nat, steps: nat)
    requires n > 0 && changes <= done && fails <= (n - 1) * changes && steps <= 2 * done + 2 * fails + n
    ensures steps <= 2 * n * done + n
  {
    MulMonotone(n - 1, changes, done);
    assert 2 * n * done == 2 * ((n - 1) * done) + 2 * done;
  }

  // ---------- Wait-freedom where every change lowers a rank ----------

  /**
   `rank(op, u)` bounds the number of times a call of `op` that loaded `u` can still fail:
   no allowed operation raises it, and an operation that changes a word on which `op` would
   go on to its compare-and-exchange lowers it.
   */
  ghost predicate IsRank(f: Format, allowed: Op -> bool, rank: (Op, nat) -> nat)
    requires ValidFormat(f)
  {
    forall op, other, u ::
      allowed(op) && allowed(other) && ValidOp(f, op) && ValidOp(f, other) && IsWord(f, u) ==>
        && rank(op, Effect(f, other, u)) <= rank(op, u)
        && (!Exits(f, op, u) && Effect(f, other, u) != u ==> rank(op, Effect(f, other, u)) < rank(op, u))
  }

  ghost predicate RankOk(f: Format, mem: nat, th: Thread, allowed: Op -> bool, rank: (Op, nat) -> nat)
    requires ValidFormat(f)
  {
    !th.Idle? ==>
      var c := th.call;
      && allowed(c.op) && ValidOp(f, c.op)
      && (c.first.None? ==> c.fails == 0 && !th.Loaded?)
      && (c.first.Some? ==> c.fails <= rank(c.op, c.first.value))
      && (th.Ready? && c.first.Some? ==> c.fails + rank(c.op, mem) <= rank(c.op, c.first.value))
      && (th.Loaded? ==>
            && IsWord(f, th.seen) && !Exits(f, c.op, th.seen) && !Primitive(c.op)
            && c.fails + rank(c.op, th.seen) <= rank(c.op, c.first.value)
            && (mem == th.seen || rank(c.op, mem) < rank(c.op, th.seen)))
  }

  /** What other threads do to the word keeps a thread within its bound. */
  lemma RankOther(f: Format, mem: nat, other: Op, th: Thread, allowed: Op -> bool, rank: (Op, nat) -> nat)
    requires ValidFormat(f) && IsRank(f, allowed, rank) && IsWord(f, mem)
    requires allowed(other) && ValidOp(f, other) && RankOk(f, mem, th, allowed, rank)
    ensures RankOk(f, Effect(f, other, mem), th, allowed, rank)
  {
    if !th.Idle? {
      assert rank(th.call.op, Effect(f, other, mem)) <= rank(th.call.op, mem);
    }
  }

  lemma RankOwn(f: Format, s: State, e: Event, now: nat, allowed: Op -> bool, rank: (Op, nat) -> nat)
    requires ValidFormat(f) && IsWord(f, s.mem) && Enabled(f, s, e)
    requires RankOk(f, s.mem, s.threads[e.t], allowed, rank)
    requires e.Invoke? ==> allowed(e.op)
    ensures var s' := Next(f, s, e, now); RankOk(f, s'.mem, s'.threads[e.t], allowed, rank)
  {
  }

  lemma {:induction false} RankHolds(
    f: Format, m0: nat, n: nat, trace: seq<Event>, allowed: Op -> bool, rank: (Op, nat) -> nat)
    requires ValidFormat(f) && IsWord(f, m0) && Legal(f, m0, n, trace)
    requires IsRank(f, allowed, rank) && Invokes(trace, allowed)
    ensures var s := After(f, m0, n, trace);
            && IsWord(f, s.mem)
            && forall t :: 0 <= t < |s.threads| ==> RankOk(f, s.mem, s.threads[t], allowed, rank)
  {
    if trace != [] {
      var k := |trace| - 1;
      RankHolds(f, m0, n, trace[..k], allowed, rank);
      var s, e := After(f, m0, n, trace[..k]), trace[k];
      RankOwn(f, s, e, k, allowed, rank);
      StepEffect(f, s, e, k);
      var s' := Next(f, s, e, k);
      if Logged(f, s, e, k) != [] {
        LoggedCall(f, s, e, k);
        EffectIsWord(f, s.threads[e.t].call.op, s.mem);
      }
      forall t | 0 <= t < |s'.threads| && t != e.t ensures RankOk(f, s'.mem, s'.threads[t], allowed, rank) {
        if Logged(f, s, e, k) != [] {
          RankOther(f, s.mem, s.threads[e.t].call.op, s.threads[t], allowed, rank);
        }
      }
    }
  }

  /**
   The call that `t` invoked at `i` fails no more often than the rank of the word at its first load
   `j`. (For a call that has returned, take the trace up to its return.)
   */
  lemma RetriesBoundedByRank(
    f: Format, m0: nat, n: nat, trace: seq<Event>, allowed: Op -> bool, rank: (Op, nat) -> nat,
    t: nat, i: nat, j: nat)
    requires ValidFormat(f) && IsWord(f, m0) && Legal(f, m0, n, trace)
    requires IsRank(f, allowed, rank) && Invokes(trace, allowed)
    requires Open(trace, t, i) && FirstLoadAfter(trace, t, i, j)
    ensures |Failed(f, m0, n, trace, t, i)| <= rank(trace[i].op, WordAt(f, m0, n, trace, j))
  {
    CallOnTrace(f, m0, n, trace, t, i);
    RankHolds(f, m0, n, trace, allowed, rank);
    var s := After(f, m0, n, trace);
    assert RankOk(f, s.mem, s.threads[t], allowed, rank);
  }

  /** How far the word is below the operand of `atomic_max`. */
  function MaxRank(f: Format, op: Op, u: nat): nat
    requires ValidFormat(f)
  {
    if op.Max? && Value(f, u) < Value(f, op.v) then Value(f, op.v) - Value(f, u) else 0
  }

  lemma MaxRankIsRank(f: Format)
    requires ValidFormat(f)
    ensures IsRank(f, IsMax, (op: Op, u: nat) => MaxRank(f, op, u))
  {
  }

  /** With only `atomic_max` on the word, a call retries at most `value - first loaded value` times. */
  lemma MaxRetries(f: Format, m0: nat, n: nat, trace: seq<Event>, t: nat, i: nat, j: nat)
    requires ValidFormat(f) && IsWord(f, m0) && Legal(f, m0, n, trace)
    requires Invokes(trace, IsMax)
    requires Open(trace, t, i) && FirstLoadAfter(trace, t, i, j)
    ensures trace[i].op.Max?
    ensures var fails := |Failed(f, m0, n, trace, t, i)|;
            fails > 0 ==> fails <= Value(f, trace[i].op.v) - Value(f, WordAt(f, m0, n, trace, j))
  {
    MaxRankIsRank(f);
    RetriesBoundedByRank(f, m0, n, trace, IsMax, (op: Op, u: nat) => MaxRank(f, op, u), t, i, j);
  }

  predicate SetsBits(op: Op) {
    op.BitTestSet? || op.OrOp? || op.OrVal?
  }

  lemma ClearBitsIsRank(f: Format)
    requires ValidFormat(f)
    ensures IsRank(f, SetsBits, (op: Op, u: nat) => |ClearBits(u, f.bits)|)
  {
    forall other: Op, u: nat | SetsBits(other) && ValidOp(f, other) && IsWord(f, u)
      ensures |ClearBits(Effect(f, other, u), f.bits)| <= |ClearBits(u, f.bits)|
      ensures Effect(f, other, u) != u ==> |ClearBits(Effect(f, other, u), f.bits)| < |ClearBits(u, f.bits)|
    {
      match other
      case BitTestSet(b) => Pow2Monotone(b, f.bits); OrFewerClearBits(u, Pow2(b), f.bits);
      case OrOp(m) => OrFewerClearBits(u, m, f.bits);
      case OrVal(m) => OrFewerClearBits(u, m, f.bits);
    }
  }

  /** With only or and bit-set operations, a call retries at most once per clear bit of its first load. */
  lemma BitSetRetries(f: Format, m0: nat, n: nat, trace: seq<Event>, t: nat, i: nat, j: nat)
    requires ValidFormat(f) && IsWord(f, m0) && Legal(f, m0, n, trace)
    requires Invokes(trace, SetsBits)
    requires Open(trace, t, i) && FirstLoadAfter(trace, t, i, j)
    ensures |Failed(f, m0, n, trace, t, i)| <= |ClearBits(WordAt(f, m0, n, trace, j), f.bits)|
  {
    ClearBitsIsRank(f);
    RetriesBoundedByRank(f, m0, n, trace, SetsBits, (op: Op, u: nat) => |ClearBits(u, f.bits)|, t, i, j);
  }
}

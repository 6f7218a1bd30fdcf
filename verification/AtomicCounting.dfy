/**
 What whole runs of the macros add up to: conservation, tickets, the bounded decrement,
 test-and-set, maxima. The log of a run lists the calls that have taken effect.
 */
module AtomicCounting {
  import opened Bits
  import opened AtomicOps
  import opened AtomicMachine
  import opened AtomicLinearizability

  predicate IsAdd(op: Op) { op.ExchangeAndAdd? }

  predicate IsIncrement(op: Op) { op == ExchangeAndAdd(1) }

  predicate IsBoundedDecrement(op: Op) { op.DecrementIfPositive? }

  predicate IsBitTestSet(op: Op) { op.BitTestSet? }

  ghost predicate Logs(f: Format, m0: nat, log: seq<Entry>, allowed: Op -> bool)
    requires ValidFormat(f)
  {
    && Replays(f, m0, log)
    && forall k :: 0 <= k < |log| ==> allowed(log[k].call.op)
  }

  /** Only invoked operations take effect, and the word is what they leave. */
  lemma RunLogs(f: Format, m0: nat, n: nat, trace: seq<Event>, allowed: Op -> bool)
    requires ValidFormat(f) && IsWord(f, m0) && Legal(f, m0, n, trace) && Invokes(trace, allowed)
    ensures Logs(f, m0, Log(f, m0, n, trace), allowed)
    ensures After(f, m0, n, trace).mem == Replay(f, m0, Ops(Log(f, m0, n, trace)))
  {
    InvHolds(f, m0, n, trace);
    var log := Log(f, m0, n, trace);
    forall k | 0 <= k < |log| ensures allowed(log[k].call.op) {
      assert EntryOk(trace, log[k]);
    }
  }

  lemma LogsPrefix(f: Format, m0: nat, log: seq<Entry>, allowed: Op -> bool)
    requires ValidFormat(f) && Logs(f, m0, log, allowed) && log != []
    ensures var k := |log| - 1;
            && Logs(f, m0, log[..k], allowed)
            && Ops(log)[..k] == Ops(log[..k])
            && Replay(f, m0, Ops(log)) == Effect(f, log[k].call.op, Replay(f, m0, Ops(log[..k])))
            && log[k].resp == Respond(log[k].call.op, Replay(f, m0, Ops(log[..k])))
  {
    var k := |log| - 1;
    assert Ops(log)[..k] == Ops(log[..k]);
    assert ReplaysAt(f, m0, log, k);
    LogsTake(f, m0, log, allowed, k);
  }

  lemma LogsTake(f: Format, m0: nat, log: seq<Entry>, allowed: Op -> bool, k: nat)
    requires ValidFormat(f) && Logs(f, m0, log, allowed) && k <= |log|
    ensures Logs(f, m0, log[..k], allowed)
  {
    forall j: nat | j < k ensures ReplaysAt(f, m0, log[..k], j) {
      assert ReplaysAt(f, m0, log, j);
      assert log[..k][..j] == log[..j];
    }
  }

  // ---------- When nobody is inside a macro, the log is exactly the completed calls ----------

  lemma {:induction false} ReturnExists(trace: seq<Event>, i: nat, r: nat) returns (first: nat)
    requires i < r < |trace| && trace[i].Invoke? && IsReturnOf(trace[r], trace[i].t)
    ensures Completed(trace, i, first)
  {
    if k :| i < k < r && IsReturnOf(trace[k], trace[i].t) {
      first := ReturnExists(trace, i, k);
    } else {
      first := r;
    }
  }

  /** No thread is inside a macro. */
  ghost predicate Quiescent(s: State) {
    forall t :: 0 <= t < |s.threads| ==> s.threads[t].Idle?
  }

  /** In a quiescent state every logged call has returned, with its logged response. */
  lemma QuiescentLogIsReturned(f: Format, m0: nat, n: nat, trace: seq<Event>, k: nat) returns (r: nat)
    requires ValidFormat(f) && IsWord(f, m0) && Legal(f, m0, n, trace)
    requires Quiescent(After(f, m0, n, trace))
    requires k < |Log(f, m0, n, trace)|
    ensures Completed(trace, Log(f, m0, n, trace)[k].call.inv, r)
    ensures trace[r].resp == Log(f, m0, n, trace)[k].resp
  {
    InvHolds(f, m0, n, trace);
    var s, log := After(f, m0, n, trace), Log(f, m0, n, trace);
    var i := log[k].call.inv;
    assert EntryOk(trace, log[k]);
    InvokerExists(f, m0, n, trace, i);
    var t := trace[i].t;
    assert ThreadOk(f, trace, log, t, s.threads[t]);
    assert !Open(trace, t, i);
    var r0 :| i < r0 < |trace| && IsReturnOf(trace[r0], t);
    r := ReturnExists(trace, i, r0);
    var k' :| 0 <= k' < |log| && log[k'].call.inv == i && log[k'].resp == trace[r].resp && log[k'].at < r;
  }

  /** The completed calls, by invocation, whose operation and result satisfy `p`. */
  ghost function Returned(trace: seq<Event>, p: (Op, Response) -> bool): set<nat> {
    set i: nat | i < |trace| && exists r: nat :: Completed(trace, i, r) && p(trace[i].op, trace[r].resp)
  }

  /** The same of the log. */
  function Effective(log: seq<Entry>, p: (Op, Response) -> bool): set<nat> {
    set k: nat | k < |log| && p(log[k].call.op, log[k].resp) :: log[k].call.inv
  }

  function Count(log: seq<Entry>, p: (Op, Response) -> bool): nat {
    if log == [] then 0
    else
      var k := |log| - 1;
      Count(log[..k], p) + (if p(log[k].call.op, log[k].resp) then 1 else 0)
  }

  lemma EffectiveStep(log: seq<Entry>, p: (Op, Response) -> bool)
    requires log != []
    ensures var k := |log| - 1;
            Effective(log, p) == Effective(log[..k], p)
              + (if p(log[k].call.op, log[k].resp) then {log[k].call.inv} else {})
  {
    var k := |log| - 1;
    forall i: nat | i in Effective(log, p)
      ensures i in Effective(log[..k], p) || (p(log[k].call.op, log[k].resp) && i == log[k].call.inv)
    {
      var j: nat :| j < |log| && p(log[j].call.op, log[j].resp) && log[j].call.inv == i;
      if j < k { assert log[..k][j] == log[j]; }
    }
    forall i: nat | i in Effective(log[..k], p) ensures i in Effective(log, p) {
      var j: nat :| j < k && p(log[..k][j].call.op, log[..k][j].resp) && log[..k][j].call.inv == i;
      assert log[j] == log[..k][j];
    }
  }

  lemma {:induction false} EffectiveCount(log: seq<Entry>, p: (Op, Response) -> bool)
    requires forall j, k :: 0 <= j < k < |log| ==> log[j].call.inv != log[k].call.inv
    ensures |Effective(log, p)| == Count(log, p)
  {
    if log != [] {
      var k := |log| - 1;
      EffectiveStep(log, p);
      EffectiveCount(log[..k], p);
      forall j: nat | j < k ensures log[..k][j].call.inv != log[k].call.inv {}
      assert log[k].call.inv !in Effective(log[..k], p);
    }
  }

  /** In a quiescent state the calls that returned are the calls that took effect. */
  lemma ReturnedIsEffective(f: Format, m0: nat, n: nat, trace: seq<Event>, p: (Op, Response) -> bool)
    requires ValidFormat(f) && IsWord(f, m0) && Legal(f, m0, n, trace) && Quiescent(After(f, m0, n, trace))
    ensures Returned(trace, p) == Effective(Log(f, m0, n, trace), p)
  {
    InvHolds(f, m0, n, trace);
    var log := Log(f, m0, n, trace);
    forall i: nat | i in Returned(trace, p) ensures i in Effective(log, p) {
      var r: nat :| Completed(trace, i, r) && p(trace[i].op, trace[r].resp);
      var k :| 0 <= k < |log| && log[k].call.inv == i && log[k].resp == trace[r].resp && log[k].at < r;
      assert EntryOk(trace, log[k]);
    }
    forall i: nat | i in Effective(log, p) ensures i in Returned(trace, p) {
      var k: nat :| k < |log| && p(log[k].call.op, log[k].resp) && log[k].call.inv == i;
      assert EntryOk(trace, log[k]);
      var r := QuiescentLogIsReturned(f, m0, n, trace, k);
      assert Completed(trace, i, r) && p(trace[i].op, trace[r].resp);
    }
  }

  lemma ReturnedCount(f: Format, m0: nat, n: nat, trace: seq<Event>, p: (Op, Response) -> bool)
    requires ValidFormat(f) && IsWord(f, m0) && Legal(f, m0, n, trace) && Quiescent(After(f, m0, n, trace))
    ensures |Returned(trace, p)| == Count(Log(f, m0, n, trace), p)
  {
    InvHolds(f, m0, n, trace);
    ReturnedIsEffective(f, m0, n, trace, p);
    EffectiveCount(Log(f, m0, n, trace), p);
  }

  // ---------- Addition conserves; increments hand out tickets ----------

  function OperandSum(ops: seq<Op>): int {
    if ops == [] then 0
    else
      var k := |ops| - 1;
      OperandSum(ops[..k]) + (if ops[k].ExchangeAndAdd? then ops[k].v else 0)
  }

  lemma {:induction false} ReplaySum(f: Format, m0: nat, ops: seq<Op>)
    requires ValidFormat(f) && IsWord(f, m0)
    requires forall k :: 0 <= k < |ops| ==> ops[k].ExchangeAndAdd?
    ensures Replay(f, m0, ops) == Wrap(f, m0 + OperandSum(ops))
  {
    if ops != [] {
      var k := |ops| - 1;
      ReplaySum(f, m0, ops[..k]);
      ModAdd(m0 + OperandSum(ops[..k]), ops[k].v, Modulus(f));
    }
  }

  /** `mem` is the initial value plus every operand in the log, modulo 2^w. */
  predicate SumsTo(f: Format, m0: nat, log: seq<Entry>, mem: nat) {
    mem == Wrap(f, m0 + OperandSum(Ops(log)))
  }

  lemma LogSum(f: Format, m0: nat, log: seq<Entry>, mem: nat)
    requires ValidFormat(f) && IsWord(f, m0) && Logs(f, m0, log, IsAdd) && mem == Replay(f, m0, Ops(log))
    ensures SumsTo(f, m0, log, mem)
  {
    ReplaySum(f, m0, Ops(log));
  }

  /** With only additions, the word is the initial value plus every committed operand, modulo 2^w. */
  lemma AdditionConserves(f: Format, m0: nat, n: nat, trace: seq<Event>)
    requires ValidFormat(f) && IsWord(f, m0) && Legal(f, m0, n, trace)
    requires Invokes(trace, IsAdd)
    ensures SumsTo(f, m0, Log(f, m0, n, trace), After(f, m0, n, trace).mem)
  {
    RunLogs(f, m0, n, trace, IsAdd);
    LogSum(f, m0, Log(f, m0, n, trace), After(f, m0, n, trace).mem);
  }

  lemma {:induction false} UnitSum(ops: seq<Op>)
    requires forall k :: 0 <= k < |ops| ==> ops[k] == ExchangeAndAdd(1)
    ensures OperandSum(ops) == |ops|
  {
    if ops != [] { UnitSum(ops[..|ops| - 1]); }
  }

  /** The k-th increment to take effect returns the k-th word after the initial one. */
  lemma TicketOf(f: Format, m0: nat, log: seq<Entry>, k: nat)
    requires ValidFormat(f) && IsWord(f, m0) && k < |log|
    requires Logs(f, m0, log, IsIncrement)
    ensures log[k].resp == Val(Wrap(f, m0 + k))
  {
    assert ReplaysAt(f, m0, log, k);
    ReplayIncrements(f, m0, Ops(log[..k]));
  }

  lemma RemaindersDistinct(x: int, y: int, m: int)
    requires m > 0 && x < y < x + m
    ensures x % m != y % m
  {
    if x % m == y % m {
      MulDistributes(m, y / m, x / m);
      QuotientUnique(m, y / m - x / m, y - x);
    }
  }

  lemma WrapDistinct(f: Format, x: int, j: int, k: int)
    requires 0 <= j < k < Modulus(f) + j
    ensures Wrap(f, x + j) != Wrap(f, x + k)
  {
    ModIsRemainder(x + j, Modulus(f));
    ModIsRemainder(x + k, Modulus(f));
    RemaindersDistinct(x + j, x + k, Modulus(f));
  }

  /**
   Concurrent increments return one contiguous block of words starting at the initial value;
   as long as at most 2^w of them took effect, no two completed calls return the same one.
   */
  lemma Tickets(f: Format, m0: nat, n: nat, trace: seq<Event>, i: nat, r: nat) returns (k: nat)
    requires ValidFormat(f) && IsWord(f, m0) && Legal(f, m0, n, trace)
    requires Invokes(trace, IsIncrement)
    requires Completed(trace, i, r)
    ensures k < |Log(f, m0, n, trace)| && trace[r].resp == Val(Wrap(f, m0 + k))
    ensures |Log(f, m0, n, trace)| <= Modulus(f) ==>
              forall i': nat, r': nat :: Completed(trace, i', r') && i' != i ==> trace[r'].resp != trace[r].resp
  {
    RunLogs(f, m0, n, trace, IsIncrement);
    InvHolds(f, m0, n, trace);
    k := TicketsInLog(f, m0, trace, Log(f, m0, n, trace), i, r);
  }

  lemma TicketsInLog(f: Format, m0: nat, trace: seq<Event>, log: seq<Entry>, i: nat, r: nat) returns (k: nat)
    requires ValidFormat(f) && IsWord(f, m0) && ReturnsOk(trace, log) && Completed(trace, i, r)
    requires Logs(f, m0, log, IsIncrement)
    ensures k < |log| && trace[r].resp == Val(Wrap(f, m0 + k))
    ensures |log| <= Modulus(f) ==>
              forall i': nat, r': nat :: Completed(trace, i', r') && i' != i ==> trace[r'].resp != trace[r].resp
  {
    k :| 0 <= k < |log| && log[k].call.inv == i && log[k].resp == trace[r].resp && log[k].at < r;
    TicketOf(f, m0, log, k);
    if |log| <= Modulus(f) {
      forall i': nat, r': nat | Completed(trace, i', r') && i' != i ensures trace[r'].resp != trace[r].resp {
        var k' :| 0 <= k' < |log| && log[k'].call.inv == i' && log[k'].resp == trace[r'].resp && log[k'].at < r';
        TicketOf(f, m0, log, k');
        if k < k' { WrapDistinct(f, m0, k, k'); } else { WrapDistinct(f, m0, k', k); }
      }
    }
  }

  /** No ticket is skipped: once everybody has returned, each word of the block was returned. */
  lemma TicketsContiguous(f: Format, m0: nat, n: nat, trace: seq<Event>, k: nat) returns (i: nat, r: nat)
    requires ValidFormat(f) && IsWord(f, m0) && Legal(f, m0, n, trace)
    requires Invokes(trace, IsIncrement)
    requires Quiescent(After(f, m0, n, trace))
    requires k < |Log(f, m0, n, trace)|
    ensures Completed(trace, i, r) && trace[r].resp == Val(Wrap(f, m0 + k))
    ensures After(f, m0, n, trace).mem == Wrap(f, m0 + |Log(f, m0, n, trace)|)
  {
    RunLogs(f, m0, n, trace, IsIncrement);
    i := Log(f, m0, n, trace)[k].call.inv;
    r := QuiescentLogIsReturned(f, m0, n, trace, k);
    TicketOf(f, m0, Log(f, m0, n, trace), k);
    IncrementSum(f, m0, Log(f, m0, n, trace), After(f, m0, n, trace).mem);
  }

  lemma ReplayIncrements(f: Format, m0: nat, ops: seq<Op>)
    requires ValidFormat(f) && IsWord(f, m0)
    requires forall k :: 0 <= k < |ops| ==> ops[k] == ExchangeAndAdd(1)
    ensures Replay(f, m0, ops) == Wrap(f, m0 + |ops|)
  {
    ReplaySum(f, m0, ops);
    UnitSum(ops);
  }

  lemma IncrementSum(f: Format, m0: nat, log: seq<Entry>, mem: nat)
    requires ValidFormat(f) && IsWord(f, m0) && Logs(f, m0, log, IsIncrement) && mem == Replay(f, m0, Ops(log))
    ensures mem == Wrap(f, m0 + |log|)
  {
    ReplayIncrements(f, m0, Ops(log));
  }

  // ---------- The bounded decrement ----------

  predicate CounterOp(op: Op) {
    op.DecrementIfPositive? || op == ExchangeAndAdd(1)
  }

  /** The caller of `atomic_decrement_if_positive` sees a positive old value: it got a unit. */
  predicate GotUnit(f: Format, op: Op, resp: Response)
    requires ValidFormat(f)
  {
    op.DecrementIfPositive? && resp.Val? && Value(f, resp.u) > 0
  }

  function Taken(f: Format, log: seq<Entry>): nat
    requires ValidFormat(f)
  {
    if log == [] then 0
    else Taken(f, log[..|log| - 1]) + (if GotUnit(f, log[|log| - 1].call.op, log[|log| - 1].resp) then 1 else 0)
  }

  function Put(log: seq<Entry>): nat {
    if log == [] then 0
    else Put(log[..|log| - 1]) + (if log[|log| - 1].call.op.ExchangeAndAdd? then 1 else 0)
  }

  lemma CounterStep(f: Format, op: Op, u: nat)
    requires ValidFormat(f) && IsWord(f, u) && CounterOp(op) && 0 <= Value(f, u) <= HighestValue(f)
    requires op.ExchangeAndAdd? ==> Value(f, u) < HighestValue(f)
    ensures Value(f, Effect(f, op, u)) == Value(f, u)
              + (if op.ExchangeAndAdd? then 1 else 0) - (if op.DecrementIfPositive? && Value(f, u) > 0 then 1 else 0)
    ensures IsWord(f, Effect(f, op, u))
  {
  }

  /** No increment took effect on the highest value: the counter never overflowed. */
  predicate NeverOverflows(f: Format, log: seq<Entry>)
    requires ValidFormat(f)
  {
    forall k :: 0 <= k < |log| && log[k].call.op.ExchangeAndAdd? && log[k].resp.Val? ==>
      Value(f, log[k].resp.u) != HighestValue(f)
  }

  lemma {:induction false} CounterBalance(f: Format, m0: nat, log: seq<Entry>)
    requires ValidFormat(f) && IsWord(f, m0) && 0 <= Value(f, m0)
    requires Logs(f, m0, log, CounterOp) && NeverOverflows(f, log)
    ensures var u := Replay(f, m0, Ops(log));
            && IsWord(f, u)
            && 0 <= Value(f, u) <= HighestValue(f)
            && Value(f, u) + Taken(f, log) == Value(f, m0) + Put(log)
  {
    if log != [] {
      LogsPrefix(f, m0, log, CounterOp);
      var k := |log| - 1;
      CounterBalance(f, m0, log[..k]);
      CounterStep(f, log[k].call.op, Replay(f, m0, Ops(log[..k])));
    }
  }

  /** A nonnegative counter never goes negative: units taken plus units left are units put in. */
  lemma DecrementIfPositiveBalance(f: Format, m0: nat, n: nat, trace: seq<Event>)
    requires ValidFormat(f) && IsWord(f, m0) && Legal(f, m0, n, trace)
    requires Invokes(trace, CounterOp)
    requires 0 <= Value(f, m0) && NeverOverflows(f, Log(f, m0, n, trace))
    ensures var u := After(f, m0, n, trace).mem;
            var log := Log(f, m0, n, trace);
            0 <= Value(f, u) && Value(f, u) + Taken(f, log) == Value(f, m0) + Put(log)
  {
    RunLogs(f, m0, n, trace, CounterOp);
    CounterBalance(f, m0, Log(f, m0, n, trace));
  }

  lemma {:induction false} TakenIsMin(f: Format, m0: nat, log: seq<Entry>)
    requires ValidFormat(f) && IsWord(f, m0) && 0 <= Value(f, m0)
    requires Logs(f, m0, log, IsBoundedDecrement)
    ensures Put(log) == 0
    ensures Taken(f, log) == if Value(f, m0) < |log| then Value(f, m0) else |log|
  {
    if log != [] {
      LogsPrefix(f, m0, log, IsBoundedDecrement);
      var k := |log| - 1;
      TakenIsMin(f, m0, log[..k]);
      CounterBalance(f, m0, log[..k]);
    }
  }

  lemma {:induction false} TakenIsCount(f: Format, log: seq<Entry>)
    requires ValidFormat(f)
    ensures Taken(f, log) == Count(log, (op: Op, resp: Response) => GotUnit(f, op, resp))
    ensures |log| == Count(log, (op: Op, resp: Response) => true)
  {
    if log != [] { TakenIsCount(f, log[..|log| - 1]); }
  }

  /** With decrements only, exactly min(v, n) of the n calls that took effect got a unit. */
  lemma DecrementIfPositiveExact(f: Format, m0: nat, n: nat, trace: seq<Event>)
    requires ValidFormat(f) && IsWord(f, m0) && Legal(f, m0, n, trace)
    requires Invokes(trace, IsBoundedDecrement) && 0 <= Value(f, m0)
    ensures var log := Log(f, m0, n, trace);
            Taken(f, log) == if Value(f, m0) < |log| then Value(f, m0) else |log|
  {
    RunLogs(f, m0, n, trace, IsBoundedDecrement);
    TakenIsMin(f, m0, Log(f, m0, n, trace));
  }

  /** Once everybody has returned, exactly min(v, n) of the n calls returned a positive value. */
  lemma DecrementIfPositiveReturns(f: Format, m0: nat, n: nat, trace: seq<Event>)
    requires ValidFormat(f) && IsWord(f, m0) && Legal(f, m0, n, trace) && Quiescent(After(f, m0, n, trace))
    requires Invokes(trace, IsBoundedDecrement) && 0 <= Value(f, m0)
    ensures var calls := |Returned(trace, (op: Op, resp: Response) => true)|;
            |Returned(trace, (op: Op, resp: Response) => GotUnit(f, op, resp))|
            == if Value(f, m0) < calls then Value(f, m0) else calls
  {
    DecrementIfPositiveExact(f, m0, n, trace);
    TakenIsCount(f, Log(f, m0, n, trace));
    ReturnedCount(f, m0, n, trace, (op: Op, resp: Response) => GotUnit(f, op, resp));
    ReturnedCount(f, m0, n, trace, (op: Op, resp: Response) => true);
  }

  // ---------- Test-and-set ----------

  predicate Targets(x: Entry, b: nat) {
    x.call.op == BitTestSet(b)
  }

  /** Positions in the log of the calls on bit `b` that saw it clear. */
  function Winners(log: seq<Entry>, b: nat): set<nat> {
    set k: nat | k < |log| && Targets(log[k], b) && log[k].resp == Val(0)
  }

  ghost predicate Targeted(log: seq<Entry>, b: nat) {
    exists k :: 0 <= k < |log| && Targets(log[k], b)
  }

  lemma TargetedStep(log: seq<Entry>, b: nat)
    requires log != []
    ensures Targeted(log, b) <==> Targeted(log[..|log| - 1], b) || Targets(log[|log| - 1], b)
  {
    var k := |log| - 1;
    if j :| 0 <= j < |log| && Targets(log[j], b) && j != k {
      assert Targets(log[..k][j], b);
    }
  }

  lemma BitEffect(f: Format, c: nat, u: nat, b: nat)
    requires ValidFormat(f)
    ensures Bit(Effect(f, BitTestSet(c), u), b) <==> Bit(u, b) || b == c
  {
    OrBit(u, Pow2(c), b);
    Pow2Bit(c, b);
  }

  lemma {:induction false} BitAfter(f: Format, m0: nat, log: seq<Entry>, b: nat)
    requires ValidFormat(f) && IsWord(f, m0) && Logs(f, m0, log, IsBitTestSet)
    ensures Bit(Replay(f, m0, Ops(log)), b) <==> Bit(m0, b) || Targeted(log, b)
  {
    if log != [] {
      LogsPrefix(f, m0, log, IsBitTestSet);
      var k := |log| - 1;
      BitAfter(f, m0, log[..k], b);
      BitEffect(f, log[k].call.op.bit, Replay(f, m0, Ops(log[..k])), b);
      TargetedStep(log, b);
    }
  }

  /** A call sees its bit clear exactly when the bit was clear and no earlier call was on it. */
  lemma WinnerIsFirst(f: Format, m0: nat, log: seq<Entry>, b: nat, k: nat)
    requires ValidFormat(f) && IsWord(f, m0) && Logs(f, m0, log, IsBitTestSet)
    requires k < |log| && Targets(log[k], b)
    ensures log[k].resp == Val(0) <==> !Bit(m0, b) && forall j :: 0 <= j < k ==> !Targets(log[j], b)
  {
    var pre := log[..k];
    assert ReplaysAt(f, m0, log, k);
    LogsTake(f, m0, log, IsBitTestSet, k);
    forall j | 0 <= j < k ensures pre[j] == log[j] {}
    BitAfter(f, m0, pre, b);
    AndMask(Replay(f, m0, Ops(pre)), b);
  }

  lemma {:induction false} FirstTarget(log: seq<Entry>, b: nat, k: nat) returns (w: nat)
    requires k < |log| && Targets(log[k], b)
    ensures w <= k && Targets(log[w], b) && forall j :: 0 <= j < w ==> !Targets(log[j], b)
  {
    if j :| 0 <= j < k && Targets(log[j], b) { w := FirstTarget(log, b, j); } else { w := k; }
  }

  /**
   With only bit-set operations: a bit that starts clear and is set by somebody has exactly one
   winner, a bit that starts set has none, and a bit nobody targets keeps its value.
   */
  lemma TestAndSetUnique(f: Format, m0: nat, n: nat, trace: seq<Event>, b: nat)
    requires ValidFormat(f) && IsWord(f, m0) && Legal(f, m0, n, trace)
    requires Invokes(trace, IsBitTestSet)
    ensures var log := Log(f, m0, n, trace);
            var targeted := Targeted(log, b);
            && |Winners(log, b)| == (if !Bit(m0, b) && targeted then 1 else 0)
            && (Bit(After(f, m0, n, trace).mem, b) <==> Bit(m0, b) || targeted)
  {
    RunLogs(f, m0, n, trace, IsBitTestSet);
    var log := Log(f, m0, n, trace);
    BitAfter(f, m0, log, b);
    OneWinner(f, m0, log, b);
  }

  lemma OneWinner(f: Format, m0: nat, log: seq<Entry>, b: nat)
    requires ValidFormat(f) && IsWord(f, m0) && Logs(f, m0, log, IsBitTestSet)
    ensures |Winners(log, b)| == if !Bit(m0, b) && Targeted(log, b) then 1 else 0
  {
    if !Bit(m0, b) && Targeted(log, b) {
      var k :| 0 <= k < |log| && Targets(log[k], b);
      var w := FirstTarget(log, b, k);
      WinnerIsFirst(f, m0, log, b, w);
      forall j: nat | j in Winners(log, b) ensures j == w {
        WinnerIsFirst(f, m0, log, b, j);
      }
      assert Winners(log, b) == {w};
    } else {
      forall j: nat ensures j !in Winners(log, b) {
        if j < |log| && Targets(log[j], b) { WinnerIsFirst(f, m0, log, b, j); }
      }
      assert Winners(log, b) == {};
    }
  }

  /** Once everybody has returned: exactly one call on an initially clear bit returned zero, if any call was on it. */
  lemma TestAndSetReturns(f: Format, m0: nat, n: nat, trace: seq<Event>, b: nat)
    requires ValidFormat(f) && IsWord(f, m0) && Legal(f, m0, n, trace) && Quiescent(After(f, m0, n, trace))
    requires Invokes(trace, IsBitTestSet)
    ensures var targeted := Returned(trace, (op: Op, resp: Response) => op == BitTestSet(b)) != {};
            && |Returned(trace, (op: Op, resp: Response) => op == BitTestSet(b) && resp == Val(0))|
               == (if !Bit(m0, b) && targeted then 1 else 0)
            && (Bit(After(f, m0, n, trace).mem, b) <==> Bit(m0, b) || targeted)
  {
    TestAndSetUnique(f, m0, n, trace, b);
    var log := Log(f, m0, n, trace);
    ReturnedIsEffective(f, m0, n, trace, (op: Op, resp: Response) => op == BitTestSet(b) && resp == Val(0));
    ReturnedIsEffective(f, m0, n, trace, (op: Op, resp: Response) => op == BitTestSet(b));
    WinnersReturned(log, b);
    TargetedReturned(log, b);
  }

  lemma TargetedReturned(log: seq<Entry>, b: nat)
    ensures Effective(log, (op: Op, resp: Response) => op == BitTestSet(b)) != {} <==> Targeted(log, b)
  {
    if Targeted(log, b) {
      var k :| 0 <= k < |log| && Targets(log[k], b);
      assert log[k].call.inv in Effective(log, (op: Op, resp: Response) => op == BitTestSet(b));
    } else {
      forall k: nat | k < |log| ensures log[k].call.op != BitTestSet(b) { assert !Targets(log[k], b); }
    }
  }

  lemma WinnersReturned(log: seq<Entry>, b: nat)
    requires |Winners(log, b)| <= 1
    ensures |Effective(log, (op: Op, resp: Response) => op == BitTestSet(b) && resp == Val(0))| == |Winners(log, b)|
  {
    var won := Effective(log, (op: Op, resp: Response) => op == BitTestSet(b) && resp == Val(0));
    if w :| w in Winners(log, b) {
      assert |Winners(log, b) - {w}| == 0;
      forall k: nat | k in Winners(log, b) ensures k == w { assert k == w || k in Winners(log, b) - {w}; }
      forall i: nat | i in won ensures i == log[w].call.inv {
        var k: nat :| k < |log| && log[k].call.op == BitTestSet(b) && log[k].resp == Val(0) && log[k].call.inv == i;
        assert k in Winners(log, b);
      }
      assert log[w].call.inv in won;
      assert won == {log[w].call.inv};
    } else {
      forall k: nat | k < |log| ensures !(log[k].call.op == BitTestSet(b) && log[k].resp == Val(0)) {
        assert k !in Winners(log, b);
      }
      assert won == {} && Winners(log, b) == {};
    }
  }

  // ---------- Maxima ----------

  /** `u` is the maximum of `m0` and the operands. */
  ghost predicate IsMaximum(f: Format, m0: nat, ops: seq<Op>, u: nat)
    requires ValidFormat(f)
  {
    && Value(f, u) >= Value(f, m0)
    && (forall k :: 0 <= k < |ops| ==> ops[k].Max? && Value(f, u) >= Value(f, ops[k].v))
    && (u == m0 || exists k :: 0 <= k < |ops| && ops[k] == Max(u))
  }

  lemma {:induction false} ReplayMax(f: Format, m0: nat, ops: seq<Op>)
    requires ValidFormat(f) && IsWord(f, m0)
    requires forall k :: 0 <= k < |ops| ==> ops[k].Max? && ValidOp(f, ops[k])
    ensures IsMaximum(f, m0, ops, Replay(f, m0, ops))
  {
    if ops != [] {
      var k := |ops| - 1;
      ReplayMax(f, m0, ops[..k]);
      var u := Replay(f, m0, ops[..k]);
      if !Exits(f, ops[k], u) {
        assert ops[k] == Max(Replay(f, m0, ops));
      } else if u != m0 {
        var j :| 0 <= j < k && ops[..k][j] == Max(u);
        assert ops[j] == Max(u);
      }
    }
  }

  /** With only `atomic_max`, the word is the maximum of the initial value and all operands in effect. */
  lemma MaxOfAll(f: Format, m0: nat, n: nat, trace: seq<Event>)
    requires ValidFormat(f) && IsWord(f, m0) && Legal(f, m0, n, trace)
    requires Invokes(trace, IsMax)
    ensures IsMaximum(f, m0, Ops(Log(f, m0, n, trace)), After(f, m0, n, trace).mem)
  {
    RunLogs(f, m0, n, trace, IsMax);
    LogMax(f, m0, Log(f, m0, n, trace), After(f, m0, n, trace).mem);
  }

  lemma LogMax(f: Format, m0: nat, log: seq<Entry>, u: nat)
    requires ValidFormat(f) && IsWord(f, m0) && Logs(f, m0, log, IsMax) && u == Replay(f, m0, Ops(log))
    ensures IsMaximum(f, m0, Ops(log), u)
  {
    forall k: nat | k < |log| ensures ValidOp(f, Ops(log)[k]) { assert ReplaysAt(f, m0, log, k); }
    ReplayMax(f, m0, Ops(log));
  }

  /** Once everybody has returned, the word is the maximum of the initial value and the operands of all calls. */
  lemma MaxOfReturned(f: Format, m0: nat, n: nat, trace: seq<Event>)
    requires ValidFormat(f) && IsWord(f, m0) && Legal(f, m0, n, trace) && Quiescent(After(f, m0, n, trace))
    requires Invokes(trace, IsMax)
    ensures var u := After(f, m0, n, trace).mem;
            && Value(f, u) >= Value(f, m0)
            && (forall i: nat, r: nat :: Completed(trace, i, r) ==>
                  trace[i].op.Max? && Value(f, u) >= Value(f, trace[i].op.v))
            && (u == m0 || exists i: nat, r: nat :: Completed(trace, i, r) && trace[i].op == Max(u))
  {
    MaxOfAll(f, m0, n, trace);
    InvHolds(f, m0, n, trace);
    var u, log := After(f, m0, n, trace).mem, Log(f, m0, n, trace);
    assert IsMaximum(f, m0, Ops(log), u);
    forall i: nat, r: nat | Completed(trace, i, r)
      ensures trace[i].op.Max? && Value(f, u) >= Value(f, trace[i].op.v)
    {
      var k :| 0 <= k < |log| && log[k].call.inv == i && log[k].resp == trace[r].resp && log[k].at < r;
      assert EntryOk(trace, log[k]) && Ops(log)[k] == trace[i].op;
    }
    if u != m0 {
      var k :| 0 <= k < |log| && Ops(log)[k] == Max(u);
      assert EntryOk(trace, log[k]);
      var r := QuiescentLogIsReturned(f, m0, n, trace, k);
      assert Completed(trace, log[k].call.inv, r) && trace[log[k].call.inv].op == Max(u);
    }
  }
}

/** Reference counting with `atomic_increment` and `atomic_decrement_and_test`. */
module AtomicRefCount {
  import opened Bits
  import opened AtomicOps
  import opened AtomicMachine
  import opened AtomicLinearizability
  import opened AtomicCounting

  function Increment(): Op {
    ExchangeAndAdd(1)
  }

  /** Adding -1, as the type of the word represents it. */
  function Decrement(f: Format): Op {
    ExchangeAndAdd(Modulus(f) - 1)
  }

  /** `atomic_decrement_and_test` is true when the old value was one. */
  predicate SawLast(f: Format, x: Entry) {
    x.call.op == Decrement(f) && x.resp == Val(1)
  }

  /** The operations of a reference count. */
  predicate CountsReferences(f: Format, op: Op) {
    op == Increment() || op == Decrement(f)
  }

  /** The calls that see the last reference: the final one if the count is now zero, and no other. */
  ghost predicate SeenOnce(f: Format, log: seq<Entry>, mem: nat) {
    forall k :: 0 <= k < |log| ==> (SawLast(f, log[k]) <==> k == |log| - 1 && mem == 0)
  }

  /** No increment took effect on the last word: the count never wrapped. */
  predicate NeverWraps(f: Format, log: seq<Entry>) {
    forall k :: 0 <= k < |log| ==> log[k].call.op == Increment() ==> log[k].resp != Val(Modulus(f) - 1)
  }

  /** No call took effect on a count of zero. */
  predicate NeverOnZero(log: seq<Entry>) {
    forall k :: 0 <= k < |log| ==> log[k].resp != Val(0)
  }

  lemma RefConstants(f: Format)
    requires ValidFormat(f)
    ensures Modulus(f) >= 4
    ensures Increment() != Decrement(f) && !Primitive(Increment()) && !Primitive(Decrement(f))
    ensures forall u: nat :: !Exits(f, Increment(), u) && !Exits(f, Decrement(f), u)
  {
    assert Modulus(f) == 2 * Pow2(f.bits - 1) && Pow2(f.bits - 1) == 2 * Pow2(f.bits - 2);
  }

  /** A call takes effect on a positive count, and moves it by one without wrapping. */
  lemma RefCas(f: Format, op: Op, u: nat)
    requires ValidFormat(f) && IsWord(f, u) && u >= 1 && CountsReferences(f, op)
    requires op == Increment() ==> u + 1 < Modulus(f)
    ensures Effect(f, op, u) == if op == Increment() then u + 1 else u - 1
  {
    RefConstants(f);
    if op == Decrement(f) { ModShift(u - 1, Modulus(f)); }
  }

  // ---------- What the log of a reference count says, whoever owns the references ----------

  /**
   If no call takes effect on zero and none wraps, `atomic_decrement_and_test` is true for exactly
   the call that leaves zero, and that call is the last.
   */
  lemma {:induction false} OnlyTheLastSeesOne(f: Format, m0: nat, log: seq<Entry>)
    requires ValidFormat(f) && IsWord(f, m0) && Logs(f, m0, log, (op: Op) => CountsReferences(f, op))
    requires NeverWraps(f, log) && NeverOnZero(log)
    ensures IsWord(f, Replay(f, m0, Ops(log)))
    ensures SeenOnce(f, log, Replay(f, m0, Ops(log)))
  {
    if log == [] {
      ReplayNothing(f, m0);
    } else {
      var k := |log| - 1;
      var pre := log[..k];
      LogsPrefix(f, m0, log, (op: Op) => CountsReferences(f, op));
      OnlyTheLastSeesOne(f, m0, pre);
      RefConstants(f);
      RefCas(f, log[k].call.op, Replay(f, m0, Ops(pre)));
      forall j | 0 <= j < k ensures !SawLast(f, log[j]) {
        assert pre[j] == log[j];
      }
    }
  }

  lemma ReplayNothing(f: Format, m0: nat)
    requires ValidFormat(f)
    ensures Replay(f, m0, Ops([])) == m0
  {
    assert Ops([]) == [];
  }

  /** The same for every run, with no rule about which thread may call. */
  lemma LastDecrementSeenOnce(f: Format, m0: nat, n: nat, trace: seq<Event>)
    requires ValidFormat(f) && IsWord(f, m0) && Legal(f, m0, n, trace)
    requires Invokes(trace, (op: Op) => CountsReferences(f, op))
    requires NeverWraps(f, Log(f, m0, n, trace)) && NeverOnZero(Log(f, m0, n, trace))
    ensures SeenOnce(f, Log(f, m0, n, trace), After(f, m0, n, trace).mem)
  {
    RunLogs(f, m0, n, trace, (op: Op) => CountsReferences(f, op));
    OnlyTheLastSeesOne(f, m0, Log(f, m0, n, trace));
  }

  // ---------- A rule for callers under which no call meets zero ----------

  /**
   References that no call is using. A call uses one reference from its invocation on; when it
   returns, an increment leaves that one and a new one, a decrement none. Between calls a
   reference may be handed to any thread.
   */
  function Free(f: Format, m0: nat, n: nat, trace: seq<Event>): int
    requires ValidFormat(f) && Legal(f, m0, n, trace)
  {
    if trace == [] then m0
    else
      var k := |trace| - 1;
      Free(f, m0, n, trace[..k]) + Gain(f, After(f, m0, n, trace[..k]), trace[k])
  }

  function Gain(f: Format, s: State, e: Event): int
    requires Enabled(f, s, e)
  {
    match e
    case Invoke(_, _) => -1
    case Return(t, _) => if s.threads[t].call.op == Increment() then 2 else 0
    case _ => 0
  }

  /** The rule: only increments and decrements, each started with a reference that is free. */
  predicate Disciplined(f: Format, m0: nat, n: nat, trace: seq<Event>)
    requires ValidFormat(f) && Legal(f, m0, n, trace)
  {
    trace == [] ||
    var k := |trace| - 1;
    && Disciplined(f, m0, n, trace[..k])
    && (trace[k].Invoke? ==> CountsReferences(f, trace[k].op) && Free(f, m0, n, trace[..k]) >= 1)
  }

  /** References that the call of a thread accounts for in the word. */
  function Weight(th: Thread): nat {
    if th.Ready? || th.Loaded? then 1
    else if th.Done? && th.call.op == Increment() then 2
    else 0
  }

  function InUse(ths: seq<Thread>): nat {
    if ths == [] then 0
    else
      var k := |ths| - 1;
      InUse(ths[..k]) + Weight(ths[k])
  }

  lemma {:induction false} InUseUpdate(ths: seq<Thread>, t: nat, th: Thread)
    requires t < |ths|
    ensures InUse(ths[t := th]) == InUse(ths) - Weight(ths[t]) + Weight(th)
  {
    var k := |ths| - 1;
    if t < k {
      assert ths[t := th][..k] == ths[..k][t := th];
      InUseUpdate(ths[..k], t, th);
    } else {
      assert ths[t := th][..k] == ths[..k];
    }
  }

  lemma {:induction false} InUseAtLeast(ths: seq<Thread>, t: nat)
    requires t < |ths|
    ensures InUse(ths) >= Weight(ths[t])
  {
    var k := |ths| - 1;
    if t < k { InUseAtLeast(ths[..k], t); }
  }

  lemma {:induction false} NobodyInside(ths: seq<Thread>)
    requires forall t :: 0 <= t < |ths| ==> ths[t].Idle?
    ensures InUse(ths) == 0
  {
    if ths != [] { NobodyInside(ths[..|ths| - 1]); }
  }

  ghost predicate CallOk(f: Format, th: Thread) {
    && (!th.Idle? ==> CountsReferences(f, th.call.op))
    && (th.Loaded? ==> !Primitive(th.call.op))
  }

  ghost predicate RefInv(f: Format, free: int, s: State, log: seq<Entry>) {
    && free >= 0
    && (forall t :: 0 <= t < |s.threads| ==> CallOk(f, s.threads[t]))
    && s.mem == free + InUse(s.threads)
    && NeverOnZero(log)
  }

  /** What a step changes about its own thread. */
  lemma RefOwner(f: Format, s: State, e: Event, now: nat)
    requires ValidFormat(f) && Enabled(f, s, e) && CallOk(f, s.threads[e.t])
    requires e.Invoke? ==> CountsReferences(f, e.op)
    ensures var s' := Next(f, s, e, now);
            && |s'.threads| == |s.threads| && s'.threads == s.threads[e.t := s'.threads[e.t]]
            && CallOk(f, s'.threads[e.t])
            && Gain(f, s, e) + Weight(s'.threads[e.t]) - Weight(s.threads[e.t]) ==
                 (if Logged(f, s, e, now) == [] then 0 else if s.threads[e.t].call.op == Increment() then 1 else -1)
            && (Logged(f, s, e, now) == [] ==> s'.mem == s.mem)
            && (Logged(f, s, e, now) != [] ==> Weight(s.threads[e.t]) == 1 && Gain(f, s, e) == 0)
  {
    RefConstants(f);
  }

  /** The step at which a call takes effect finds a positive count. */
  lemma RefLogged(f: Format, free: int, s: State, log: seq<Entry>, e: Event, now: nat)
    requires ValidFormat(f) && IsWord(f, s.mem) && RefInv(f, free, s, log) && Enabled(f, s, e)
    requires Logged(f, s, e, now) != [] && NeverWraps(f, log + Logged(f, s, e, now))
    requires Weight(s.threads[e.t]) == 1
    ensures Next(f, s, e, now).mem == s.mem + (if s.threads[e.t].call.op == Increment() then 1 else -1)
    ensures NeverOnZero(log + Logged(f, s, e, now)) && IsWord(f, Next(f, s, e, now).mem)
  {
    LoggedCall(f, s, e, now);
    var x := Logged(f, s, e, now)[0];
    RefConstants(f);
    assert CallOk(f, s.threads[e.t]);
    InUseAtLeast(s.threads, e.t);
    StepEffect(f, s, e, now);
    assert (log + Logged(f, s, e, now))[|log|] == x;
    RefCas(f, x.call.op, s.mem);
  }

  lemma RefStep(f: Format, free: int, s: State, log: seq<Entry>, e: Event, now: nat)
    requires ValidFormat(f) && IsWord(f, s.mem) && RefInv(f, free, s, log) && Enabled(f, s, e)
    requires e.Invoke? ==> CountsReferences(f, e.op) && free >= 1
    requires NeverWraps(f, log + Logged(f, s, e, now))
    ensures RefInv(f, free + Gain(f, s, e), Next(f, s, e, now), log + Logged(f, s, e, now))
    ensures IsWord(f, Next(f, s, e, now).mem)
  {
    var s', l := Next(f, s, e, now), Logged(f, s, e, now);
    assert CallOk(f, s.threads[e.t]);
    RefOwner(f, s, e, now);
    forall t | 0 <= t < |s'.threads| ensures CallOk(f, s'.threads[t]) {
      assert CallOk(f, s.threads[t]);
    }
    InUseUpdate(s.threads, e.t, s'.threads[e.t]);
    if l == [] {
      assert log + l == log;
    } else {
      RefLogged(f, free, s, log, e, now);
    }
  }

  lemma {:induction false} RefInvHolds(f: Format, m0: nat, n: nat, trace: seq<Event>)
    requires ValidFormat(f) && IsWord(f, m0) && Legal(f, m0, n, trace) && Disciplined(f, m0, n, trace)
    requires NeverWraps(f, Log(f, m0, n, trace))
    ensures var s := After(f, m0, n, trace);
            IsWord(f, s.mem) && RefInv(f, Free(f, m0, n, trace), s, Log(f, m0, n, trace))
  {
    if trace == [] {
      NobodyInside(Init(m0, n).threads);
    } else {
      var k := |trace| - 1;
      var pre := trace[..k];
      var s, log := After(f, m0, n, pre), Log(f, m0, n, pre);
      var l := Logged(f, s, trace[k], k);
      forall j | 0 <= j < |log| ensures (log + l)[j] == log[j] {}
      RefInvHolds(f, m0, n, pre);
      RefStep(f, Free(f, m0, n, pre), s, log, trace[k], k);
    }
  }

  lemma {:induction false} DisciplinedInvokes(f: Format, m0: nat, n: nat, trace: seq<Event>)
    requires ValidFormat(f) && Legal(f, m0, n, trace) && Disciplined(f, m0, n, trace)
    ensures Invokes(trace, (op: Op) => CountsReferences(f, op))
  {
    if trace != [] {
      var k := |trace| - 1;
      DisciplinedInvokes(f, m0, n, trace[..k]);
      forall j | 0 <= j < |trace| && trace[j].Invoke? ensures CountsReferences(f, trace[j].op) {
        if j < k { assert trace[..k][j] == trace[j]; }
      }
    }
  }

  /**
   As long as the count does not wrap, the word counts the references that are free or in use by
   a call, and `atomic_decrement_and_test` is true for exactly the call that takes it to zero:
   there is exactly one such call when the word is zero, none before, and nothing takes effect
   after it.
   */
  lemma LastReferenceSeenOnce(f: Format, m0: nat, n: nat, trace: seq<Event>)
    requires ValidFormat(f) && IsWord(f, m0) && Legal(f, m0, n, trace) && Disciplined(f, m0, n, trace)
    requires NeverWraps(f, Log(f, m0, n, trace))
    ensures var s := After(f, m0, n, trace);
            s.mem == Free(f, m0, n, trace) + InUse(s.threads) && SeenOnce(f, Log(f, m0, n, trace), s.mem)
  {
    RefInvHolds(f, m0, n, trace);
    DisciplinedInvokes(f, m0, n, trace);
    LastDecrementSeenOnce(f, m0, n, trace);
  }

  /** While a reference is free nobody has seen the last one go. */
  lemma OwnedMeansPositive(f: Format, m0: nat, n: nat, trace: seq<Event>)
    requires ValidFormat(f) && IsWord(f, m0) && Legal(f, m0, n, trace) && Disciplined(f, m0, n, trace)
    requires NeverWraps(f, Log(f, m0, n, trace)) && Free(f, m0, n, trace) >= 1
    ensures After(f, m0, n, trace).mem >= 1
    ensures var log := Log(f, m0, n, trace); forall k :: 0 <= k < |log| ==> !SawLast(f, log[k])
  {
    LastReferenceSeenOnce(f, m0, n, trace);
  }

  lemma SomethingLogged(f: Format, m0: nat, log: seq<Entry>, mem: nat)
    requires ValidFormat(f) && mem == Replay(f, m0, Ops(log)) && mem != m0
    ensures log != []
  {
    ReplayNothing(f, m0);
  }

  /** When every reference has been dropped and every call has returned, one call returned true. */
  lemma LastReferenceReturned(f: Format, m0: nat, n: nat, trace: seq<Event>) returns (i: nat, r: nat)
    requires ValidFormat(f) && IsWord(f, m0) && Legal(f, m0, n, trace) && Disciplined(f, m0, n, trace)
    requires NeverWraps(f, Log(f, m0, n, trace))
    requires m0 >= 1 && Free(f, m0, n, trace) == 0 && Quiescent(After(f, m0, n, trace))
    ensures Completed(trace, i, r) && trace[i].op == Decrement(f) && trace[r].resp == Val(1)
    ensures forall i': nat, r': nat :: Completed(trace, i', r') && i' != i ==>
              !(trace[i'].op == Decrement(f) && trace[r'].resp == Val(1))
  {
    LastReferenceSeenOnce(f, m0, n, trace);
    InvHolds(f, m0, n, trace);
    var s, log := After(f, m0, n, trace), Log(f, m0, n, trace);
    NobodyInside(s.threads);
    assert s.mem == 0;
    SomethingLogged(f, m0, log, s.mem);
    var k := |log| - 1;
    assert SeenOnce(f, log, s.mem) && EntryOk(trace, log[k]);
    i := log[k].call.inv;
    r := QuiescentLogIsReturned(f, m0, n, trace, k);
    forall i': nat, r': nat | Completed(trace, i', r') && i' != i
      ensures !(trace[i'].op == Decrement(f) && trace[r'].resp == Val(1))
    {
      var k' :| 0 <= k' < |log| && log[k'].call.inv == i' && log[k'].resp == trace[r'].resp && log[k'].at < r';
      assert EntryOk(trace, log[k']);
    }
  }
}

/**
 Every interleaving of the retry loops is linearizable, in the sense of Herlihy and Wing:
 there is an order of the calls that respects real time and explains every returned value
 as the result of the sequential operations.
 */
module AtomicLinearizability {
  import opened AtomicOps
  import opened AtomicMachine

  // ---------- What linearizability means, on the invocations and returns of a trace ----------

  predicate IsReturnOf(e: Event, t: nat) {
    e.Return? && e.t == t
  }

  /** The call invoked at `i` returned at `r`. */
  ghost predicate Completed(trace: seq<Event>, i: nat, r: nat) {
    && i < r < |trace|
    && trace[i].Invoke?
    && IsReturnOf(trace[r], trace[i].t)
    && forall k :: i < k < r ==> !IsReturnOf(trace[k], trace[i].t)
  }

  /** The word before, between and after the operations `trace[lin[0]]`, `trace[lin[1]]`, ... */
  ghost predicate Explains(f: Format, trace: seq<Event>, lin: seq<nat>, mems: seq<nat>, resps: seq<Response>)
    requires ValidFormat(f)
  {
    && |mems| == |lin| + 1
    && |resps| == |lin|
    && forall k :: 0 <= k < |lin| ==>
         && lin[k] < |trace| && trace[lin[k]].Invoke?
         && SequentialSpec(f, trace[lin[k]].op, mems[k], mems[k + 1], resps[k])
  }

  /** Every completed call is in the order, with the value it returned. */
  ghost predicate ReturnsExplained(trace: seq<Event>, lin: seq<nat>, resps: seq<Response>)
    requires |resps| == |lin|
  {
    forall i: nat, r: nat :: Completed(trace, i, r) ==>
      exists k :: 0 <= k < |lin| && lin[k] == i && resps[k] == trace[r].resp
  }

  /** A call that returned before another was invoked comes first. */
  ghost predicate RespectsRealTime(trace: seq<Event>, lin: seq<nat>) {
    forall j, k, r: nat :: 0 <= j < |lin| && 0 <= k < |lin| && Completed(trace, lin[j], r) && r < lin[k] ==> j < k
  }

  ghost predicate IsLinearization(
    f: Format, m0: nat, m1: nat, trace: seq<Event>, lin: seq<nat>, mems: seq<nat>, resps: seq<Response>)
    requires ValidFormat(f)
  {
    // the chosen order is a sequential execution from the initial to the final memory
    && Explains(f, trace, lin, mems, resps)
    && mems[0] == m0 && mems[|lin|] == m1
    // no call takes effect twice
    && (forall j, k :: 0 <= j < k < |lin| ==> lin[j] != lin[k])
    && ReturnsExplained(trace, lin, resps)
    && RespectsRealTime(trace, lin)
  }

  // ---------- The invariant of the machine ----------

  ghost predicate EntryOk(trace: seq<Event>, x: Entry) {
    && x.call.inv < x.at < |trace|
    && trace[x.call.inv].Invoke?
    && trace[x.call.inv].op == x.call.op
  }

  ghost predicate LogOk(trace: seq<Event>, log: seq<Entry>) {
    && (forall k :: 0 <= k < |log| ==> EntryOk(trace, log[k]))
    && (forall j, k :: 0 <= j < k < |log| ==> log[j].at < log[k].at && log[j].call.inv != log[k].call.inv)
  }

  /** The value every call returns is the one the calls logged before it leave behind. */
  ghost predicate ReplaysAt(f: Format, m0: nat, log: seq<Entry>, k: nat)
    requires ValidFormat(f) && k < |log|
  {
    && ValidOp(f, log[k].call.op)
    && log[k].resp == Respond(log[k].call.op, Replay(f, m0, Ops(log[..k])))
  }

  ghost predicate Replays(f: Format, m0: nat, log: seq<Entry>)
    requires ValidFormat(f)
  {
    forall k: nat :: k < |log| ==> ReplaysAt(f, m0, log, k)
  }

  ghost predicate InLog(log: seq<Entry>, inv: nat) {
    exists k :: 0 <= k < |log| && log[k].call.inv == inv
  }

  /** `i` is an invocation by `t` that has not returned. */
  ghost predicate Open(trace: seq<Event>, t: nat, i: nat) {
    && i < |trace| && trace[i].Invoke? && trace[i].t == t
    && forall k :: i < k < |trace| ==> !IsReturnOf(trace[k], t)
  }

  ghost predicate ThreadOk(f: Format, trace: seq<Event>, log: seq<Entry>, t: nat, th: Thread)
    requires ValidFormat(f)
  {
    && (th.Idle? ==> forall i: nat :: !Open(trace, t, i))
    && (!th.Idle? ==>
          && ValidOp(f, th.call.op)
          && Open(trace, t, th.call.inv) && trace[th.call.inv].op == th.call.op
          && (forall i: nat :: Open(trace, t, i) ==> i == th.call.inv))
    && (th.Ready? || th.Loaded? ==> !InLog(log, th.call.inv))
    && (th.Loaded? ==> !Exits(f, th.call.op, th.seen) && !Primitive(th.call.op))
    && (th.Done? ==>
          exists k :: 0 <= k < |log| && log[k].call.inv == th.call.inv && log[k].resp == th.resp)
  }

  ghost predicate ReturnsOk(trace: seq<Event>, log: seq<Entry>) {
    forall i: nat, r: nat :: Completed(trace, i, r) ==>
      exists k :: 0 <= k < |log| && log[k].call.inv == i && log[k].resp == trace[r].resp && log[k].at < r
  }

  ghost predicate Inv(f: Format, m0: nat, n: nat, trace: seq<Event>, s: State, log: seq<Entry>)
    requires ValidFormat(f)
  {
    && |s.threads| == n
    && IsWord(f, s.mem)
    && LogOk(trace, log)
    && Replays(f, m0, log)
    && s.mem == Replay(f, m0, Ops(log))
    && (forall t :: 0 <= t < n ==> ThreadOk(f, trace, log, t, s.threads[t]))
    && ReturnsOk(trace, log)
  }

  // ---------- Each step keeps it ----------

  /** What a step does to the word is what the operation it logs does. */
  lemma StepEffect(f: Format, s: State, e: Event, now: nat)
    requires ValidFormat(f) && Enabled(f, s, e) && IsWord(f, s.mem)
    requires s.threads[e.t].Loaded? ==> !Exits(f, s.threads[e.t].call.op, s.threads[e.t].seen)
                                        && !Primitive(s.threads[e.t].call.op)
    ensures var l := Logged(f, s, e, now);
            var s' := Next(f, s, e, now);
            if l == [] then s'.mem == s.mem
            else l[0].resp == Respond(l[0].call.op, s.mem) && s'.mem == Effect(f, l[0].call.op, s.mem)
  {
  }

  lemma OpsAppend(log: seq<Entry>, x: Entry)
    ensures Ops(log + [x]) == Ops(log) + [x.call.op]
    ensures (log + [x])[..|log|] == log
  {
  }

  lemma ReplayAppend(f: Format, m0: nat, ops: seq<Op>, op: Op)
    requires ValidFormat(f)
    ensures Replay(f, m0, ops + [op]) == Effect(f, op, Replay(f, m0, ops))
  {
    assert (ops + [op])[..|ops|] == ops;
  }

  lemma ReplaysAppend(f: Format, m0: nat, log: seq<Entry>, x: Entry)
    requires ValidFormat(f) && Replays(f, m0, log)
    requires ValidOp(f, x.call.op) && x.resp == Respond(x.call.op, Replay(f, m0, Ops(log)))
    ensures Replays(f, m0, log + [x])
  {
    OpsAppend(log, x);
    forall k: nat | k < |log + [x]| ensures ReplaysAt(f, m0, log + [x], k) {
      if k < |log| {
        assert ReplaysAt(f, m0, log, k);
        assert (log + [x])[..k] == log[..k];
      }
    }
  }

  lemma OpenExtends(trace: seq<Event>, e: Event, t: nat, i: nat)
    ensures i < |trace| ==> (Open(trace + [e], t, i) <==> Open(trace, t, i) && !IsReturnOf(e, t))
    ensures i >= |trace| ==> (Open(trace + [e], t, i) <==> i == |trace| && e.Invoke? && e.t == t)
  {
    var long := trace + [e];
    if i < |trace| {
      assert long[i] == trace[i];
      if Open(long, t, i) {
        assert !IsReturnOf(long[|trace|], t);
        forall k | i < k < |trace| ensures !IsReturnOf(trace[k], t) { assert long[k] == trace[k]; }
      }
    }
  }

  lemma CompletedExtends(trace: seq<Event>, e: Event, i: nat, r: nat)
    requires Completed(trace + [e], i, r)
    ensures r < |trace| ==> Completed(trace, i, r)
    ensures r >= |trace| ==> r == |trace| && e.Return? && Open(trace, e.t, i)
  {
    var long := trace + [e];
    assert long[i] == trace[i];
    forall k | i < k < r ensures !IsReturnOf(trace[k], trace[i].t) { assert long[k] == trace[k]; }
  }

  lemma LogKeeps(trace: seq<Event>, log: seq<Entry>, e: Event)
    requires LogOk(trace, log)
    ensures LogOk(trace + [e], log)
  {
    forall k | 0 <= k < |log| ensures EntryOk(trace + [e], log[k]) {
      assert EntryOk(trace, log[k]);
    }
  }

  lemma LogAppend(f: Format, m0: nat, trace: seq<Event>, log: seq<Entry>, e: Event, x: Entry)
    requires ValidFormat(f) && LogOk(trace, log) && Replays(f, m0, log)
    requires !InLog(log, x.call.inv) && x.at == |trace| && EntryOk(trace + [e], x) && ValidOp(f, x.call.op)
    requires x.resp == Respond(x.call.op, Replay(f, m0, Ops(log)))
    ensures LogOk(trace + [e], log + [x]) && Replays(f, m0, log + [x])
    ensures Replay(f, m0, Ops(log + [x])) == Effect(f, x.call.op, Replay(f, m0, Ops(log)))
  {
    LogKeeps(trace, log, e);
    forall k | 0 <= k < |log| ensures log[k].at < |trace| && log[k].call.inv != x.call.inv {
      assert EntryOk(trace, log[k]);
    }
    ReplaysAppend(f, m0, log, x);
    OpsAppend(log, x);
    ReplayAppend(f, m0, Ops(log), x.call.op);
  }

  /** What a step logs: the call its thread was executing. */
  lemma LoggedCall(f: Format, s: State, e: Event, now: nat)
    requires ValidFormat(f) && Enabled(f, s, e) && Logged(f, s, e, now) != []
    ensures var th := s.threads[e.t];
            var l := Logged(f, s, e, now);
            && (th.Ready? || th.Loaded?) && |l| == 1 && l[0].at == now
            && l[0].call.inv == th.call.inv && l[0].call.op == th.call.op
            && Next(f, s, e, now).threads[e.t] == Done(l[0].call, l[0].resp)
  {
  }

  lemma LogStep(f: Format, m0: nat, n: nat, trace: seq<Event>, s: State, log: seq<Entry>, e: Event)
    requires ValidFormat(f) && Inv(f, m0, n, trace, s, log) && Enabled(f, s, e)
    ensures var log' := log + Logged(f, s, e, |trace|);
            var s' := Next(f, s, e, |trace|);
            && LogOk(trace + [e], log') && Replays(f, m0, log')
            && s'.mem == Replay(f, m0, Ops(log')) && IsWord(f, s'.mem)
  {
    assert ThreadOk(f, trace, log, e.t, s.threads[e.t]);
    StepEffect(f, s, e, |trace|);
    var l := Logged(f, s, e, |trace|);
    if l == [] {
      assert log + l == log;
      LogKeeps(trace, log, e);
    } else {
      LoggedCall(f, s, e, |trace|);
      EffectIsWord(f, l[0].call.op, s.mem);
      assert l == [l[0]];
      LogAppend(f, m0, trace, log, e, l[0]);
    }
  }

  /** Another thread's step leaves a thread as it was. */
  lemma OtherThreadStep(
    f: Format, trace: seq<Event>, log: seq<Entry>, l: seq<Entry>, e: Event, t: nat, th: Thread)
    requires ValidFormat(f) && LogOk(trace, log) && ThreadOk(f, trace, log, t, th) && e.t != t
    requires forall k :: 0 <= k < |l| ==> l[k].call.inv < |trace| && trace[l[k].call.inv].t != t
    ensures ThreadOk(f, trace + [e], log + l, t, th)
  {
    forall i: nat { OpenExtends(trace, e, t, i); }
    if th.Ready? || th.Loaded? { NotLogged(trace, log, l, th.call.inv); }
    if th.Done? {
      var k :| 0 <= k < |log| && log[k].call.inv == th.call.inv && log[k].resp == th.resp;
      assert (log + l)[k] == log[k];
    }
  }

  /** The step of a thread itself. */
  lemma OwnThreadStep(f: Format, m0: nat, n: nat, trace: seq<Event>, s: State, log: seq<Entry>, e: Event)
    requires ValidFormat(f) && Inv(f, m0, n, trace, s, log) && Enabled(f, s, e)
    ensures var log' := log + Logged(f, s, e, |trace|);
            var s' := Next(f, s, e, |trace|);
            ThreadOk(f, trace + [e], log', e.t, s'.threads[e.t])
  {
    var l := Logged(f, s, e, |trace|);
    var th, th' := s.threads[e.t], Next(f, s, e, |trace|).threads[e.t];
    assert ThreadOk(f, trace, log, e.t, th);
    forall i: nat { OpenExtends(trace, e, e.t, i); }
    if l == [] {
      assert !th'.Done?;
      if !th'.Idle? { NotLogged(trace, log, l, th'.call.inv); }
    } else {
      LoggedCall(f, s, e, |trace|);
      assert (log + l)[|log|] == l[0];
    }
  }

  lemma ThreadStep(f: Format, m0: nat, n: nat, trace: seq<Event>, s: State, log: seq<Entry>, e: Event, t: nat)
    requires ValidFormat(f) && Inv(f, m0, n, trace, s, log) && Enabled(f, s, e) && t < n
    ensures var log' := log + Logged(f, s, e, |trace|);
            var s' := Next(f, s, e, |trace|);
            ThreadOk(f, trace + [e], log', t, s'.threads[t])
  {
    if t == e.t {
      OwnThreadStep(f, m0, n, trace, s, log, e);
    } else {
      var l := Logged(f, s, e, |trace|);
      assert ThreadOk(f, trace, log, t, s.threads[t]);
      assert ThreadOk(f, trace, log, e.t, s.threads[e.t]);
      if l != [] { LoggedCall(f, s, e, |trace|); }
      OtherThreadStep(f, trace, log, l, e, t, s.threads[t]);
    }
  }

  /** A call still in its loop is not in the log, and the step logs another one, if any. */
  lemma NotLogged(trace: seq<Event>, log: seq<Entry>, l: seq<Entry>, inv: nat)
    requires LogOk(trace, log)
    requires inv < |trace| ==> !InLog(log, inv)
    requires forall k :: 0 <= k < |l| ==> l[k].call.inv != inv
    ensures !InLog(log + l, inv)
  {
    forall k | 0 <= k < |log + l| ensures (log + l)[k].call.inv != inv {
      if k < |log| { assert EntryOk(trace, log[k]); }
    }
  }

  lemma ReturnsStep(f: Format, m0: nat, n: nat, trace: seq<Event>, s: State, log: seq<Entry>, e: Event)
    requires ValidFormat(f) && Inv(f, m0, n, trace, s, log) && Enabled(f, s, e)
    ensures ReturnsOk(trace + [e], log + Logged(f, s, e, |trace|))
  {
    var log' := log + Logged(f, s, e, |trace|);
    assert ThreadOk(f, trace, log, e.t, s.threads[e.t]);
    forall i: nat, r: nat | Completed(trace + [e], i, r)
      ensures exists k :: 0 <= k < |log'| && log'[k].call.inv == i
                          && log'[k].resp == (trace + [e])[r].resp && log'[k].at < r
    {
      CompletedExtends(trace, e, i, r);
      var k: int;
      if r < |trace| {
        k :| 0 <= k < |log| && log[k].call.inv == i && log[k].resp == trace[r].resp && log[k].at < r;
      } else {
        k :| 0 <= k < |log| && log[k].call.inv == s.threads[e.t].call.inv && log[k].resp == s.threads[e.t].resp;
        assert EntryOk(trace, log[k]);
      }
      assert log'[k] == log[k];
    }
  }

  lemma InvStep(f: Format, m0: nat, n: nat, trace: seq<Event>, s: State, log: seq<Entry>, e: Event)
    requires ValidFormat(f) && Inv(f, m0, n, trace, s, log) && Enabled(f, s, e)
    ensures Inv(f, m0, n, trace + [e], Next(f, s, e, |trace|), log + Logged(f, s, e, |trace|))
  {
    LogStep(f, m0, n, trace, s, log, e);
    var s', log' := Next(f, s, e, |trace|), log + Logged(f, s, e, |trace|);
    forall t | 0 <= t < n ensures ThreadOk(f, trace + [e], log', t, s'.threads[t]) {
      ThreadStep(f, m0, n, trace, s, log, e, t);
    }
    ReturnsStep(f, m0, n, trace, s, log, e);
  }

  lemma {:induction false} InvHolds(f: Format, m0: nat, n: nat, trace: seq<Event>)
    requires ValidFormat(f) && IsWord(f, m0) && Legal(f, m0, n, trace)
    ensures Inv(f, m0, n, trace, After(f, m0, n, trace), Log(f, m0, n, trace))
  {
    if trace != [] {
      var k := |trace| - 1;
      assert trace == trace[..k] + [trace[k]];
      InvHolds(f, m0, n, trace[..k]);
      InvStep(f, m0, n, trace[..k], After(f, m0, n, trace[..k]), Log(f, m0, n, trace[..k]), trace[k]);
    }
  }

  lemma {:induction false} InvokerExists(f: Format, m0: nat, n: nat, trace: seq<Event>, i: nat)
    requires ValidFormat(f) && Legal(f, m0, n, trace) && i < |trace|
    ensures |After(f, m0, n, trace).threads| == n && trace[i].t < n
  {
    var k := |trace| - 1;
    if i < k {
      InvokerExists(f, m0, n, trace[..k], i);
    } else {
      ThreadCount(f, m0, n, trace[..k]);
    }
  }

  lemma {:induction false} ThreadCount(f: Format, m0: nat, n: nat, trace: seq<Event>)
    requires ValidFormat(f) && Legal(f, m0, n, trace)
    ensures |After(f, m0, n, trace).threads| == n
  {
    if trace != [] { ThreadCount(f, m0, n, trace[..|trace| - 1]); }
  }

  // ---------- The theorem ----------

  function Invocations(log: seq<Entry>): seq<nat> {
    seq(|log|, k requires 0 <= k < |log| => log[k].call.inv)
  }

  function Responses(log: seq<Entry>): seq<Response> {
    seq(|log|, k requires 0 <= k < |log| => log[k].resp)
  }

  /** The contents of the word between the logged operations. */
  function Memories(f: Format, m0: nat, ops: seq<Op>): seq<nat>
    requires ValidFormat(f)
  {
    seq(|ops| + 1, k requires 0 <= k <= |ops| => Replay(f, m0, ops[..k]))
  }

  lemma {:induction false} ReplayIsWord(f: Format, m0: nat, ops: seq<Op>)
    requires ValidFormat(f) && IsWord(f, m0)
    requires forall k :: 0 <= k < |ops| ==> ValidOp(f, ops[k])
    ensures IsWord(f, Replay(f, m0, ops))
  {
    if ops != [] {
      ReplayIsWord(f, m0, ops[..|ops| - 1]);
      EffectIsWord(f, ops[|ops| - 1], Replay(f, m0, ops[..|ops| - 1]));
    }
  }

  lemma LogExplains(f: Format, m0: nat, trace: seq<Event>, log: seq<Entry>, k: nat)
    requires ValidFormat(f) && IsWord(f, m0)
    requires LogOk(trace, log) && Replays(f, m0, log) && k < |log|
    ensures var ops := Ops(log);
            SequentialSpec(f, log[k].call.op, Replay(f, m0, ops[..k]), Replay(f, m0, ops[..k + 1]), log[k].resp)
  {
    var ops := Ops(log);
    assert ops[..k] == Ops(log[..k]);
    assert ReplaysAt(f, m0, log, k);
    forall j: nat | j < k ensures ValidOp(f, ops[j]) { assert ReplaysAt(f, m0, log, j); }
    assert ops[..k + 1] == ops[..k] + [ops[k]];
    ReplayAppend(f, m0, ops[..k], ops[k]);
    ReplayIsWord(f, m0, ops[..k]);
    EffectMeetsSpec(f, ops[k], Replay(f, m0, ops[..k]));
  }

  lemma LogOrderRespectsTime(trace: seq<Event>, log: seq<Entry>, j: nat, k: nat, r: nat)
    requires LogOk(trace, log) && ReturnsOk(trace, log) && j < |log| && k < |log|
    requires Completed(trace, log[j].call.inv, r) && r < log[k].call.inv
    ensures j < k
  {
    var j' :| 0 <= j' < |log| && log[j'].call.inv == log[j].call.inv
              && log[j'].resp == trace[r].resp && log[j'].at < r;
    assert j' == j;
    assert EntryOk(trace, log[k]);
  }

  lemma LogExplainsAll(f: Format, m0: nat, trace: seq<Event>, log: seq<Entry>)
    requires ValidFormat(f) && IsWord(f, m0) && LogOk(trace, log) && Replays(f, m0, log)
    ensures Explains(f, trace, Invocations(log), Memories(f, m0, Ops(log)), Responses(log))
  {
    var lin, mems, resps := Invocations(log), Memories(f, m0, Ops(log)), Responses(log);
    forall k | 0 <= k < |lin|
      ensures lin[k] < |trace| && trace[lin[k]].Invoke?
      ensures SequentialSpec(f, trace[lin[k]].op, mems[k], mems[k + 1], resps[k])
    {
      assert EntryOk(trace, log[k]);
      LogExplains(f, m0, trace, log, k);
    }
  }

  lemma LogExplainsReturns(trace: seq<Event>, log: seq<Entry>)
    requires ReturnsOk(trace, log)
    ensures ReturnsExplained(trace, Invocations(log), Responses(log))
  {
    var lin, resps := Invocations(log), Responses(log);
    forall i: nat, r: nat | Completed(trace, i, r)
      ensures exists k :: 0 <= k < |lin| && lin[k] == i && resps[k] == trace[r].resp
    {
      var k :| 0 <= k < |log| && log[k].call.inv == i && log[k].resp == trace[r].resp && log[k].at < r;
      assert lin[k] == i && resps[k] == trace[r].resp;
    }
  }

  lemma LogRespectsRealTime(trace: seq<Event>, log: seq<Entry>)
    requires LogOk(trace, log) && ReturnsOk(trace, log)
    ensures RespectsRealTime(trace, Invocations(log))
  {
    var lin := Invocations(log);
    forall j, k, r: nat | 0 <= j < |lin| && 0 <= k < |lin| && Completed(trace, lin[j], r) && r < lin[k]
      ensures j < k
    {
      LogOrderRespectsTime(trace, log, j, k, r);
    }
  }

  /** For every run of any number of threads, the log of the machine is a linearization. */
  lemma Linearizable(f: Format, m0: nat, n: nat, trace: seq<Event>)
    requires ValidFormat(f) && IsWord(f, m0) && Legal(f, m0, n, trace)
    ensures var log := Log(f, m0, n, trace);
            IsLinearization(f, m0, After(f, m0, n, trace).mem, trace,
                            Invocations(log), Memories(f, m0, Ops(log)), Responses(log))
  {
    InvHolds(f, m0, n, trace);
    var log := Log(f, m0, n, trace);
    LogExplainsAll(f, m0, trace, log);
    LogExplainsReturns(trace, log);
    LogRespectsRealTime(trace, log);
    assert Ops(log)[..|log|] == Ops(log);
  }
}

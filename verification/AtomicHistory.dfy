/**
 What the threads of the machine have done and can do, read off the trace: a call in progress
 can always go on and, left alone, returns; and the failures and the first load of a call are
 those of its events in the trace.
 */
module AtomicHistory {
  import opened AtomicOps
  import opened AtomicMachine
  import opened AtomicLinearizability

  // ---------- Nobody is stuck ----------

  /** A thread inside a macro has exactly one next event. */
  lemma OneNextEvent(f: Format, m0: nat, n: nat, trace: seq<Event>, t: nat)
    requires ValidFormat(f) && Legal(f, m0, n, trace)
    requires t < |After(f, m0, n, trace).threads| && !After(f, m0, n, trace).threads[t].Idle?
    ensures exists e: Event ::
              && e.t == t && Enabled(f, After(f, m0, n, trace), e)
              && forall e': Event :: e'.t == t && Enabled(f, After(f, m0, n, trace), e') ==> e' == e
  {
    var s := After(f, m0, n, trace);
    var th := s.threads[t];
    var e :=
      if th.Done? then Return(t, th.resp)
      else if th.Loaded? || Primitive(th.call.op) then Cas(t)
      else Load(t);
    assert Enabled(f, s, e);
  }

  /** A thread outside can call any macro with operands that are words, or a bit of the word. */
  lemma IdleCanInvoke(f: Format, m0: nat, n: nat, trace: seq<Event>, t: nat, v: nat, v': nat, b: nat)
    requires ValidFormat(f) && Legal(f, m0, n, trace)
    requires t < |After(f, m0, n, trace).threads| && After(f, m0, n, trace).threads[t].Idle?
    requires IsWord(f, v) && IsWord(f, v') && b < f.bits
    ensures forall op :: op in {Exchange(v), ExchangeAndAdd(v), Max(v), Min(v), DecrementIfPositive, BitTestSet(b),
                                AndOp(v), AndVal(v), OrOp(v), OrVal(v),
                                CompareAndExchangeVal(v, v'), CompareAndExchangeBool(v, v')} ==>
              Legal(f, m0, n, trace + [Invoke(t, op)])
  {
    forall op | op in {Exchange(v), ExchangeAndAdd(v), Max(v), Min(v), DecrementIfPositive, BitTestSet(b),
                       AndOp(v), AndVal(v), OrOp(v), OrVal(v),
                       CompareAndExchangeVal(v, v'), CompareAndExchangeBool(v, v')}
      ensures Legal(f, m0, n, trace + [Invoke(t, op)])
    {
      Extend(f, m0, n, trace, Invoke(t, op));
    }
  }

  lemma Extend(f: Format, m0: nat, n: nat, trace: seq<Event>, e: Event)
    requires ValidFormat(f) && Legal(f, m0, n, trace) && Enabled(f, After(f, m0, n, trace), e)
    ensures Legal(f, m0, n, trace + [e])
    ensures After(f, m0, n, trace + [e]) == Next(f, After(f, m0, n, trace), e, |trace|)
  {
    assert (trace + [e])[..|trace|] == trace;
  }

  /** Events of `t` alone, of which the last and no other is a return. */
  ghost predicate SoloRun(solo: seq<Event>, t: nat) {
    && solo != []
    && forall k :: 0 <= k < |solo| ==> solo[k].t == t && (solo[k].Return? <==> k == |solo| - 1)
  }

  lemma SoloFromDone(f: Format, m0: nat, n: nat, trace: seq<Event>, t: nat) returns (solo: seq<Event>)
    requires ValidFormat(f) && Legal(f, m0, n, trace) && t < |After(f, m0, n, trace).threads|
    requires After(f, m0, n, trace).threads[t].Done?
    ensures Legal(f, m0, n, trace + solo) && SoloRun(solo, t) && |solo| == 1
  {
    solo := [Return(t, After(f, m0, n, trace).threads[t].resp)];
    Extend(f, m0, n, trace, solo[0]);
  }

  lemma SoloAfter(f: Format, m0: nat, n: nat, trace: seq<Event>, t: nat, e: Event, rest: seq<Event>)
    requires ValidFormat(f) && Legal(f, m0, n, trace + [e] + rest) && SoloRun(rest, t)
    requires e.t == t && !e.Return?
    ensures Legal(f, m0, n, trace + ([e] + rest)) && SoloRun([e] + rest, t)
  {
    assert trace + [e] + rest == trace + ([e] + rest);
  }

  /** The exchange of a thread whose load is still current succeeds; one without a loop ends either way. */
  lemma SoloFromExchange(f: Format, m0: nat, n: nat, trace: seq<Event>, t: nat) returns (solo: seq<Event>)
    requires ValidFormat(f) && Legal(f, m0, n, trace) && t < |After(f, m0, n, trace).threads|
    requires var s := After(f, m0, n, trace);
             var th := s.threads[t];
             (th.Loaded? && th.seen == s.mem) || (th.Ready? && Primitive(th.call.op))
    ensures Legal(f, m0, n, trace + solo) && SoloRun(solo, t) && |solo| == 2
  {
    Extend(f, m0, n, trace, Cas(t));
    var rest := SoloFromDone(f, m0, n, trace + [Cas(t)], t);
    solo := [Cas(t)] + rest;
    SoloAfter(f, m0, n, trace, t, Cas(t), rest);
  }

  lemma SoloFromLoad(f: Format, m0: nat, n: nat, trace: seq<Event>, t: nat) returns (solo: seq<Event>)
    requires ValidFormat(f) && Legal(f, m0, n, trace) && t < |After(f, m0, n, trace).threads|
    requires var th := After(f, m0, n, trace).threads[t]; th.Ready? && !Primitive(th.call.op)
    ensures Legal(f, m0, n, trace + solo) && SoloRun(solo, t)
    ensures var s := After(f, m0, n, trace); |solo| == if Exits(f, s.threads[t].call.op, s.mem) then 2 else 3
  {
    Extend(f, m0, n, trace, Load(t));
    var s := After(f, m0, n, trace);
    var rest;
    if Exits(f, s.threads[t].call.op, s.mem) {
      rest := SoloFromDone(f, m0, n, trace + [Load(t)], t);
    } else {
      rest := SoloFromExchange(f, m0, n, trace + [Load(t)], t);
    }
    solo := [Load(t)] + rest;
    SoloAfter(f, m0, n, trace, t, Load(t), rest);
  }

  /**
   From every reachable state a thread inside a macro, run alone, returns within four steps of its
   own; it needs the fourth exactly when the word it loaded is no longer there and the present
   one does not end the loop.
   */
  lemma SoloReturns(f: Format, m0: nat, n: nat, trace: seq<Event>, t: nat) returns (solo: seq<Event>)
    requires ValidFormat(f) && IsWord(f, m0) && Legal(f, m0, n, trace)
    requires t < |After(f, m0, n, trace).threads| && !After(f, m0, n, trace).threads[t].Idle?
    ensures Legal(f, m0, n, trace + solo) && SoloRun(solo, t) && |solo| <= 4
    ensures var s := After(f, m0, n, trace);
            var th := s.threads[t];
            |solo| == 4 <==> th.Loaded? && th.seen != s.mem && !Exits(f, th.call.op, s.mem)
  {
    InvHolds(f, m0, n, trace);
    var s := After(f, m0, n, trace);
    var th := s.threads[t];
    assert ThreadOk(f, trace, Log(f, m0, n, trace), t, th);
    if th.Done? {
      solo := SoloFromDone(f, m0, n, trace, t);
    } else if (th.Loaded? && th.seen == s.mem) || (th.Ready? && Primitive(th.call.op)) {
      solo := SoloFromExchange(f, m0, n, trace, t);
    } else if th.Ready? {
      solo := SoloFromLoad(f, m0, n, trace, t);
    } else {
      Extend(f, m0, n, trace, Cas(t));
      var rest := SoloFromLoad(f, m0, n, trace + [Cas(t)], t);
      solo := [Cas(t)] + rest;
      SoloAfter(f, m0, n, trace, t, Cas(t), rest);
    }
  }

  // ---------- The failures and the first load of a call, on the trace ----------

  lemma {:induction false} LegalPrefix(f: Format, m0: nat, n: nat, trace: seq<Event>, k: nat)
    requires ValidFormat(f) && Legal(f, m0, n, trace) && k <= |trace|
    ensures Legal(f, m0, n, trace[..k])
  {
    if k == |trace| {
      assert trace[..k] == trace;
    } else {
      var pre := trace[..|trace| - 1];
      LegalPrefix(f, m0, n, pre, k);
      assert pre[..k] == trace[..k];
    }
  }

  /** The word just before event `k`. */
  function WordAt(f: Format, m0: nat, n: nat, trace: seq<Event>, k: nat): nat
    requires ValidFormat(f) && Legal(f, m0, n, trace) && k <= |trace|
  {
    LegalPrefix(f, m0, n, trace, k);
    After(f, m0, n, trace[..k]).mem
  }

  /** `j` is the last load of `t` after `i` and before `k`. */
  ghost predicate LastLoad(trace: seq<Event>, t: nat, i: nat, k: nat, j: nat) {
    && i < j < k <= |trace| && trace[j] == Load(t)
    && forall x :: j < x < k ==> trace[x] != Load(t)
  }

  /** `j` is the first load of `t` after `i`. */
  ghost predicate FirstLoadAfter(trace: seq<Event>, t: nat, i: nat, j: nat) {
    && i < j < |trace| && trace[j] == Load(t)
    && forall x :: i < x < j ==> trace[x] != Load(t)
  }

  /** At `k` thread `t` compares and exchanges, and the word is not what its last load since `i` saw. */
  ghost predicate FailsAt(f: Format, m0: nat, n: nat, trace: seq<Event>, t: nat, i: nat, k: nat)
    requires ValidFormat(f) && Legal(f, m0, n, trace)
  {
    && i < k < |trace| && trace[k] == Cas(t)
    && exists j: nat :: LastLoad(trace, t, i, k, j) && WordAt(f, m0, n, trace, j) != WordAt(f, m0, n, trace, k)
  }

  /** The failed compare-and-exchanges of `t` since `i`. */
  ghost function Failed(f: Format, m0: nat, n: nat, trace: seq<Event>, t: nat, i: nat): set<nat>
    requires ValidFormat(f) && Legal(f, m0, n, trace)
  {
    set k: nat | k < |trace| && FailsAt(f, m0, n, trace, t, i, k)
  }

  lemma WordAtPrefix(f: Format, m0: nat, n: nat, trace: seq<Event>, k: nat)
    requires ValidFormat(f) && Legal(f, m0, n, trace) && k < |trace|
    ensures Legal(f, m0, n, trace[..|trace| - 1])
    ensures WordAt(f, m0, n, trace, k) == WordAt(f, m0, n, trace[..|trace| - 1], k)
  {
    LegalPrefix(f, m0, n, trace, |trace| - 1);
    assert trace[..|trace| - 1][..k] == trace[..k];
  }

  lemma LastLoadPrefix(trace: seq<Event>, t: nat, i: nat, k: nat, j: nat)
    requires k < |trace|
    ensures LastLoad(trace, t, i, k, j) <==> LastLoad(trace[..|trace| - 1], t, i, k, j)
  {
    var pre := trace[..|trace| - 1];
    assert forall x :: 0 <= x < k ==> pre[x] == trace[x];
  }

  lemma FailsAtPrefix(f: Format, m0: nat, n: nat, trace: seq<Event>, t: nat, i: nat, k: nat)
    requires ValidFormat(f) && Legal(f, m0, n, trace) && k < |trace| - 1
    ensures Legal(f, m0, n, trace[..|trace| - 1])
    ensures FailsAt(f, m0, n, trace, t, i, k) <==> FailsAt(f, m0, n, trace[..|trace| - 1], t, i, k)
  {
    var pre := trace[..|trace| - 1];
    WordAtPrefix(f, m0, n, trace, k);
    if FailsAt(f, m0, n, trace, t, i, k) {
      var j: nat :| LastLoad(trace, t, i, k, j) && WordAt(f, m0, n, trace, j) != WordAt(f, m0, n, trace, k);
      WordAtPrefix(f, m0, n, trace, j);
      LastLoadPrefix(trace, t, i, k, j);
    }
    if FailsAt(f, m0, n, pre, t, i, k) {
      var j: nat :| LastLoad(pre, t, i, k, j) && WordAt(f, m0, n, pre, j) != WordAt(f, m0, n, pre, k);
      WordAtPrefix(f, m0, n, trace, j);
      LastLoadPrefix(trace, t, i, k, j);
    }
  }

  lemma FailedExtends(f: Format, m0: nat, n: nat, trace: seq<Event>, t: nat, i: nat)
    requires ValidFormat(f) && Legal(f, m0, n, trace) && trace != []
    ensures var k := |trace| - 1;
            && Legal(f, m0, n, trace[..k]) && k !in Failed(f, m0, n, trace[..k], t, i)
            && Failed(f, m0, n, trace, t, i)
               == Failed(f, m0, n, trace[..k], t, i) + (if FailsAt(f, m0, n, trace, t, i, k) then {k} else {})
  {
    var k := |trace| - 1;
    LegalPrefix(f, m0, n, trace, k);
    forall x: nat | x < k
      ensures FailsAt(f, m0, n, trace, t, i, x) <==> FailsAt(f, m0, n, trace[..k], t, i, x)
    {
      FailsAtPrefix(f, m0, n, trace, t, i, x);
    }
  }

  /** The first load of `t` after `i` saw `v`. */
  ghost predicate FirstSaw(f: Format, m0: nat, n: nat, trace: seq<Event>, t: nat, i: nat, v: nat)
    requires ValidFormat(f) && Legal(f, m0, n, trace)
  {
    exists j: nat :: FirstLoadAfter(trace, t, i, j) && WordAt(f, m0, n, trace, j) == v
  }

  /** The last load of `t` after `i` saw `v`. */
  ghost predicate LastSaw(f: Format, m0: nat, n: nat, trace: seq<Event>, t: nat, i: nat, v: nat)
    requires ValidFormat(f) && Legal(f, m0, n, trace)
  {
    exists j: nat :: LastLoad(trace, t, i, |trace|, j) && WordAt(f, m0, n, trace, j) == v
  }

  /** What a thread remembers about its call is what the trace says about it. */
  ghost predicate Remembers(f: Format, m0: nat, n: nat, trace: seq<Event>, t: nat, th: Thread)
    requires ValidFormat(f) && Legal(f, m0, n, trace)
  {
    !th.Idle? ==>
      var c := th.call;
      && c.inv < |trace|
      && c.fails == |Failed(f, m0, n, trace, t, c.inv)|
      && (c.first.None? ==> forall x :: c.inv < x < |trace| ==> trace[x] != Load(t))
      && (c.first.Some? ==> FirstSaw(f, m0, n, trace, t, c.inv, c.first.value))
      && (th.Loaded? ==> LastSaw(f, m0, n, trace, t, c.inv, th.seen))
      && (Primitive(c.op) ==> c.first.None?)
  }

  /** One more event leaves the first load of a call what it was. */
  lemma FirstSawExtends(f: Format, m0: nat, n: nat, trace: seq<Event>, t: nat, i: nat, v: nat)
    requires ValidFormat(f) && Legal(f, m0, n, trace) && trace != [] && Legal(f, m0, n, trace[..|trace| - 1])
    requires FirstSaw(f, m0, n, trace[..|trace| - 1], t, i, v)
    ensures FirstSaw(f, m0, n, trace, t, i, v)
  {
    var pre := trace[..|trace| - 1];
    var j: nat :| FirstLoadAfter(pre, t, i, j) && WordAt(f, m0, n, pre, j) == v;
    assert forall x :: 0 <= x < |pre| ==> pre[x] == trace[x];
    assert FirstLoadAfter(trace, t, i, j);
    WordAtPrefix(f, m0, n, trace, j);
  }

  lemma LastSawExtends(f: Format, m0: nat, n: nat, trace: seq<Event>, t: nat, i: nat, v: nat) returns (j: nat)
    requires ValidFormat(f) && Legal(f, m0, n, trace) && trace != [] && Legal(f, m0, n, trace[..|trace| - 1])
    requires LastSaw(f, m0, n, trace[..|trace| - 1], t, i, v)
    ensures LastLoad(trace, t, i, |trace| - 1, j) && WordAt(f, m0, n, trace, j) == v
    ensures trace[|trace| - 1] != Load(t) ==> LastSaw(f, m0, n, trace, t, i, v)
  {
    var pre := trace[..|trace| - 1];
    j :| LastLoad(pre, t, i, |pre|, j) && WordAt(f, m0, n, pre, j) == v;
    LastLoadPrefix(trace, t, i, |pre|, j);
    WordAtPrefix(f, m0, n, trace, j);
    if trace[|pre|] != Load(t) { assert LastLoad(trace, t, i, |trace|, j); }
  }

  /** Another thread's event changes nothing a thread remembers. */
  lemma OtherRemembers(f: Format, m0: nat, n: nat, trace: seq<Event>, t: nat, th: Thread)
    requires ValidFormat(f) && Legal(f, m0, n, trace) && trace != [] && Legal(f, m0, n, trace[..|trace| - 1])
    requires Remembers(f, m0, n, trace[..|trace| - 1], t, th) && trace[|trace| - 1].t != t
    ensures Remembers(f, m0, n, trace, t, th)
  {
    if !th.Idle? {
      var c, pre := th.call, trace[..|trace| - 1];
      FailedExtends(f, m0, n, trace, t, c.inv);
      if c.first.Some? { FirstSawExtends(f, m0, n, trace, t, c.inv, c.first.value); }
      if th.Loaded? { var _ := LastSawExtends(f, m0, n, trace, t, c.inv, th.seen); }
    }
  }

  /** A compare-and-exchange fails on the trace exactly if it fails in the machine. */
  lemma CasFails(f: Format, m0: nat, n: nat, trace: seq<Event>, t: nat)
    requires ValidFormat(f) && Legal(f, m0, n, trace) && trace != [] && Legal(f, m0, n, trace[..|trace| - 1])
    requires trace[|trace| - 1] == Cas(t)
    requires var s := After(f, m0, n, trace[..|trace| - 1]);
             Remembers(f, m0, n, trace[..|trace| - 1], t, s.threads[t])
    ensures var s := After(f, m0, n, trace[..|trace| - 1]);
            FailsAt(f, m0, n, trace, t, s.threads[t].call.inv, |trace| - 1)
            <==> s.threads[t].Loaded? && s.threads[t].seen != s.mem
  {
    var k := |trace| - 1;
    var pre := trace[..k];
    var s := After(f, m0, n, pre);
    var th, i := s.threads[t], s.threads[t].call.inv;
    assert WordAt(f, m0, n, trace, k) == s.mem;
    if th.Loaded? {
      var j := LastSawExtends(f, m0, n, trace, t, i, th.seen);
      assert forall j': nat :: LastLoad(trace, t, i, k, j') ==> j' == j;
    } else {
      assert forall j: nat :: LastLoad(trace, t, i, k, j) ==> pre[j] == Load(t);
    }
  }

  lemma InvokeRemembers(f: Format, m0: nat, n: nat, trace: seq<Event>, t: nat)
    requires ValidFormat(f) && Legal(f, m0, n, trace) && trace != []
    requires trace[|trace| - 1].Invoke? && trace[|trace| - 1].t == t
    ensures Remembers(f, m0, n, trace, t, After(f, m0, n, trace).threads[t])
  {
    assert Failed(f, m0, n, trace, t, |trace| - 1) == {};
  }

  lemma LoadRemembers(f: Format, m0: nat, n: nat, trace: seq<Event>, t: nat)
    requires ValidFormat(f) && Legal(f, m0, n, trace) && trace != [] && Legal(f, m0, n, trace[..|trace| - 1])
    requires trace[|trace| - 1] == Load(t)
    requires var s := After(f, m0, n, trace[..|trace| - 1]);
             Remembers(f, m0, n, trace[..|trace| - 1], t, s.threads[t])
    ensures Remembers(f, m0, n, trace, t, After(f, m0, n, trace).threads[t])
  {
    var k := |trace| - 1;
    var pre := trace[..k];
    var s := After(f, m0, n, pre);
    var c := s.threads[t].call;
    FailedExtends(f, m0, n, trace, t, c.inv);
    assert WordAt(f, m0, n, trace, k) == s.mem;
    assert LastLoad(trace, t, c.inv, |trace|, k);
    if c.first.Some? {
      FirstSawExtends(f, m0, n, trace, t, c.inv, c.first.value);
    } else {
      assert forall x :: c.inv < x < k ==> pre[x] == trace[x];
      assert FirstLoadAfter(trace, t, c.inv, k);
    }
  }

  lemma CasRemembers(f: Format, m0: nat, n: nat, trace: seq<Event>, t: nat)
    requires ValidFormat(f) && Legal(f, m0, n, trace) && trace != [] && Legal(f, m0, n, trace[..|trace| - 1])
    requires trace[|trace| - 1] == Cas(t)
    requires var s := After(f, m0, n, trace[..|trace| - 1]);
             Remembers(f, m0, n, trace[..|trace| - 1], t, s.threads[t])
    ensures Remembers(f, m0, n, trace, t, After(f, m0, n, trace).threads[t])
  {
    var k := |trace| - 1;
    var pre := trace[..k];
    var c := After(f, m0, n, pre).threads[t].call;
    FailedExtends(f, m0, n, trace, t, c.inv);
    CasFails(f, m0, n, trace, t);
    if c.first.Some? {
      FirstSawExtends(f, m0, n, trace, t, c.inv, c.first.value);
    } else {
      assert forall x :: c.inv < x < k ==> pre[x] == trace[x];
    }
  }

  lemma {:induction false} RemembersHolds(f: Format, m0: nat, n: nat, trace: seq<Event>, t: nat)
    requires ValidFormat(f) && Legal(f, m0, n, trace) && t < |After(f, m0, n, trace).threads|
    ensures Remembers(f, m0, n, trace, t, After(f, m0, n, trace).threads[t])
  {
    if trace != [] {
      var k := |trace| - 1;
      RemembersHolds(f, m0, n, trace[..k], t);
      if trace[k].t != t {
        OtherRemembers(f, m0, n, trace, t, After(f, m0, n, trace[..k]).threads[t]);
      } else {
        match trace[k]
        case Invoke(_, _) => InvokeRemembers(f, m0, n, trace, t);
        case Load(_) => LoadRemembers(f, m0, n, trace, t);
        case Cas(_) => CasRemembers(f, m0, n, trace, t);
        case Return(_, _) =>
      }
    }
  }

  /** A call that was invoked and has not returned is the one its thread is executing. */
  lemma OpenIsExecuted(f: Format, m0: nat, n: nat, trace: seq<Event>, t: nat, i: nat)
    requires ValidFormat(f) && IsWord(f, m0) && Legal(f, m0, n, trace) && Open(trace, t, i)
    ensures var s := After(f, m0, n, trace);
            t < |s.threads| && !s.threads[t].Idle? && s.threads[t].call.inv == i && s.threads[t].call.op == trace[i].op
  {
    InvHolds(f, m0, n, trace);
    InvokerExists(f, m0, n, trace, i);
    assert ThreadOk(f, trace, Log(f, m0, n, trace), t, After(f, m0, n, trace).threads[t]);
  }

  /** The call a thread is executing, its failures and its first load are those of the trace. */
  lemma CallOnTrace(f: Format, m0: nat, n: nat, trace: seq<Event>, t: nat, i: nat)
    requires ValidFormat(f) && IsWord(f, m0) && Legal(f, m0, n, trace) && Open(trace, t, i)
    ensures var s := After(f, m0, n, trace);
            && t < |s.threads| && !s.threads[t].Idle?
            && var c := s.threads[t].call;
               && c.inv == i && c.op == trace[i].op
               && c.fails == |Failed(f, m0, n, trace, t, i)|
               && (c.first.Some? <==> exists j: nat :: FirstLoadAfter(trace, t, i, j))
               && forall j: nat :: FirstLoadAfter(trace, t, i, j) ==> c.first == Some(WordAt(f, m0, n, trace, j))
  {
    OpenIsExecuted(f, m0, n, trace, t, i);
    RemembersHolds(f, m0, n, trace, t);
  }
}

/**
 Any number of threads run the macros of atomic.h on one shared word. A load and a
 compare-and-exchange are separate steps, and the steps of different threads interleave
 in any order. Memory is sequentially consistent.
 */
module AtomicMachine {
  import opened AtomicOps

  datatype Option<T> = None | Some(value: T)

  /**
   One execution of a macro. `inv` is the position of its invocation in the trace and
   names the call; `first` is the first value it loaded and `fails` the number of times its
   compare-and-exchange failed. The last three are history: no step reads them.
   */
  datatype Call = Call(op: Op, inv: nat, first: Option<nat>, fails: nat)

  datatype Thread =
    | Idle
    | Ready(call: Call)                // at the top of the do-while loop
    | Loaded(call: Call, seen: nat)    // about to compare-and-exchange
    | Done(call: Call, resp: Response) // out of the loop, about to return

  datatype State = State(mem: nat, threads: seq<Thread>)

  datatype Event =
    | Invoke(t: nat, op: Op)
    | Load(t: nat)
    | Cas(t: nat)
    | Return(t: nat, resp: Response)

  function Init(m0: nat, n: nat): State {
    State(m0, seq(n, _ => Idle))
  }

  predicate Enabled(f: Format, s: State, e: Event) {
    && e.t < |s.threads|
    && var th := s.threads[e.t];
       match e
       case Invoke(_, op) => th.Idle? && ValidOp(f, op)
       case Load(_) => th.Ready? && !Primitive(th.call.op)
       case Cas(_) => th.Loaded? || (th.Ready? && Primitive(th.call.op))
       case Return(_, r) => th.Done? && th.resp == r
  }

  /** Whether the compare-and-exchange of `e` finds what it expects. */
  predicate CasMatches(s: State, e: Event)
    requires e.Cas? && e.t < |s.threads| && (s.threads[e.t].Loaded? || s.threads[e.t].Ready?)
  {
    var th := s.threads[e.t];
    s.mem == if th.Loaded? then th.seen else Expected(th.call.op, s.mem)
  }

  function FirstLoad(call: Call, seen: nat): Call {
    if call.first.None? then call.(first := Some(seen)) else call
  }

  /** One step; `now` is its position in the trace. */
  function Next(f: Format, s: State, e: Event, now: nat): State
    requires ValidFormat(f) && Enabled(f, s, e)
  {
    var th := s.threads[e.t];
    match e
    case Invoke(t, op) => s.(threads := s.threads[t := Ready(Call(op, now, None, 0))])
    case Load(t) =>
      var call := FirstLoad(th.call, s.mem);
      if Exits(f, call.op, s.mem)
      then s.(threads := s.threads[t := Done(call, Respond(call.op, s.mem))])
      else s.(threads := s.threads[t := Loaded(call, s.mem)])
    case Cas(t) =>
      if CasMatches(s, e) then
        State(NewValue(f, th.call.op, s.mem), s.threads[t := Done(th.call, Respond(th.call.op, s.mem))])
      else if th.Loaded? then
        s.(threads := s.threads[t := Ready(th.call.(fails := th.call.fails + 1))])
      else
        s.(threads := s.threads[t := Done(th.call, Respond(th.call.op, s.mem))])
    case Return(t, _) => s.(threads := s.threads[t := Idle])
  }

  /** The state after a trace, or `None` when some event of it was not possible. */
  function Run(f: Format, m0: nat, n: nat, trace: seq<Event>): Option<State>
    requires ValidFormat(f)
  {
    if trace == [] then Some(Init(m0, n))
    else
      var k := |trace| - 1;
      match Run(f, m0, n, trace[..k])
      case None => None
      case Some(s) => if Enabled(f, s, trace[k]) then Some(Next(f, s, trace[k], k)) else None
  }

  predicate Legal(f: Format, m0: nat, n: nat, trace: seq<Event>)
    requires ValidFormat(f)
  {
    Run(f, m0, n, trace).Some?
  }

  function After(f: Format, m0: nat, n: nat, trace: seq<Event>): State
    requires ValidFormat(f) && Legal(f, m0, n, trace)
  {
    Run(f, m0, n, trace).value
  }

  /** Every operation invoked in the trace is one of the allowed ones. */
  ghost predicate Invokes(trace: seq<Event>, allowed: Op -> bool) {
    forall k :: 0 <= k < |trace| && trace[k].Invoke? ==> allowed(trace[k].op)
  }

  /** A call that has taken effect, the moment at which it did, and what it will return. */
  datatype Entry = Entry(call: Call, at: nat, resp: Response)

  /** The entry that a step adds to the log: a call takes effect when its thread leaves the loop. */
  function Logged(f: Format, s: State, e: Event, now: nat): seq<Entry>
    requires ValidFormat(f) && Enabled(f, s, e)
  {
    var th := Next(f, s, e, now).threads[e.t];
    if th.Done? then [Entry(th.call, now, th.resp)] else []
  }

  /** The calls that have taken effect, in that order. */
  function Log(f: Format, m0: nat, n: nat, trace: seq<Event>): seq<Entry>
    requires ValidFormat(f) && Legal(f, m0, n, trace)
  {
    if trace == [] then []
    else
      var k := |trace| - 1;
      Log(f, m0, n, trace[..k]) + Logged(f, After(f, m0, n, trace[..k]), trace[k], k)
  }

  function Ops(log: seq<Entry>): (ops: seq<Op>)
    ensures |ops| == |log|
  {
    seq(|log|, k requires 0 <= k < |log| => log[k].call.op)
  }

  /** The word after a sequence of undisturbed operations. */
  function Replay(f: Format, m0: nat, ops: seq<Op>): nat
    requires ValidFormat(f)
  {
    if ops == [] then m0
    else
      var k := |ops| - 1;
      Effect(f, ops[k], Replay(f, m0, ops[..k]))
  }
}

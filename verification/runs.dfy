/**
  The validation chain as an event-driven machine. Each call a client or a step can make
  on the public surface is an event; a step that completes later (from another thread, a
  timer, ...) is simply an event that arrives later, so synchronous and deferred steps are
  the same sequence of transitions.
 */
module Runs {
  import opened Outcomes
  import opened Callback
  import opened Validation

  datatype Event<E> =
    | Append(step: StepId)                                  // validate { ... }
    | Start(listeners: ListenersId)                         // evaluate(onInvalid, onValid)
    | ReportSuccess(handle: HandleId)                       // callback.success()
    | ReportFailure(handle: HandleId, error: E)             // callback.failure(error)
    | ReportCheck(handle: HandleId, error: E, holds: bool)  // callback.check(error) { holds }
  {
    predicate IsReport() {
      ReportSuccess? || ReportFailure? || ReportCheck?
    }
  }

  /** A completion can only name a handle the chain has already handed out. */
  predicate Enabled<E>(w: World<E>, ev: Event<E>) {
    ev.IsReport() ==> ev.handle < |w.handles|
  }

  /**
    Flags and handles only move one way: isEvaluated never reverts, isSuccessful never
    returns to true, bound callbacks stay bound, handles are only added, and a consumed
    handle stays consumed.
   */
  ghost predicate Monotone<E>(w: World<E>, w': World<E>) {
    && (w.chain.isEvaluated ==> w'.chain.isEvaluated)
    && (!w.chain.IsSuccessful() ==> !w'.chain.IsSuccessful())
    && (w.chain.listeners.Some? ==> w'.chain.listeners.Some?)
    && |w.handles| <= |w'.handles|
    && (forall i :: 0 <= i < |w.handles| && w.handles[i] == Consumed ==> w'.handles[i] == Consumed)
  }

  /** One call on the public surface. */
  function Apply<E>(w: World<E>, ev: Event<E>): (r: Result<Transition<E>>)
    requires Consistent(w) && Enabled(w, ev)
    ensures r.Err? <==>
      || (ev.Start? && w.chain.isEvaluated)
      || (ev.IsReport() && w.handles[ev.handle] == Consumed)
    ensures r.Ok? ==> Consistent(r.value.after) && Monotone(w, r.value.after)
    ensures r.Ok? && ev.IsReport() ==> Resumed(w, ev.handle, r.value)
    ensures r.Ok? ==> forall j :: 0 <= j < |r.value.emitted| && r.value.emitted[j].IsTerminal() ==>
                        r.value.after.chain.isEvaluated
    ensures r.Ok? && !w.chain.isEvaluated && r.value.after.chain.isEvaluated ==>
              |r.value.emitted| == 1 && r.value.emitted[0].IsTerminal()
  {
    match ev
    case Append(step) => Ok(Transition(Validate(w, step), []))
    case Start(listeners) => Evaluate(w, listeners)
    case ReportSuccess(h) => CallbackSuccess(w, h)
    case ReportFailure(h, error) => CallbackFailure(w, h, error)
    case ReportCheck(h, error, holds) => CallbackCheck(w, h, error, holds)
  }

  /** One call as its caller sees it: a raised misuse is reported and leaves the world as it was. */
  function Next<E>(w: World<E>, ev: Event<E>): (t: Transition<E>)
    requires Consistent(w) && Enabled(w, ev)
    ensures Consistent(t.after) && Monotone(w, t.after)
  {
    match Apply(w, ev)
    case Ok(t) => t
    case Err(m) => Transition(w, [Raised(m)])
  }

  /** Every event of the sequence is enabled in the world it arrives in. */
  predicate Feasible<E>(w: World<E>, evs: seq<Event<E>>)
    requires Consistent(w)
    decreases |evs|
  {
    |evs| == 0 || (Enabled(w, evs[0]) && Feasible(Next(w, evs[0]).after, evs[1..]))
  }

  /** A whole history of calls, in order; the effects are concatenated. */
  function Run<E>(w: World<E>, evs: seq<Event<E>>): (t: Transition<E>)
    requires Consistent(w) && Feasible(w, evs)
    ensures Consistent(t.after) && Monotone(w, t.after)
    decreases |evs|
  {
    if |evs| == 0 then Transition(w, [])
    else
      var t1 := Next(w, evs[0]);
      var t2 := Run(t1.after, evs[1..]);
      Transition(t2.after, t1.emitted + t2.emitted)
  }

  /** The completion call a step makes to deliver its report. */
  function Reply<E>(h: HandleId, report: Report<E>): (ev: Event<E>)
    ensures ev.IsReport() && ev.handle == h
    ensures report.Pass? <==> ev.ReportSuccess?
    ensures report.Fail? ==> ev == ReportFailure(h, report.error)
  {
    match report
    case Pass => ReportSuccess(h)
    case Fail(e) => ReportFailure(h, e)
  }

  /** The newest handle is still armed and the oracle knows what its step reports. */
  predicate Awaiting<E>(w: World<E>, oracle: seq<Report<E>>) {
    0 < |w.handles| <= |oracle| && w.handles[|w.handles| - 1] == Armed
  }

  /**
    The well-behaved environment: the step invoked with handle n eventually reports
    `oracle[n]` exactly once, through that handle, and nobody else calls anything.
    It stops once no armed handle is waiting.
   */
  function Drive<E>(w: World<E>, oracle: seq<Report<E>>): (t: Transition<E>)
    requires Consistent(w)
    ensures Consistent(t.after) && Monotone(w, t.after)
    decreases |w.chain.pending|, if Awaiting(w, oracle) then 1 else 0
  {
    if !Awaiting(w, oracle) then Transition(w, [])
    else
      var h := |w.handles| - 1;
      var t1 := Next(w, Reply(h, oracle[h]));
      assert Resumed(w, h, t1);
      var t2 := Drive(t1.after, oracle);
      Transition(t2.after, t1.emitted + t2.emitted)
  }

  /** buildChain, then `validate` each step in order, then `evaluate`, with each step reporting its oracle outcome. */
  function Evaluation<E>(steps: seq<StepId>, listeners: ListenersId, oracle: seq<Report<E>>): (t: Transition<E>)
    ensures Consistent(t.after)
  {
    var w := Appended(BuildChain(), steps);
    var t0 := Next(w, Start(listeners));
    var t1 := Drive(t0.after, oracle);
    Transition(t1.after, t0.emitted + t1.emitted)
  }
}

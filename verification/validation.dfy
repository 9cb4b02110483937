/**
  The Validation chain and the completions of its callbacks, as pure functions over
  an immutable world: the chain's own state plus the state of every callback handle
  it has created so far. A call that would throw IllegalStateException returns `Err`
  and carries no new state, so it changes nothing.
 */
module Validation {
  import opened Outcomes
  import opened Callback

  /** Opaque identity of a validator lambda added with `validate`. */
  type StepId = nat
  /** A callback handle is named by its creation index: the n-th step invoked gets handle n. */
  type HandleId = nat
  /** Identity of the (onInvalid, onValid) pair passed to one `evaluate` call. */
  type ListenersId = nat

  /**
    The state of one Validation object. `status` is the pair (isSuccessful, error):
    `Pass` is isSuccessful with no error, `Fail(e)` is a recorded failure with error `e`.
    `listeners` is the lateinit pair of terminal callbacks, `None` until `evaluate` binds it.
   */
  datatype Chain<E> = Chain(
    pending: seq<StepId>,
    isEvaluated: bool,
    status: Report<E>,
    listeners: Option<ListenersId>)
  {
    predicate IsSuccessful() {
      status.Pass?
    }

    /** The guard of doEvaluate: nothing left to run, or a failure already recorded. */
    predicate ShouldFinish() {
      |pending| == 0 || !IsSuccessful()
    }
  }

  /** The chain together with the state of each handle it created, indexed by HandleId. */
  datatype World<E> = World(chain: Chain<E>, handles: seq<Handle>)

  /** What an operation makes observable: a step invoked with a fresh handle, or a terminal callback. */
  datatype Effect<E> =
    | Invoked(step: StepId, handle: HandleId)
    | Valid(listeners: ListenersId)
    | Invalid(listeners: ListenersId, error: E)
    | Raised(misuse: Misuse)
  {
    predicate IsTerminal() {
      Valid? || Invalid?
    }
  }

  /** The world after an operation and the effects it produced, in order. */
  datatype Transition<E> = Transition(after: World<E>, emitted: seq<Effect<E>>)

  /**
    What every reachable world satisfies: the lateinit callbacks are bound before they can
    be read (once a handle exists or the chain is evaluated), and a recorded failure has
    always finished the chain.
   */
  predicate Consistent<E>(w: World<E>) {
    && ((w.chain.isEvaluated || |w.handles| > 0) ==> w.chain.listeners.Some?)
    && (!w.chain.IsSuccessful() ==> w.chain.isEvaluated)
  }

  /** The terminal callback doEvaluate calls for the chain's recorded status. */
  function Terminal<E>(c: Chain<E>): (eff: Effect<E>)
    requires c.listeners.Some?
    ensures eff.IsTerminal() && eff.listeners == c.listeners.value
    ensures eff.Valid? <==> c.IsSuccessful()
    ensures eff.Invalid? ==> eff.error == c.status.error
  {
    if c.IsSuccessful() then Valid(c.listeners.value) else Invalid(c.listeners.value, c.status.error)
  }

  /** buildChain: an empty chain, not evaluated, successful, with no callbacks bound. */
  function BuildChain<E>(): (w: World<E>)
    ensures w.chain.pending == [] && w.handles == []
    ensures !w.chain.isEvaluated && w.chain.IsSuccessful() && w.chain.listeners.None?
    ensures Consistent(w)
  {
    World(Chain([], false, Pass, None), [])
  }

  /** validate: appends the step at the back of the queue; nothing else changes and nothing runs. */
  function Validate<E>(w: World<E>, step: StepId): (r: World<E>)
    ensures r.chain.pending == w.chain.pending + [step]
    ensures r.chain.isEvaluated == w.chain.isEvaluated && r.chain.status == w.chain.status
    ensures r.chain.listeners == w.chain.listeners && r.handles == w.handles
    ensures Consistent(w) ==> Consistent(r)
  {
    w.(chain := w.chain.(pending := w.chain.pending + [step]))
  }

  /** A builder chain of `validate` calls: the steps queue up in the order they were added. */
  function Appended<E>(w: World<E>, steps: seq<StepId>): (r: World<E>)
    ensures r.chain.pending == w.chain.pending + steps
    ensures r.chain.isEvaluated == w.chain.isEvaluated && r.chain.status == w.chain.status
    ensures r.chain.listeners == w.chain.listeners && r.handles == w.handles
    decreases |steps|
  {
    if |steps| == 0 then w
    else
      var r := Appended(Validate(w, steps[0]), steps[1..]);
      assert w.chain.pending + [steps[0]] + steps[1..] == w.chain.pending + steps;
      r
  }

  /**
    doEvaluate: when nothing is pending or a failure is recorded, sets isEvaluated and
    calls exactly one terminal callback; otherwise removes only the front step and invokes
    it with a fresh armed handle, leaving every flag as it was.
   */
  function DoEvaluate<E>(w: World<E>): (t: Transition<E>)
    requires w.chain.listeners.Some?
    ensures t.after.chain.status == w.chain.status && t.after.chain.listeners == w.chain.listeners
    ensures w.chain.ShouldFinish() ==>
      && t.after.chain.isEvaluated
      && t.after.chain.pending == w.chain.pending
      && t.after.handles == w.handles
      && t.emitted == [Terminal(w.chain)]
    ensures !w.chain.ShouldFinish() ==>
      && w.chain.pending == [w.chain.pending[0]] + t.after.chain.pending
      && t.after.chain.isEvaluated == w.chain.isEvaluated
      && t.after.handles == w.handles + [Armed]
      && t.emitted == [Invoked(w.chain.pending[0], |w.handles|)]
    ensures Consistent(t.after)
  {
    if w.chain.ShouldFinish() then
      Transition(w.(chain := w.chain.(isEvaluated := true)), [Terminal(w.chain)])
    else
      var step := w.chain.pending[0];
      Transition(World(w.chain.(pending := w.chain.pending[1..]), w.handles + [Armed]), [Invoked(step, |w.handles|)])
  }

  /**
    The chain's internal failure: records the error and resumes, which finishes at once,
    whatever is still pending, with onInvalid receiving that same error.
   */
  function ChainFailure<E>(w: World<E>, error: E): (t: Transition<E>)
    requires w.chain.listeners.Some?
    ensures t.after.chain.isEvaluated && t.after.chain.status == Fail(error)
    ensures t.after.chain.pending == w.chain.pending && t.after.handles == w.handles
    ensures t.emitted == [Invalid(w.chain.listeners.value, error)]
    ensures Consistent(t.after)
  {
    DoEvaluate(w.(chain := w.chain.(status := Fail(error))))
  }

  /**
    evaluate: raises exactly when isEvaluated is already set, and then changes nothing;
    otherwise binds (or rebinds) the terminal callbacks and runs doEvaluate. The guard is
    only isEvaluated, so a second call while a step is still pending is accepted.
   */
  function Evaluate<E>(w: World<E>, listeners: ListenersId): (r: Result<Transition<E>>)
    requires Consistent(w)
    ensures r.Err? <==> w.chain.isEvaluated
    ensures r.Err? ==> r.misuse == AlreadyEvaluated
    ensures r.Ok? ==> r.value.after.chain.listeners == Some(listeners) && Consistent(r.value.after)
    ensures r.Ok? ==> (r.value.after.chain.isEvaluated <==> |w.chain.pending| == 0)
    ensures r.Ok? && |w.chain.pending| == 0 ==> r.value.emitted == [Valid(listeners)]
    ensures r.Ok? && |w.chain.pending| > 0 ==>
      && r.value.emitted == [Invoked(w.chain.pending[0], |w.handles|)]
      && r.value.after.chain.pending == w.chain.pending[1..]
      && r.value.after.handles == w.handles + [Armed]
  {
    if w.chain.isEvaluated then Err(AlreadyEvaluated)
    else Ok(DoEvaluate(w.(chain := w.chain.(listeners := Some(listeners)))))
  }

  /**
    How an accepted completion of handle `h` resumes the chain: the handle is consumed, and
    then either exactly the front pending step starts under a new armed handle, or the
    chain finishes with exactly one terminal callback and the queue untouched.
   */
  ghost predicate Resumed<E>(w: World<E>, h: HandleId, t: Transition<E>)
    requires h < |w.handles|
  {
    var consumed := w.handles[h := Consumed];
    || (&& |w.chain.pending| > 0
        && t.after.chain.pending == w.chain.pending[1..]
        && t.after.handles == consumed + [Armed]
        && t.emitted == [Invoked(w.chain.pending[0], |w.handles|)])
    || (&& t.after.chain.pending == w.chain.pending
        && t.after.handles == consumed
        && t.after.chain.isEvaluated
        && |t.emitted| == 1 && t.emitted[0].IsTerminal())
  }

  /**
    ValidationCallback.success: raises if the handle was already used, without resuming
    the chain; otherwise consumes the handle and resumes the chain through doEvaluate.
   */
  function CallbackSuccess<E>(w: World<E>, h: HandleId): (r: Result<Transition<E>>)
    requires Consistent(w) && h < |w.handles|
    ensures r.Err? <==> w.handles[h] == Consumed
    ensures r.Err? ==> r.misuse == CallbackReused
    ensures r.Ok? ==> r.value == DoEvaluate(w.(handles := w.handles[h := Consumed]))
    ensures r.Ok? ==> Resumed(w, h, r.value) && Consistent(r.value.after)
    ensures r.Ok? ==> r.value.after.chain.status == w.chain.status
  {
    match CheckCallback(w.handles[h])
    case Err(m) => Err(m)
    case Ok(consumed) => Ok(DoEvaluate(w.(handles := w.handles[h := consumed])))
  }

  /**
    ValidationCallback.failure: raises if the handle was already used, without resuming
    the chain; otherwise consumes the handle, and the chain finishes at once with onInvalid
    receiving the reported error.
   */
  function CallbackFailure<E>(w: World<E>, h: HandleId, error: E): (r: Result<Transition<E>>)
    requires Consistent(w) && h < |w.handles|
    ensures r.Err? <==> w.handles[h] == Consumed
    ensures r.Err? ==> r.misuse == CallbackReused
    ensures r.Ok? ==> r.value == ChainFailure(w.(handles := w.handles[h := Consumed]), error)
    ensures r.Ok? ==> Resumed(w, h, r.value) && Consistent(r.value.after)
    ensures r.Ok? ==> r.value.emitted == [Invalid(w.chain.listeners.value, error)]
  {
    match CheckCallback(w.handles[h])
    case Err(m) => Err(m)
    case Ok(consumed) => Ok(ChainFailure(w.(handles := w.handles[h := consumed]), error))
  }

  /** ValidationCallback.check: exactly `success()` when the predicate holds, exactly `failure(error)` otherwise. */
  function CallbackCheck<E>(w: World<E>, h: HandleId, error: E, holds: bool): (r: Result<Transition<E>>)
    requires Consistent(w) && h < |w.handles|
    ensures holds ==> r == CallbackSuccess(w, h)
    ensures !holds ==> r == CallbackFailure(w, h, error)
  {
    match Decide(error, holds)
    case Pass => CallbackSuccess(w, h)
    case Fail(e) => CallbackFailure(w, h, e)
  }
}

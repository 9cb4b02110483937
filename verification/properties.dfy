/**
  What the validation chain guarantees: the order in which steps run, the first-failure
  short-circuit, the terminal outcome, the one-way flags, and the two misuse errors.
 */
module Properties {
  import opened Outcomes
  import opened Callback
  import opened Validation
  import opened Runs
  import opened Reference

  /** The world while step i runs under handle i, after every earlier step passed. */
  ghost predicate RunningStep<E>(w: World<E>, steps: seq<StepId>, listeners: ListenersId, i: nat) {
    && i < |steps|
    && w.chain == Chain(steps[i + 1..], false, Pass, Some(listeners))
    && |w.handles| == i + 1
    && w.handles[i] == Armed
  }

  /** Step i's report, delivered through its own armed handle, is accepted and resumes the chain. */
  lemma ReplyResumes<E>(w: World<E>, steps: seq<StepId>, listeners: ListenersId, oracle: seq<Report<E>>, i: nat)
    requires |oracle| == |steps| && RunningStep(w, steps, listeners, i)
    ensures Consistent(w) && Enabled(w, Reply(i, oracle[i]))
    ensures oracle[i].Pass? ==> Next(w, Reply(i, oracle[i])) == DoEvaluate(w.(handles := w.handles[i := Consumed]))
    ensures oracle[i].Fail? ==>
              Next(w, Reply(i, oracle[i])) == ChainFailure(w.(handles := w.handles[i := Consumed]), oracle[i].error)
  {
    if oracle[i].Pass? {
      assert Apply(w, ReportSuccess(i)) == CallbackSuccess(w, i);
    } else {
      assert Apply(w, ReportFailure(i, oracle[i].error)) == CallbackFailure(w, i, oracle[i].error);
    }
  }

  /** From the moment step i runs, the chain produces what the reference says for the rest of the steps. */
  lemma {:induction false} DriveFollowsReference<E>(w: World<E>, steps: seq<StepId>, listeners: ListenersId, oracle: seq<Report<E>>, i: nat)
    requires |oracle| == |steps| && RunningStep(w, steps, listeners, i)
    ensures Consistent(w)
    ensures Drive(w, oracle).emitted ==
      if oracle[i].Fail? then [Invalid(listeners, oracle[i].error)] else Expected(steps, listeners, oracle, i + 1)
    ensures Drive(w, oracle).after.chain.isEvaluated
    ensures Drive(w, oracle).after.chain.status == FirstFailure(oracle, i)
    decreases |steps| - i
  {
    assert Awaiting(w, oracle);
    var t1 := Next(w, Reply(i, oracle[i]));
    var t2 := Drive(t1.after, oracle);
    assert Drive(w, oracle) == Transition(t2.after, t1.emitted + t2.emitted);
    var consumed := w.(handles := w.handles[i := Consumed]);
    ReplyResumes(w, steps, listeners, oracle, i);
    if oracle[i].Pass? {
      if i + 1 == |steps| {
        assert t1.emitted == [Valid(listeners)];
        assert !Awaiting(t1.after, oracle);
        assert t2 == Transition(t1.after, []);
      } else {
        assert steps[i + 1..] == [steps[i + 1]] + steps[i + 2..];
        assert RunningStep(t1.after, steps, listeners, i + 1);
        DriveFollowsReference(t1.after, steps, listeners, oracle, i + 1);
      }
    } else {
      assert !Awaiting(t1.after, oracle);
      assert t2 == Transition(t1.after, []);
    }
  }

  /** The world `evaluate` hands to doEvaluate on a freshly built chain of `steps`. */
  function Started<E>(steps: seq<StepId>, listeners: ListenersId): World<E> {
    World(Chain(steps, false, Pass, Some(listeners)), [])
  }

  /** evaluate on a freshly built chain of `steps` binds the callbacks and runs doEvaluate on that queue. */
  lemma {:induction false} StartOnBuiltChain<E>(steps: seq<StepId>, listeners: ListenersId)
    ensures Appended(BuildChain<E>(), steps) == World(Chain(steps, false, Pass, None), [])
    ensures Next(Appended(BuildChain<E>(), steps), Start(listeners)) ==
              DoEvaluate(Started<E>(steps, listeners))
  {
    var w := Appended(BuildChain<E>(), steps);
    assert [] + steps == steps;
    assert w == World(Chain(steps, false, Pass, None), []);
    assert Apply(w, Start(listeners)) == Evaluate(w, listeners);
  }

  /** With no steps, doEvaluate calls onValid at once and no handle is left waiting. */
  lemma {:induction false} StartEmptyFollowsReference<E>(listeners: ListenersId, oracle: seq<Report<E>>)
    requires |oracle| == 0
    ensures DoEvaluate(Started<E>([], listeners)).emitted == [Valid(listeners)]
    ensures DoEvaluate(Started<E>([], listeners)).after.chain.isEvaluated
    ensures DoEvaluate(Started<E>([], listeners)).after.chain.status == Pass
    ensures var t0 := DoEvaluate(Started<E>([], listeners));
              Drive(t0.after, oracle) == Transition(t0.after, [])
  {
    var t0 := DoEvaluate(Started<E>([], listeners));
    assert t0.after.handles == [];
    assert !Awaiting(t0.after, oracle);
  }

  /** With steps, doEvaluate invokes the first one under handle 0 and waits for it. */
  lemma FirstStepStarts<E>(steps: seq<StepId>, listeners: ListenersId)
    requires |steps| > 0
    ensures DoEvaluate(Started<E>(steps, listeners)).emitted == [Invoked(steps[0], 0)]
    ensures RunningStep(DoEvaluate(Started<E>(steps, listeners)).after, steps, listeners, 0)
  {
    var t0 := DoEvaluate(Started<E>(steps, listeners));
    assert t0.after == World(Chain(steps[1..], false, Pass, Some(listeners)), [Armed]);
  }

  /** With steps, doEvaluate starts the first one under handle 0 and the rest follows the reference. */
  lemma {:induction false} StartNonEmptyFollowsReference<E>(steps: seq<StepId>, listeners: ListenersId, oracle: seq<Report<E>>)
    requires |oracle| == |steps| > 0
    ensures var t0 := DoEvaluate(Started<E>(steps, listeners));
      && t0.emitted + Drive(t0.after, oracle).emitted == Expected(steps, listeners, oracle, 0)
      && Drive(t0.after, oracle).after.chain.isEvaluated
      && Drive(t0.after, oracle).after.chain.status == FirstFailure(oracle, 0)
  {
    var t0 := DoEvaluate(Started<E>(steps, listeners));
    FirstStepStarts<E>(steps, listeners);
    DriveFollowsReference(t0.after, steps, listeners, oracle, 0);
    assert Expected(steps, listeners, oracle, 0) == [Invoked(steps[0], 0)] +
      (if oracle[0].Fail? then [Invalid(listeners, oracle[0].error)] else Expected(steps, listeners, oracle, 1));
  }

  /**
    Build a chain of `steps`, evaluate it once, and let each step report its oracle outcome
    (synchronously or later): the log is exactly the reference log and the chain ends
    evaluated with the first failure recorded, or successful when there is none.
   */
  lemma {:induction false} EvaluationFollowsReference<E>(steps: seq<StepId>, listeners: ListenersId, oracle: seq<Report<E>>)
    requires |oracle| == |steps|
    ensures Evaluation(steps, listeners, oracle).emitted == Expected(steps, listeners, oracle, 0)
    ensures Evaluation(steps, listeners, oracle).after.chain.isEvaluated
    ensures Evaluation(steps, listeners, oracle).after.chain.status == FirstFailure(oracle, 0)
  {
    StartOnBuiltChain<E>(steps, listeners);
    var t0 := DoEvaluate(Started<E>(steps, listeners));
    var t1 := Drive(t0.after, oracle);
    assert Evaluation(steps, listeners, oracle) == Transition(t1.after, t0.emitted + t1.emitted);
    if |steps| == 0 {
      StartEmptyFollowsReference(listeners, oracle);
    } else {
      StartNonEmptyFollowsReference(steps, listeners, oracle);
    }
  }

  /** If every step reports success, each runs once in append order and onValid is called once, after the last. */
  lemma AllPassCallsOnValidOnce<E>(steps: seq<StepId>, listeners: ListenersId, oracle: seq<Report<E>>)
    requires |oracle| == |steps|
    requires forall i :: 0 <= i < |oracle| ==> oracle[i].Pass?
    ensures Evaluation(steps, listeners, oracle).emitted == Invocations(steps, 0, |steps|) + [Valid(listeners)]
    ensures Evaluation(steps, listeners, oracle).after.chain.isEvaluated
    ensures Evaluation(steps, listeners, oracle).after.chain.IsSuccessful()
    ensures forall j :: 0 <= j < |Evaluation(steps, listeners, oracle).emitted| ==>
              !Evaluation(steps, listeners, oracle).emitted[j].Invalid?
  {
    EvaluationFollowsReference(steps, listeners, oracle);
    ExpectedAllPass(steps, listeners, oracle, 0);
  }

  /**
    If step k is the first to report failure(e), steps 0..k run in order, steps after k
    never run, onInvalid is called once with e, and onValid is never called.
   */
  lemma FirstFailureStopsChain<E>(steps: seq<StepId>, listeners: ListenersId, oracle: seq<Report<E>>, k: nat)
    requires |oracle| == |steps| && k < |steps| && oracle[k].Fail?
    requires forall j :: 0 <= j < k ==> oracle[j].Pass?
    ensures Evaluation(steps, listeners, oracle).emitted ==
              Invocations(steps, 0, k + 1) + [Invalid(listeners, oracle[k].error)]
    ensures Evaluation(steps, listeners, oracle).after.chain.isEvaluated
    ensures Evaluation(steps, listeners, oracle).after.chain.status == oracle[k]
    ensures forall j :: 0 <= j < |Evaluation(steps, listeners, oracle).emitted| ==>
              !Evaluation(steps, listeners, oracle).emitted[j].Valid?
  {
    EvaluationFollowsReference(steps, listeners, oracle);
    ExpectedFirstFailure(steps, listeners, oracle, 0, k);
  }

  /** A chain with no steps is evaluated synchronously inside `evaluate`, which calls onValid. */
  lemma EmptyChainEvaluatesSynchronously<E>(listeners: ListenersId)
    ensures Apply(BuildChain<E>(), Start(listeners)).Ok?
    ensures Apply(BuildChain<E>(), Start(listeners)).value.emitted == [Valid(listeners)]
    ensures Apply(BuildChain<E>(), Start(listeners)).value.after.chain.isEvaluated
  {
  }

  /** Running `a` then `b` is running `a + b`: worlds chain and logs concatenate. */
  lemma {:induction false} RunConcat<E>(w: World<E>, a: seq<Event<E>>, b: seq<Event<E>>)
    requires Consistent(w) && Feasible(w, a) && Feasible(Run(w, a).after, b)
    ensures Feasible(w, a + b)
    ensures Run(w, a + b).after == Run(Run(w, a).after, b).after
    ensures Run(w, a + b).emitted == Run(w, a).emitted + Run(Run(w, a).after, b).emitted
    decreases |a|
  {
    if |a| == 0 {
      assert a + b == b;
    } else {
      var t1 := Next(w, a[0]);
      var rest := Run(t1.after, a[1..]);
      assert (a + b)[0] == a[0];
      assert (a + b)[1..] == a[1..] + b;
      RunConcat(t1.after, a[1..], b);
      var restb := Run(t1.after, a[1..] + b);
      assert Feasible(w, a + b);
      assert Run(w, a + b) == Transition(restb.after, t1.emitted + restb.emitted);
      assert Run(w, a) == Transition(rest.after, t1.emitted + rest.emitted);
      Associative(t1.emitted, rest.emitted, Run(rest.after, b).emitted);
    }
  }

  /** A history that starts with a rejected call is the raised misuse followed by the rest of the history. */
  lemma {:induction false} RejectedFirst<E>(w: World<E>, ev: Event<E>, post: seq<Event<E>>)
    requires Consistent(w) && Enabled(w, ev) && Apply(w, ev).Err? && Feasible(w, post)
    ensures Feasible(w, [ev] + post)
    ensures Run(w, [ev] + post) == Transition(Run(w, post).after, [Raised(Apply(w, ev).misuse)] + Run(w, post).emitted)
  {
    var evs := [ev] + post;
    assert evs[0] == ev && evs[1..] == post;
    assert Next(w, ev) == Transition(w, [Raised(Apply(w, ev).misuse)]);
  }

  /**
    A call that raises (evaluate on an evaluated chain, or a second completion on a
    handle) is invisible in any history: dropping it leaves the final chain, every handle
    and every other effect as they were, and all it contributes is the raised misuse.
   */
  lemma {:induction false} RejectedCallLeavesHistoryUnchanged<E>(w: World<E>, pre: seq<Event<E>>, ev: Event<E>, post: seq<Event<E>>)
    requires Consistent(w) && Feasible(w, pre)
    requires Enabled(Run(w, pre).after, ev) && Apply(Run(w, pre).after, ev).Err?
    requires Feasible(Run(w, pre).after, post)
    ensures Feasible(w, pre + [ev] + post) && Feasible(w, pre + post)
    ensures Run(w, pre + [ev] + post).after == Run(w, pre + post).after
    ensures Run(w, pre + [ev] + post).emitted ==
              Run(w, pre).emitted + [Raised(Apply(Run(w, pre).after, ev).misuse)] + Run(Run(w, pre).after, post).emitted
    ensures Run(w, pre + post).emitted == Run(w, pre).emitted + Run(Run(w, pre).after, post).emitted
  {
    var mid := Run(w, pre).after;
    RejectedInside(w, pre, ev, post);
    Associative(pre, [ev], post);
    Associative(Run(w, pre).emitted, [Raised(Apply(mid, ev).misuse)], Run(mid, post).emitted);
    RunConcat(w, pre, post);
  }

  /** Concatenation is associative; stated once so that the history proofs need not re-derive it. */
  lemma Associative<T>(a: seq<T>, b: seq<T>, c: seq<T>)
    ensures a + b + c == a + (b + c)
  {
  }

  /** The history with the rejected call in it: the misuse sits between the two halves, which run as they would alone. */
  lemma {:induction false} RejectedInside<E>(w: World<E>, pre: seq<Event<E>>, ev: Event<E>, post: seq<Event<E>>)
    requires Consistent(w) && Feasible(w, pre)
    requires Enabled(Run(w, pre).after, ev) && Apply(Run(w, pre).after, ev).Err?
    requires Feasible(Run(w, pre).after, post)
    ensures Feasible(w, pre + ([ev] + post))
    ensures Run(w, pre + ([ev] + post)).after == Run(Run(w, pre).after, post).after
    ensures Run(w, pre + ([ev] + post)).emitted ==
              Run(w, pre).emitted + ([Raised(Apply(Run(w, pre).after, ev).misuse)] + Run(Run(w, pre).after, post).emitted)
  {
    RejectedFirst(Run(w, pre).after, ev, post);
    RunConcat(w, pre, [ev] + post);
  }

  /**
    Once a completion on handle h was accepted, every later completion on h, of any kind
    and after any history of calls, raises CallbackReused.
   */
  lemma CallbackAcceptsOnlyOnce<E>(w: World<E>, first: Event<E>, evs: seq<Event<E>>, second: Event<E>)
    requires Consistent(w) && first.IsReport() && Enabled(w, first) && Apply(w, first).Ok?
    requires Feasible(Apply(w, first).value.after, evs)
    requires second.IsReport() && second.handle == first.handle
    ensures Enabled(Run(Apply(w, first).value.after, evs).after, second)
    ensures Apply(Run(Apply(w, first).value.after, evs).after, second) == Err(CallbackReused)
  {
  }

  /** check(error) { holds } is, as an event, exactly success() when holds and exactly failure(error) otherwise. */
  lemma CheckIsSuccessOrFailure<E>(w: World<E>, h: HandleId, error: E, holds: bool)
    requires Consistent(w) && h < |w.handles|
    ensures Next(w, ReportCheck(h, error, holds)) ==
              Next(w, if holds then ReportSuccess(h) else ReportFailure(h, error))
  {
  }

  /**
    After an evaluation has finished, `evaluate` raises AlreadyEvaluated, whatever the
    outcome was and whatever was called since.
   */
  lemma SecondEvaluateRaises<E>(steps: seq<StepId>, listeners: ListenersId, oracle: seq<Report<E>>,
                                evs: seq<Event<E>>, again: ListenersId)
    requires |oracle| == |steps|
    requires Feasible(Evaluation(steps, listeners, oracle).after, evs)
    ensures Apply(Run(Evaluation(steps, listeners, oracle).after, evs).after, Start(again)) == Err(AlreadyEvaluated)
  {
    EvaluationFollowsReference(steps, listeners, oracle);
  }

  /**
    A step only ever starts in response to `evaluate` or to an accepted completion, and it
    is always the front of the queue, invoked under a handle that did not exist before.
   */
  lemma StepsStartOnlyOnResume<E>(w: World<E>, ev: Event<E>, j: nat)
    requires Consistent(w) && Enabled(w, ev)
    requires j < |Next(w, ev).emitted| && Next(w, ev).emitted[j].Invoked?
    ensures ev.Start? || (ev.IsReport() && w.handles[ev.handle] == Armed)
    ensures |w.chain.pending| > 0
    ensures Next(w, ev).emitted == [Invoked(w.chain.pending[0], |w.handles|)]
    ensures Next(w, ev).after.chain.pending == w.chain.pending[1..]
  {
  }

  /**
    The guard of `evaluate` is only isEvaluated: calling it again while the first step is
    still pending is accepted, rebinds the callbacks and starts the next step at once, and
    the stray first handle can later drive the terminal callback a second time.
   */
  lemma ReevaluateWhileStepPending()
    ensures Feasible(Appended(BuildChain<string>(), [1, 2]), [Start(0), Start(1), ReportSuccess(1), ReportSuccess(0)])
    ensures Run(Appended(BuildChain<string>(), [1, 2]), [Start(0), Start(1), ReportSuccess(1), ReportSuccess(0)]).emitted
              == [Invoked(1, 0), Invoked(2, 1), Valid(1), Valid(1)]
  {
  }

  /**
    A step that reports success twice: the second report raises CallbackReused, and the
    misuse is charged to that report event; the `evaluate` call itself is accepted.
   */
  lemma NestedMisuseChargedToReport(step: StepId)
    ensures Apply(Appended(BuildChain<string>(), [step]), Start(0)).Ok?
    ensures Run(Appended(BuildChain<string>(), [step]), [Start(0), ReportSuccess(0), ReportSuccess(0)]).emitted ==
              [Invoked(step, 0), Valid(0), Raised(CallbackReused)]
  {
  }

  /**
    The failing scenario of the library's own tests: five steps, the first a passing
    check, the fourth a failing check with its error (there "invalid blah"). The fifth
    step never runs and onInvalid receives that error.
   */
  lemma FailingChainScenario(s: seq<StepId>, first: string, fourth: string)
    requires |s| == 5
    ensures
      var oracle := [Decide(first, true), Pass, Pass, Decide(fourth, false), Pass];
      Evaluation(s, 0, oracle).emitted ==
        [Invoked(s[0], 0), Invoked(s[1], 1), Invoked(s[2], 2), Invoked(s[3], 3), Invalid(0, fourth)]
  {
    var oracle := [Decide(first, true), Pass, Pass, Decide(fourth, false), Pass];
    FirstFailureStopsChain(s, 0, oracle, 3);
    FiveInvocations<string>(s);
  }

  /**
    The passing scenario of the library's own tests: the same five steps with the fourth
    check holding, so the last step runs and onValid is called once, after it.
   */
  lemma PassingChainScenario(s: seq<StepId>, first: string, fourth: string)
    requires |s| == 5
    ensures
      var oracle := [Decide(first, true), Pass, Pass, Decide(fourth, true), Pass];
      Evaluation(s, 0, oracle).emitted ==
        [Invoked(s[0], 0), Invoked(s[1], 1), Invoked(s[2], 2), Invoked(s[3], 3), Invoked(s[4], 4), Valid(0)]
  {
    var oracle := [Decide(first, true), Pass, Pass, Decide(fourth, true), Pass];
    AllPassCallsOnValidOnce(s, 0, oracle);
    FiveInvocations<string>(s);
  }

  /** The invocation logs of the five-step scenarios, spelled out. */
  lemma FiveInvocations<E>(s: seq<StepId>)
    requires |s| == 5
    ensures Invocations<E>(s, 0, 4) == [Invoked(s[0], 0), Invoked(s[1], 1), Invoked(s[2], 2), Invoked(s[3], 3)]
    ensures Invocations<E>(s, 0, 5) == [Invoked(s[0], 0), Invoked(s[1], 1), Invoked(s[2], 2), Invoked(s[3], 3), Invoked(s[4], 4)]
  {
    var four := Invocations<E>(s, 0, 4);
    var five := Invocations<E>(s, 0, 5);
    assert |four| == 4 && four[0] == Invoked(s[0], 0) && four[1] == Invoked(s[1], 1);
    assert four[2] == Invoked(s[2], 2) && four[3] == Invoked(s[3], 3);
    assert |five| == 5 && five[0] == Invoked(s[0], 0) && five[1] == Invoked(s[1], 1);
    assert five[2] == Invoked(s[2], 2) && five[3] == Invoked(s[3], 3) && five[4] == Invoked(s[4], 4);
  }
}

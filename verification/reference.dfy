/**
  What one evaluation of a chain should produce, written directly from the outcomes the
  steps report, without any queue, flag or handle: steps run in order, each one only after
  all before it passed, and the first failure ends the run.
 */
module Reference {
  import opened Outcomes
  import opened Validation

  /** `Invoked(steps[i], i)` for every i in [lo, hi), in order. */
  function Invocations<E>(steps: seq<StepId>, lo: nat, hi: nat): (r: seq<Effect<E>>)
    requires lo <= hi <= |steps|
    ensures |r| == hi - lo
    ensures forall j :: 0 <= j < |r| ==> r[j] == Invoked(steps[lo + j], lo + j)
    decreases hi - lo
  {
    if lo == hi then [] else [Invoked(steps[lo], lo)] + Invocations(steps, lo + 1, hi)
  }

  /** The log from step i on, every step before i having passed; `oracle[i]` is what step i reports. */
  function Expected<E>(steps: seq<StepId>, listeners: ListenersId, oracle: seq<Report<E>>, i: nat): seq<Effect<E>>
    requires i <= |steps| == |oracle|
    decreases |steps| - i
  {
    if i == |steps| then [Valid(listeners)]
    else
      [Invoked(steps[i], i)] +
      (if oracle[i].Fail? then [Invalid(listeners, oracle[i].error)] else Expected(steps, listeners, oracle, i + 1))
  }

  /** The first failure reported at or after i, or a pass when there is none. */
  function FirstFailure<E>(oracle: seq<Report<E>>, i: nat): Report<E>
    requires i <= |oracle|
    decreases |oracle| - i
  {
    if i == |oracle| then Pass
    else if oracle[i].Fail? then oracle[i]
    else FirstFailure(oracle, i + 1)
  }

  /** When every step passes, each one runs in order and onValid is the single last effect. */
  lemma {:induction false} ExpectedAllPass<E>(steps: seq<StepId>, listeners: ListenersId, oracle: seq<Report<E>>, i: nat)
    requires i <= |steps| == |oracle|
    requires forall j :: i <= j < |oracle| ==> oracle[j].Pass?
    ensures Expected(steps, listeners, oracle, i) == Invocations(steps, i, |steps|) + [Valid(listeners)]
    ensures FirstFailure(oracle, i) == Pass
    decreases |steps| - i
  {
    var stop: seq<Effect<E>> := [Valid(listeners)];
    if i < |steps| {
      ExpectedAllPass(steps, listeners, oracle, i + 1);
      calc {
        Expected(steps, listeners, oracle, i);
        [Invoked(steps[i], i)] + Expected(steps, listeners, oracle, i + 1);
        [Invoked(steps[i], i)] + (Invocations(steps, i + 1, |steps|) + stop);
        ([Invoked(steps[i], i)] + Invocations(steps, i + 1, |steps|)) + stop;
        Invocations(steps, i, |steps|) + stop;
      }
    }
  }

  /** When step k is the first to fail, exactly steps i..k run and onInvalid gets step k's error. */
  lemma {:induction false} ExpectedFirstFailure<E>(steps: seq<StepId>, listeners: ListenersId, oracle: seq<Report<E>>, i: nat, k: nat)
    requires i <= k < |steps| == |oracle|
    requires oracle[k].Fail?
    requires forall j :: i <= j < k ==> oracle[j].Pass?
    ensures Expected(steps, listeners, oracle, i) == Invocations(steps, i, k + 1) + [Invalid(listeners, oracle[k].error)]
    ensures FirstFailure(oracle, i) == oracle[k]
    decreases k - i
  {
    var stop: seq<Effect<E>> := [Invalid(listeners, oracle[k].error)];
    if i < k {
      ExpectedFirstFailure(steps, listeners, oracle, i + 1, k);
      calc {
        Expected(steps, listeners, oracle, i);
        [Invoked(steps[i], i)] + Expected(steps, listeners, oracle, i + 1);
        [Invoked(steps[i], i)] + (Invocations(steps, i + 1, k + 1) + stop);
        ([Invoked(steps[i], i)] + Invocations(steps, i + 1, k + 1)) + stop;
        Invocations(steps, i, k + 1) + stop;
      }
    } else {
      assert Invocations<E>(steps, k, k + 1) == [Invoked(steps[k], k)];
    }
  }
}

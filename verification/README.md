# validationk: the sequential validation chain, in Dafny

A model of `Validation<E>` and `ValidationCallback<E>` from validationk. A caller
builds a chain by appending validator steps with `validate`, then calls
`evaluate(onInvalid, onValid)`. The chain pops the front step and invokes it with a
fresh single-use callback. The step reports `success()`, `failure(error)` or
`check(error) { predicate }`, synchronously or later. Each report resumes the chain.
A success starts the next step, or calls `onValid` when none is left. A failure calls
`onInvalid(error)` at once and abandons the remaining steps.

The model is functional:

- `outcomes.dfy` (module `Outcomes`): the two misuse errors, a `Result` for calls
  that may raise, and `Report` (`Pass` | `Fail(e)`), which replaces the pair
  `isSuccessful` / `error: Any?`.
- `callback.dfy` (module `Callback`): the handle's `Armed` / `Consumed` states
  (`didCallback`), `checkCallback`, and the if/else inside `check`.
- `validation.dfy` (module `Validation`): the chain record and the world it lives in,
  meaning the chain plus the state of every handle it created. `buildChain` and
  `validate` (with `Appended`, a builder chain of `validate` calls) return a new world.
  `doEvaluate`, the chain's internal `failure`, `evaluate`, and the callback's
  `success`, `failure` and `check` return a new world plus the effects produced:
  a step invoked under handle n, `onValid`, or `onInvalid(e)`. The chain's internal
  `success()` only calls `doEvaluate`, so it has no function of its own: the callback's
  `success` resumes through `DoEvaluate` directly.
- `runs.dfy` (module `Runs`): the public calls as events, `Apply` for one call,
  and `Run` for a whole history of calls. A step that completes later is an event
  that arrives later. `Drive` is a well-behaved environment: the step invoked under
  handle n reports `oracle[n]` once. `Evaluation` is build, append, evaluate, then
  drive.
- `reference.dfy` (module `Reference`): the expected log, defined directly from the
  step outcomes with no queue, flag or handle.
- `properties.dfy` (module `Properties`): the theorems. They cover step order, the
  first-failure short-circuit, the terminal outcome, the misuse errors, and the two
  scenarios of the library's tests.

The KDoc of `evaluate` (`validation/src/main/java/com/zhuinden/validationk/Validation.kt:119`) says it can only be called once. The guard
under it (`validation/src/main/java/com/zhuinden/validationk/Validation.kt:122`) tests only `isEvaluated`, and the model follows the guard. So a
second `evaluate` while a step is still pending is accepted: it rebinds the callbacks
and pops another step. The stray first handle can later make a terminal callback fire
a second time. `Properties.ReevaluateWhileStepPending` shows this on a concrete
history. Appending after `evaluate` is not guarded either, and the model does not
guard it.

## Model

| member | source | states |
|---|---|---|
| Callback.CheckCallback | validation/src/main/java/com/zhuinden/validationk/Validation.kt:41-46 | the first completion of a handle is accepted and consumes it; any completion on a consumed handle raises CallbackReused |
| Callback.Decide | validation/src/main/java/com/zhuinden/validationk/Validation.kt:32-39 | check's decision is a pass exactly when the predicate holds, otherwise a failure carrying the given error |
| Validation.BuildChain | validation/src/main/java/com/zhuinden/validationk/Validation.kt:68-88 | a new chain has no pending steps, is not evaluated, is successful and has no callbacks bound |
| Validation.Validate | validation/src/main/java/com/zhuinden/validationk/Validation.kt:77-79 | validate appends the step at the back of the queue and changes nothing else |
| Validation.Appended | validation/src/main/java/com/zhuinden/validationk/Validation.kt:71-79 | a builder chain of validate calls queues the steps in the order they were added |
| Validation.Terminal | validation/src/main/java/com/zhuinden/validationk/Validation.kt:103-108 | the terminal callback is onValid exactly when the chain is successful, else onInvalid with the recorded error, on the bound callbacks |
| Validation.DoEvaluate | validation/src/main/java/com/zhuinden/validationk/Validation.kt:100-114 | with nothing pending or a failure recorded, it sets isEvaluated and calls one terminal callback; otherwise it removes only the front step and invokes it under a new armed handle, flags unchanged |
| Validation.ChainFailure | validation/src/main/java/com/zhuinden/validationk/Validation.kt:94-98 | a failure records its error and finishes at once, whatever is pending; onInvalid receives that same error |
| Validation.Evaluate | validation/src/main/java/com/zhuinden/validationk/Validation.kt:116-129 | raises AlreadyEvaluated exactly when isEvaluated is set; otherwise binds the callbacks, and an empty chain is evaluated synchronously with onValid |
| Validation.CallbackSuccess | validation/src/main/java/com/zhuinden/validationk/Validation.kt:48-54 | raises CallbackReused exactly when the handle is consumed; otherwise consumes it and resumes the chain, which starts the next step or finishes |
| Validation.CallbackFailure | validation/src/main/java/com/zhuinden/validationk/Validation.kt:56-62 | raises CallbackReused exactly when the handle is consumed; otherwise consumes it and the chain finishes with onInvalid(error) |
| Validation.CallbackCheck | validation/src/main/java/com/zhuinden/validationk/Validation.kt:26-39 | check is exactly success() when the predicate holds and exactly failure(error) when it does not |
| Runs.Apply | validation/src/main/java/com/zhuinden/validationk/Validation.kt:77-129 | a call raises only on evaluate of an evaluated chain or on a consumed handle; flags only move one way; isEvaluated is set whenever a terminal callback runs |
| Runs.Run | validation/src/main/java/com/zhuinden/validationk/Validation.kt:81-98 | over any history of calls, isEvaluated never reverts, isSuccessful never returns to true, and consumed handles stay consumed |
| Properties.EvaluationFollowsReference | validation/src/main/java/com/zhuinden/validationk/Validation.kt:100-114 | a build-evaluate-report run produces exactly the reference log and ends evaluated with the first failure, or successful |
| Properties.AllPassCallsOnValidOnce | validation/src/main/java/com/zhuinden/validationk/Validation.kt:90-104 | when every step passes, all run in append order and onValid is called once, last; onInvalid is never called |
| Properties.FirstFailureStopsChain | validation/src/main/java/com/zhuinden/validationk/Validation.kt:94-109 | when step k is the first to fail with e, exactly steps 0..k run, onInvalid(e) is called once and onValid never |
| Properties.EmptyChainEvaluatesSynchronously | validation/src/main/java/com/zhuinden/validationk/Validation.kt:121-128 | evaluate on an empty chain is accepted, sets isEvaluated and calls onValid within the same call |
| Properties.RejectedCallLeavesHistoryUnchanged | validation/src/main/java/com/zhuinden/validationk/Validation.kt:41-46 | a call that raises, either a reused callback (`checkCallback`, lines 42-43) or a second evaluate (lines 122-123), can be deleted from any feasible history: the rest stays feasible, the final chain and handles are the same, and every other effect is the same and in the same order |
| Properties.CallbackAcceptsOnlyOnce | validation/src/main/java/com/zhuinden/validationk/Validation.kt:41-46 | after an accepted completion on a handle, any later success, failure or check on it raises, whatever happened in between |
| Properties.CheckIsSuccessOrFailure | validation/src/main/java/com/zhuinden/validationk/Validation.kt:32-39 | the check call, dispatched as a public call, behaves exactly as success() or failure(error) and keeps no state of its own; this is the contract of `Validation.CallbackCheck` carried through `Runs.Apply` |
| Properties.SecondEvaluateRaises | validation/src/main/java/com/zhuinden/validationk/Validation.kt:119-124 | after an evaluation finished, evaluate raises AlreadyEvaluated whatever the outcome and whatever was called since |
| Properties.StepsStartOnlyOnResume | validation/src/main/java/com/zhuinden/validationk/Validation.kt:112-113 | a step starts only on evaluate or on an accepted completion; it is the front of the queue, under a handle that did not exist before |
| Properties.ReevaluateWhileStepPending | validation/src/main/java/com/zhuinden/validationk/Validation.kt:121-127 | a second evaluate while a step is pending is accepted and starts the next step; the stray handle later fires onValid again |
| Properties.FailingChainScenario | validation/src/test/java/com/zhuinden/validationk/ValidationTest.kt:41-60 | in the failing test chain (five steps, the fourth a failing check), for any step ids and error values, steps one to four run in order, the fifth never runs and onInvalid gets the fourth check's error ("invalid blah" in the test) |
| Properties.PassingChainScenario | validation/src/test/java/com/zhuinden/validationk/ValidationTest.kt:80-97 | in the passing test chain, for any step ids and error values, all five steps run in order under handles 0 to 4, then onValid is called once |

## Left out

- Threads, `Thread.sleep` and any race on `didCallback`. A deferred completion is an event that arrives later. Calls are taken to happen one at a time.
- What a step does besides reporting. Steps are opaque ids, and what a step reports comes from an oracle (`Drive`) or from the history given to `Run`. A step that never reports leaves the chain unevaluated, as in the code.
- Exceptions as a JVM mechanism. An IllegalStateException is an `Err` result that carries no new state. When an exception unwinds through nested synchronous frames, the step code after the raising call does not run. The model represents this by the environment not issuing those calls.
- Validation.Evaluate: its contract describes only evaluate's own guard. In the code, a misuse raised by a step that completes synchronously inside `evaluate` (for example a second `success()` on the same callback) unwinds through `doEvaluate` (`validation/src/main/java/com/zhuinden/validationk/Validation.kt:113`) and out of `evaluate` itself (`Validation.kt:127`), which is what the library's tests `validatorSuccessOnlyOnce` and `validatorFailureOnlyOnce` expect. Here that misuse is charged to the inner report alone, and the `Start` call stays `Ok`; `Properties.NestedMisuseChargedToReport` exhibits this on the one-step chain whose step reports success twice.
- Runs.Apply: "a call raises only on evaluate of an evaluated chain or on a consumed handle" is about the call's own guard. Raises that escape from nested synchronous completions are attributed to the inner report event, not to the enclosing `evaluate`, `success` or `failure` call, for the same reason.
- The `Any?` error field and its unchecked cast. A `Report` holds the error with its type.
- The callback closures and the fluent return value. A pair of terminal callbacks is named by the id given to `evaluate`. `validate` and `evaluate` return the chain itself, which is the new world here.
- The `isEvaluated` getter. It is the `isEvaluated` field of the chain record.

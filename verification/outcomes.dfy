/** Value types shared by the model of the validation chain. */
module Outcomes {

  /** The two contract violations the chain raises (an IllegalStateException in Kotlin). */
  datatype Misuse =
    | AlreadyEvaluated   // evaluate on a chain whose isEvaluated flag is already set
    | CallbackReused     // a second success/failure on the same callback

  /** An operation either completes with a value or raises a Misuse before changing anything. */
  datatype Result<+T> = Ok(value: T) | Err(misuse: Misuse)

  /** What one validator step reports through its callback. */
  datatype Report<+E> = Pass | Fail(error: E)

  datatype Option<+T> = None | Some(value: T)
}

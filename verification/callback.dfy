/** The single-use state of a ValidationCallback and the decision made by its `check`. */
module Callback {
  import opened Outcomes

  /** `didCallback == false` is Armed; the first completion moves the handle to Consumed for good. */
  datatype Handle = Armed | Consumed

  /** checkCallback: lets the first completion through and consumes the handle; any later one raises. */
  function CheckCallback(h: Handle): (r: Result<Handle>)
    ensures r.Ok? <==> h == Armed
    ensures r.Ok? ==> r.value == Consumed
    ensures r.Err? ==> r.misuse == CallbackReused
  {
    match h
    case Armed => Ok(Consumed)
    case Consumed => Err(CallbackReused)
  }

  /** The if/else inside `check`: a holding predicate is a pass, otherwise a failure carrying `error`. */
  function Decide<E>(error: E, holds: bool): (r: Report<E>)
    ensures r.Pass? <==> holds
    ensures r.Fail? ==> r.error == error
  {
    if holds then Pass else Fail(error)
  }
}

/** Option and Result, and the exceptions the toolkit raises, as values. */
module Wrappers {

  datatype Option<+T> = None | Some(value: T) {
    function GetOr(default: T): T {
      match this
      case Some(v) => v
      case None => default
    }
  }

  /** Why a node signature was refused (NodeSignatureError). */
  datatype SigFault =
    | NoSignature       // no nodename, no reference and no label
    | Ambiguous         // both a nodename and a reference
    | Blank             // a nodename or reference that is blank after stripping
    | LabelWithoutName  // labels (handles) without a nodename

  /** The Python exceptions the modelled code can raise. */
  datatype Error =
    | ValueError
    | TypeError
    | KeyError
    | IndexError
    | AssertionError
    | StopIteration
    | AttributeError
    | NodeSignatureError(fault: SigFault)
    | Diverges         // a walk ran out of steps: the original loops for ever or recurses until RecursionError

  datatype Result<+T> = Ok(value: T) | Err(error: Error) {
    predicate IsFailure() { Err? }
    function PropagateFailure<U>(): Result<U>
      requires Err?
    {
      Err(error)
    }
    function Extract(): T
      requires Ok?
    {
      value
    }
  }

  /** Success or failure of a statement that returns nothing. */
  datatype Outcome = Pass | Fail(error: Error) {
    predicate IsFailure() { Fail? }
    function PropagateFailure(): Outcome
      requires Fail?
    {
      this
    }
  }
}

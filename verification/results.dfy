/** The result type every parser and planner of the model returns. */
module Results {

  /** The kinds of error the modelled code distinguishes. */
  datatype ErrorKind =
    | InvalidData
    | InvalidArgument
    | UnsupportedLayout
    | UnsupportedPlatform
    | VerificationFailed
    | IdentityMismatch
    | ConfirmationRequired
    | IoFailed
    | InternalError

  datatype Option<+T> = None | Some(value: T)

  /** A value, or the kind of error that stopped the computation. */
  datatype Result<+T> = Ok(value: T) | Err(error: ErrorKind) {
    predicate IsFailure() {
      Err?
    }

    function PropagateFailure<U>(): Result<U>
      requires Err?
    {
      Err(error)
    }

    function Extract(): T
      requires Ok?
    {
      value
    }
  }
}

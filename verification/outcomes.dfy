/** Error codes and failure-compatible result types shared by the servo
    runtime and the dictionary loader. */
module Outcomes {

  /** The negative library error codes the modelled code returns. */
  datatype Error =
    | EFail      // IL_EFAIL
    | EInval     // IL_EINVAL
    | EAccess    // IL_EACCESS
    | ETimedOut  // IL_ETIMEDOUT
    | ENoMem     // IL_ENOMEM
    | EAlready   // IL_EALREADY

  /** A nullable value: `None` is the C null pointer. */
  datatype Option<+T> = None | Some(value: T)

  /** Either a value or one of the error codes above. */
  datatype Result<+T> = Ok(value: T) | Err(error: Error) {

    predicate IsFailure() {
      Err?
    }

    function PropagateFailure<U>(): Result<U>
      requires Err?
    {
      Err(error)
    }

    function Extract(): T
      requires Ok?
    {
      value
    }
  }
}

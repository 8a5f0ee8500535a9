/** Results of the modelled Python calls. `Option` is a value that may be
    absent (a missing settings key, no offending letter); `Result` is a call
    that returns `value` or raises `error`, and `:-` re-raises the error the
    way an uncaught exception leaves the caller. */
module Wrappers {

  datatype Option<+T> = None | Some(value: T) {
    /** `jmod.getvalue(key, default)`: the stored value, else `default`. */
    function GetOr(default: T): T {
      if Some? then value else default
    }
  }

  datatype Result<+R, +E> = Success(value: R) | Failure(error: E) {
    predicate IsFailure() {
      Failure?
    }

    function PropagateFailure<U>(): Result<U, E>
      requires Failure?
    {
      Failure(error)
    }

    function Extract(): R
      requires Success?
    {
      value
    }
  }
}

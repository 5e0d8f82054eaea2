/** Optional values and success/failure results, the model's stand-ins for
    JavaScript's `null`/`undefined` and for rejected promises or thrown errors. */
module Wrappers {

  /** `None` plays the part of `null` or `undefined`. */
  datatype Option<+T> = None | Some(value: T) {

    /** The value, or `default` when absent (JavaScript's `x || default` on an object value). */
    function GetOr(default: T): T {
      match this
      case Some(v) => v
      case None => default
    }
  }

  /** A settled computation: `Ok` for a resolved promise or returned value,
      `Err` for a rejection or a thrown error. */
  datatype Result<+T, +E> = Ok(value: T) | Err(error: E) {

    predicate IsFailure() {
      Err?
    }

    function PropagateFailure<U>(): Result<U, E>
      requires Err?
    {
      Err(error)
    }

    function Extract(): T
      requires Ok?
    {
      value
    }
  }
}

/** Failure-carrying results shared by the model: the library's `Option<T>`
    and the `Result<T, E>` returned by fallible conversions. */
module Wrappers {

  datatype Option<+T> = None | Some(value: T) {
    /** The contained value, or `default` when there is none. */
    function GetOr(default: T): T {
      match this
      case Some(v) => v
      case None => default
    }
  }

  datatype Result<+T, +E> = Ok(value: T) | Err(error: E) {
    predicate IsOk() { Ok? }
    predicate IsErr() { Err? }
  }
}

/** Option and Result, the two failure-carrying wrappers the model uses for
    Rust's `Option<T>` and `Result<T, Error>`. */
module Wrappers {

  datatype Option<+T> = None | Some(value: T) {
    function GetOr(default: T): T {
      match this
      case Some(v) => v
      case None => default
    }
  }

  datatype Result<+R, +E> = Success(value: R) | Failure(error: E)
}

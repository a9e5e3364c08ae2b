/** Failure-compatible wrappers used throughout the model: `Option` stands for
    Ruby's `nil`-or-value, `Result` for a value-or-raised-error outcome. */
module Wrappers {

  datatype Option<+T> = None | Some(value: T) {

    /** The value, or `default` when absent (Ruby's `x || default` for non-boolean `x`). */
    function GetOr(default: T): T {
      match this
      case Some(v) => v
      case None => default
    }
  }

  datatype Result<+T, +E> = Success(value: T) | Failure(error: E)
}

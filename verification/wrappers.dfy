/** Option and Result values used throughout the model: `Option` stands for a Go
    pointer or interface that may be nil, `Result` for a call that may panic. */
module Wrappers {

  /** `None` plays the role of Go's `nil`. */
  datatype Option<+T> = None | Some(value: T)

  /** Either a value or the reason the computation aborted. */
  datatype Result<+R, +E> = Success(value: R) | Failure(error: E)
}

/** Plain option and result types standing for Go's `(value, error)` return pairs:
    a Go function returns either a value or an error, never a partial value
    alongside an error, which is exactly what `Result` can express. */
module Wrappers {

  /** A value that may be absent; `None` stands for a Go `err != nil`. */
  datatype Option<+T> = None | Some(value: T)

  /** Either a value or an error. */
  datatype Result<+R, +E> = Success(value: R) | Failure(error: E)
}

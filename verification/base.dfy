/** Small shared vocabulary: optional values, results with an error side, and bytes. */
module Base {

  /** A value that may be absent (Go's nil error, a failed parse). */
  datatype Option<+T> = None | Some(value: T)

  /** Either a value or an error, for Go's `(value, err)` returns. */
  datatype Result<+T, +E> = Success(value: T) | Failure(error: E)

  /** One byte of a Go `[]byte`. */
  type byte = x: int | 0 <= x < 256
}

// Small shared vocabulary: optional values, results with an error, and bytes.

module Wrappers {

  /** A value that may be missing (Swift's optional). */
  datatype Option<+T> = None | Some(value: T)

  /** The outcome of an operation that can throw: a value or the error thrown. */
  datatype Result<+R, +E> = Success(value: R) | Failure(error: E)
}

module Bytes {

  /** One octet, as Foundation's `Data` holds it. */
  type Byte = b: int | 0 <= b < 0x100
}

/** The single failure the option-data codec reports, and the result types
    that carry it in place of a thrown exception. */
module Wrappers {

  /** Malformed or truncated wire data, or a value that cannot be encoded. */
  datatype Error = BadDataTypeCast

  /** The value of an operation that may throw BadDataTypeCast. */
  datatype Result<+T> = Success(value: T) | Failure(error: Error)

  /** The outcome of an operation that returns nothing but may throw. */
  datatype Outcome = Pass | Fail(error: Error)
}

/** Error values of the stream registry, in the shape of Go's `error` returns. */
module Errors {

  /** `StreamAlreadyExists` is the registry's own sentinel error. Every other
      error comes from a stream's own Close or from a byte copy; the registry
      passes those on verbatim, so they are opaque here. */
  datatype Error = StreamAlreadyExists | IoError(detail: string)

  /** Go's `(T, error)` pair, of which exactly one half is meaningful. */
  datatype Result<+T> = Ok(value: T) | Err(error: Error)

  /** Go's bare `error` return: nil (`Pass`) or an error. */
  datatype Outcome = Pass | Fail(error: Error)
}

/** Failure-compatible wrappers used by the decoders. */
module Results {

  /** A value that may be absent, as Python's `None` return of a lookup. */
  datatype Option<+T> = None | Some(value: T)

  /**
   * The outcome of a decode. Every exception the decoders can raise
   * (`struct.error` on a short read, `TypeError` when a `None` reaches a
   * string join) becomes the single `Error` outcome.
   */
  datatype Result<+T> = Ok(value: T) | Error {

    predicate IsFailure() {
      Error?
    }

    function PropagateFailure<U>(): Result<U>
      requires Error?
    {
      Error
    }

    function Extract(): T
      requires Ok?
    {
      value
    }
  }
}

/** Failure-compatible wrappers used by the scan loops.

    The Python check has no error handling of its own inside its loops: a
    failed dictionary lookup, list index or integer conversion raises and
    aborts the whole scan. `Result` stands in for that: a `Failure` carries the
    kind of exception that would have been raised.
 */
module Results {

  /** An optional value; `None` models Python's `None`. */
  datatype Option<+T> = None | Some(value: T)

  /** The exceptions the scan loops can raise. */
  datatype ScanError =
    | KeyError    // `d[k]` with `k` not a key of `d`
    | IndexError  // `parts[i]` with `i >= len(parts)`
    | ValueError  // `int(s)` with `s` not an integer literal

  /** Either the value an expression evaluates to, or the exception it raises. */
  datatype Result<+T> = Success(value: T) | Failure(error: ScanError) {

    predicate IsFailure() {
      Failure?
    }

    function PropagateFailure<U>(): Result<U>
      requires Failure?
    {
      Failure(error)
    }

    function Extract(): T
      requires Success?
    {
      value
    }
  }
}

/** Failure-compatible wrappers used for every fallible operation of the model:
    Go's `(value, error)` pairs become `Result`, nil-able pointers become `Option`. */
module Results {

  /** A value that may be absent (a nil pointer, a cache miss). */
  datatype Option<+T> = None | Some(value: T)

  /** The outcome of an operation that returns either a value or an error. */
  datatype Result<+T, +E> = Ok(value: T) | Err(error: E) {

    predicate IsFailure() {
      Err?
    }

    function PropagateFailure<U>(): Result<U, E>
      requires Err?
    {
      Err(error)
    }

    function Extract(): T
      requires Ok?
    {
      value
    }

    /** Re-wraps the error, as Go's `fmt.Errorf("...: %w", err)` does. */
    function MapErr<F>(wrap: E -> F): Result<T, F>
    {
      match this
      case Ok(v) => Ok(v)
      case Err(e) => Err(wrap(e))
    }
  }
}

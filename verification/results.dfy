/** Failure-carrying datatypes shared by the model: an optional value, a value
    or an error (Go's `(T, error)` pair), and a bare pass/fail outcome (Go's
    lone `error` return). */
module Results {

  datatype Option<+T> = None | Some(value: T)

  datatype Result<+T, +E> = Success(value: T) | Failure(error: E)

  datatype Outcome<+E> = Pass | Fail(error: E)
}

/** Optional values, the errors the repository layer can raise, and the
    outcome of an operation that either returns or raises. */
module Outcomes {
  import opened Values

  /** Python's `Optional[...]`: `None` or a present value. */
  datatype Option<+T> = None | Some(value: T)

  /** The exceptions that can leave the core:
      - `KeyError(key)`: a dictionary lookup or deletion on a missing key;
      - `NotFound(id)`: the repository's person-not-found exception;
      - `AssertionFailed`: the defensive `assert` in create. */
  datatype Error =
    | KeyError(key: Value)
    | NotFound(id: Value)
    | AssertionFailed

  /** Either a returned value or a raised error. */
  datatype Outcome<+T> = Ok(value: T) | Raise(error: Error)
}

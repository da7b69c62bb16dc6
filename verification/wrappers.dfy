/** Small failure-carrying datatypes shared by every module of the model.
    Python exceptions become `Err`/`Fail` values; `None` becomes `None`. */
module Wrappers {

  /** A value that may be absent (Python's `None`). */
  datatype Option<+T> = None | Some(value: T)

  /** A computation that either yields a value or raises an error. */
  datatype Result<+T, +E> = Ok(value: T) | Err(error: E)

  /** A check that either passes or raises an error (a Python function returning `None`). */
  datatype Outcome<+E> = Pass | Fail(error: E)
}

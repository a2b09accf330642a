/** Failure-carrying values: an optional value, and a value-or-error outcome
    standing for a call that may throw. */
module Results {

  datatype Option<+T> = None | Some(value: T)

  /** `Ok(v)` is a normal return of `v`; `Err(e)` is a thrown error or an unspecified outcome `e`. */
  datatype Result<+T, +E> = Ok(value: T) | Err(error: E)
}

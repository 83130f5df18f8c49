/** Failure-compatible wrappers shared by every module: JavaScript's `null`/`undefined`
    becomes `None`, and a thrown error or an error reply becomes `Err`. */
module Wrappers {

  datatype Option<T> = None | Some(value: T)

  datatype Result<T, E> = Ok(value: T) | Err(error: E)

  /** The reply of an operation that returns nothing but may throw. */
  datatype Outcome<E> = Pass | Fail(error: E)
}

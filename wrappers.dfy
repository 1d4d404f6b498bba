/** Optional values, results and pass/fail outcomes shared by the whole model. */
module Wrappers {
  datatype Option<T> = None | Some(value: T)

  /** The value an operation returns, or the failure it throws. */
  datatype Result<T, E> = Ok(value: T) | Err(error: E)

  /** The outcome of an operation that returns nothing (a Java `void` method). */
  datatype Outcome<E> = Pass | Fail(error: E)
}

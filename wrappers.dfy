/** Plain wrappers for Java behaviour: a reference that may be null, a call that
    returns a value or throws, and a void call that completes or throws. */
module Wrappers {

  /** A Java reference that may be null. */
  datatype Option<+T> = None | Some(value: T)

  /** A call that returns a value or throws an exception. */
  datatype Result<+R, +E> = Success(value: R) | Failure(error: E)

  /** A `void` call that either completes or throws an exception. */
  datatype Outcome<+E> = Pass | Fail(error: E)
}

/** Option and Result, used for Java's `null` and for the usage errors that the
    engine reports by throwing IllegalArgumentException. */
module Wrappers {

  datatype Option<+T> = None | Some(value: T)

  datatype Result<+R, +E> = Ok(value: R) | Err(error: E)
}

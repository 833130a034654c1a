/** Option and Result, used for the optional `code` child of a `pre` element and
    for the exception raised by the SGID branch as the script is written. */
module Wrappers {

  datatype Option<+T> = None | Some(value: T)

  datatype Result<+T, +E> = Success(value: T) | Failure(error: E)
}

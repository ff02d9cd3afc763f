/** The Option and Result datatypes used throughout the model: a database write either
    raises (None) or yields a result (Some), and parsing a dump either succeeds or
    stops at the first malformed line. */
module Wrappers {

  datatype Option<+T> = None | Some(value: T)

  datatype Result<+R, +E> = Success(value: R) | Failure(error: E)
}

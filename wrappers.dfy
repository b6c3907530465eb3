/** Stock wrapper types: an optional value (Java's nullable reference) and
    a success-or-error result (an Rx stream that either emits or errors). */
module Wrappers {

  datatype Option<+T> = None | Some(value: T)

  datatype Result<+T, +E> = Success(value: T) | Failure(error: E)
}

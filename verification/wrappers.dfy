/** Failure-carrying result types used by the note store. */
module Wrappers {

  /** A value that may be absent (a missing object property, an absent storage key). */
  datatype Option<+T> = None | Some(value: T)

  /** The outcome of a store operation. Every failure of an operation is
      collapsed into one generic error, so `Err` carries no detail. */
  datatype Result<+T> = Ok(value: T) | Err
}

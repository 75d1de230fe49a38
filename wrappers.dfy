/** Failure-carrying values used by the tabulated function model. */
module Wrappers {

  /** An optional value; `None` stands for the NaN that the source returns
      for an undefined function value. */
  datatype Option<+T> = None | Some(value: T)

  /** The one construction failure the source raises (IllegalArgumentException). */
  datatype Error = InvalidArgument

  /** The outcome of a construction that may fail. */
  datatype Result<+T> = Success(value: T) | Failure(error: Error)
}

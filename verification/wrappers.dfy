/** Failure-carrying return values, used in place of the exceptions the
    tallying code lets propagate to its caller. */
module Wrappers {

  /** Either the computed value or the error that aborted the computation. */
  datatype Result<+R, +E> = Success(value: R) | Failure(error: E)
}

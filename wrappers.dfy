/** Failure-carrying results shared by every module of the model. */
module Wrappers {

  /** A value that may be absent: the model of a null pointer or a missing entry. */
  datatype Option<+T> = None | Some(value: T)

  /** The outcome of an operation that may stop with an error (MAGMA_ERROR or an exception). */
  datatype Outcome<+E> = Pass | Fail(error: E)
}

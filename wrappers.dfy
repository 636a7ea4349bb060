/** Failure-carrying results shared by every module of the model.
    `Failure(msg)` stands for a C++ exception (or error log plus early return)
    whose message is `msg`. */
module Wrappers {

  datatype Option<+T> = None | Some(value: T)

  datatype Result<+T> = Success(value: T) | Failure(error: string)

  /** The result of a check that returns nothing on success. */
  datatype Outcome<+E> = Pass | Fail(error: E)
}

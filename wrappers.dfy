/** The stock optional-value datatype, standing in for C#'s null references. */
module Wrappers {
  datatype Option<+T> = None | Some(value: T)

  /** Success, or a failure carrying the exception the source would throw. */
  datatype Outcome<+E> = Pass | Fail(error: E)
}

/** Option and Outcome, the failure-carrying results used by the readers and parsers. */
module Wrappers {

  datatype Option<+T> = None | Some(value: T)

  /** Pass, or Fail with the error the source raises. */
  datatype Outcome<+E> = Pass | Fail(error: E)
}

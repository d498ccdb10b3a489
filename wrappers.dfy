/** Option and Outcome, the failure-carrying values the ledger model uses. */
module Wrappers {

  /** A value that may be absent: an omitted argument, an unreachable peer. */
  datatype Option<+T> = None | Some(value: T)

  /** The result of an operation that returns nothing on success and may fail with an error. */
  datatype Outcome<+E> = Pass | Fail(error: E)
}

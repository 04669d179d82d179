/** Optional values and pass/fail outcomes shared by the other modules. */
module Wrappers {

  /** Python's `None` or a present value. */
  datatype Option<+T> = None | Some(value: T)

  /** A check that either passes or fails with an error (a raised `ValueError`). */
  datatype Outcome<+E> = Pass | Fail(error: E)
}

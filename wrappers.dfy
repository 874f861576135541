/** Failure-compatible values shared by the other modules. */
module Wrappers {

  /** A value that may be missing; `None` stands for a Python exception or a missing key. */
  datatype Option<+T> = None | Some(value: T)
}

/** Failure-carrying results shared by the other modules. */
module Wrappers {

  /** A value that may be missing: `None` stands for the source's raised exception. */
  datatype Option<+T> = None | Some(value: T)
}

/** Wrappers shared by every module of the model. */
module Wrappers {

  /** A value that may be missing: Python's `None` versus a real value. */
  datatype Option<+T> = None | Some(value: T)
}

/** The absent-or-present value that stands for Python's `None`-or-object returns. */
module Wrappers {
  datatype Option<+T> = None | Some(value: T)
}

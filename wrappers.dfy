/** The absent-or-present value that stands for the `T | null` results of the extension. */
module Wrappers {
  datatype Option<+T> = None | Some(value: T)
}

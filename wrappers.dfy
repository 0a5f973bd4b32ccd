/** The absent-or-present value for the program's early returns and caught exceptions. */
module Wrappers {

  datatype Option<+T> = None | Some(value: T)
}

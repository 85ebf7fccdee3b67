/** The optional-value datatype shared by every module: Python's `None`
    or a present value. */
module Wrappers {

  datatype Option<+T> = None | Some(value: T)
}

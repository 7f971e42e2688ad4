/** The usual optional-value datatype, standing for Python's `None` versus a present value. */
module Wrappers {

  datatype Option<+T> = None | Some(value: T)
}

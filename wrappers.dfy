/** The optional value used for a return that cannot be computed (Python's `None`). */
module Wrappers {

  datatype Option<+T> = None | Some(value: T)
}

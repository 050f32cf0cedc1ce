/** Python's `None` sentinel next to a present value. */
module Wrappers {

  datatype Option<+T> = None | Some(value: T)
}

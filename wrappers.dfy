/** The optional result of a parse: Python's `None` or a value. */
module Wrappers {

  datatype Option<+T> = None | Some(value: T)

}

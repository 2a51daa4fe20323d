/** The optional value that the searches return (Python's `None` or a list). */
module Wrappers {
  datatype Option<+T> = None | Some(value: T)
}

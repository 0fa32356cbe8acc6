/** Swift's optionals (`T?`), as a datatype. */
module Wrappers {

  datatype Option<+T> = None | Some(value: T)
}

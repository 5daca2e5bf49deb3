/** The optional result the tree finders return where the source returns `null`. */
module Wrappers {

  datatype Option<+T> = None | Some(value: T)
}

/** Swift's Optional, used for every `T?` of the model. */
module Wrappers {
  datatype Option<+T> = None | Some(value: T)
}

/** The optional value shared by the component models: C's NULL pointer,
    a stopped timer or a missing entry is `None`. */
module Wrappers {
  datatype Option<+T> = None | Some(value: T)
}

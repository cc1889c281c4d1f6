/** The optional value used wherever the combiner may find nothing (Python's `None`). */
module Wrappers {
  datatype Option<T> = None | Some(value: T)
}

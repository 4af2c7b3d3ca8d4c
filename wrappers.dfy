/** The optional value every `next` in the library returns: `None` signals that
    the iteration is exhausted. */
module Wrappers {
  datatype Option<+T> = None | Some(value: T)
}

/** The optional value a dequeue produces. */
module Wrappers {

  datatype Option<T> = None | Some(value: T)
}

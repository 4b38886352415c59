/** The optional value used wherever the source answers with null or default(T). */
module Wrappers {
  datatype Option<T> = None | Some(value: T)
}

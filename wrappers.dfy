/** The optional result that stands for C#'s `bool TryGetValue(key, out value)`. */
module Wrappers {
  datatype Option<T> = None | Some(value: T)
}

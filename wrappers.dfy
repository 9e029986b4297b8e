/** The optional value used across the model (std::optional, a null pointer, a missing key). */
module Wrappers {
  datatype Option<T> = None | Some(value: T)
}

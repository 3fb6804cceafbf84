/** The C API returns NULL for "no pointer"; the model uses an Option instead. */
module Wrappers {
  datatype Option<T> = None | Some(value: T)
}

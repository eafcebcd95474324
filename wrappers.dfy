/** An optional value, for lookups that can come back empty. */
module Wrappers {
  datatype Option<T> = None | Some(value: T)
}

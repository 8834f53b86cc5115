/** Optional values, used for the optional schema gate of a field and for a
    `char*` that may be null. */
module Wrappers {
  datatype Option<+T> = None | Some(value: T)
}

/** Optional values: the script's `null` filter and the absent `.fontTitleSmall` title. */
module Wrappers {
  datatype Option<T> = None | Some(value: T)
}

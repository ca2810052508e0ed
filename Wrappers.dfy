/** Optional values: what a Python call returns when it may also produce nothing
    (a failed fetch, a regex that does not match, an index that is out of range). */
module Wrappers {
  datatype Option<T> = None | Some(value: T)
}

/** Optional values: the `nil` results of Go's address parsers and lookups. */
module Wrappers {

  datatype Option<+T> = None | Some(value: T)
}

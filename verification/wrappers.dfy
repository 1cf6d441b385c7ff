/** Optional values. Ruby's `nil` in the limit fields is modelled as None. */
module Wrappers {

  datatype Option<+T> = None | Some(value: T)
}

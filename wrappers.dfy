/** Optional values, standing in for Go's `(value, ok)` pairs and `error` results (nil = None). */
module Wrappers {

  datatype Option<+T> = None | Some(value: T)

}

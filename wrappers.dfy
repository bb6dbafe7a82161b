/** Optional values, used wherever the Go code returns a value together with an `ok` flag. */
module Wrappers {

  datatype Option<+T> = None | Some(value: T)
}

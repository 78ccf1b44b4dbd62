/** Optional values, used for Go's nillable results (an `error` that may be nil,
    an address list that may be missing, a response that may never be written). */
module Wrappers {

  datatype Option<+T> = None | Some(value: T)
}

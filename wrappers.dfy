/** Optional values: a nullable column, a dictionary lookup that may miss,
    or a computation that may raise. */
module Wrappers {

  datatype Option<+T> = None | Some(value: T)
}

/** Optional values, used where the source's operations can fail or find nothing. */
module Wrappers {

  datatype Option<T> = None | Some(value: T)

}

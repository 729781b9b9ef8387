/** Optional values: a Python value that may be `None`, or a session key that may be absent. */
module Wrappers {

  datatype Option<+T> = None | Some(value: T)
}

/** Optional values, used wherever the bridge may or may not hold something
    (a socket, a configuration entry, a parsed key). */
module Wrappers {

  datatype Option<+T> = None | Some(value: T)
}

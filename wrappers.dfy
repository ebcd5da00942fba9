/** Optional values, used for decoders and for event runs that may get stuck. */
module Wrappers {

  datatype Option<+T> = None | Some(value: T)
}

/** Optional values, used for handles that may be null and for decoders
    that may reject their input. */
module Wrappers {

  datatype Option<+T> = None | Some(value: T)
}

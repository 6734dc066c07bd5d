/** Optional values, standing for the source's nullable fields. */
module Wrappers {

  /** `None` plays the role of `null`. */
  datatype Option<+T> = None | Some(value: T)
}

/** Optional values: the model's stand-in for JavaScript's `undefined`. */
module Wrappers {

  /** `None` plays the role of an absent result or a missing field. */
  datatype Option<+T> = None | Some(value: T)
}

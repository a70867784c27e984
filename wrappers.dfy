/** Optional values: `None` stands for a value the source computes as NaN or
    for a failure the source signals by an exception. */
module Wrappers {
  datatype Option<+T> = None | Some(value: T)
}

/** Optional values, standing in for the null checks of the game scripts. */
module Wrappers {

  /** `None` plays the role of a missing component (a null reference). */
  datatype Option<+T> = None | Some(value: T)
}

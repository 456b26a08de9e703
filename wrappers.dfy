/**
 * Option: an absent dict key, and the IndexError that `weather[0]` raises
 * on an empty `weather` list.
 */
module Wrappers {

  datatype Option<+T> = None | Some(value: T)
}

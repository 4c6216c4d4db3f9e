/** Optional values: a missing database row, an absent father's name, a cell that is not a number. */
module Wrappers {
  datatype Option<+T> = None | Some(value: T)
}

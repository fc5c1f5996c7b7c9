/** The optional value used for timestamps that were never observed and for lookups that may miss. */
module Wrappers {
  datatype Option<+T> = None | Some(value: T)
}

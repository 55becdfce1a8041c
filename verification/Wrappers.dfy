/** What a search may or may not find. */
module Wrappers {
  datatype Option<+T> = None | Some(value: T)
}

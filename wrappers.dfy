/** The optional value returned by the PHP search functions (`false` when nothing is found). */
module Wrappers {
  datatype Option<+T> = None | Some(value: T)
}

/** The optional value used where the page's script returns `null` or leaves a variable unset. */
module Wrappers {

  datatype Option<+T> = None | Some(value: T)
}

/** Optional values: an absent search path, or an input field that did not parse as a number. */
module Wrappers {

  datatype Option<+T> = None | Some(value: T)

}

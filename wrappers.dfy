/** Option type used for lookups that may fail (a missing element, no match). */
module Wrappers {

  datatype Option<+T> = None | Some(value: T)
}

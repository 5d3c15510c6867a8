/** The optional value used for lookups that may find nothing (a dict's get()). */
module Wrappers {

  datatype Option<+T> = None | Some(value: T)
}

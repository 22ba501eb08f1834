/** The optional-value datatype used for host lookups that may come back empty
    (the current admin screen) and for pattern matches that may fail. */
module Wrappers {

  datatype Option<+T> = None | Some(value: T)
}

/** The optional value the classifier returns: None when no navigation happens. */
module Wrappers {

  datatype Option<+T> = None | Some(value: T)
}

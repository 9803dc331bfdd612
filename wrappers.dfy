/** The optional value the model uses for a key that may be missing from a record. */
module Wrappers {

  datatype Option<+T> = None | Some(value: T)

}

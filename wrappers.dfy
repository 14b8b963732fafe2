/** The optional value used for "file could not be opened" and for readers that may reject their input. */
module Wrappers {

  datatype Option<+T> = None | Some(value: T)

}

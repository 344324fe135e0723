/** The optional value used for "no habit found" and "no habit being edited". */
module Wrappers {

  datatype Option<+T> = None | Some(value: T)
}

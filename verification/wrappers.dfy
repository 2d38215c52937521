/** The optional-value datatype used where the program can fail part-way. */
module Wrappers {

  datatype Option<+T> = None | Some(value: T)
}

// The optional value used for "no match" and "missing key" answers.
module Wrappers {

  datatype Option<+T> = None | Some(value: T)
}

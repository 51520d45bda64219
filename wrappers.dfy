/** The optional value that Python code expresses with `None`. */
module Wrappers {

  datatype Option<+T> = None | Some(value: T)
}

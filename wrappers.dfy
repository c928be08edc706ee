/** The optional value the three scripts express with Python's `None`. */
module Wrappers {

  datatype Option<+T> = None | Some(value: T)

}

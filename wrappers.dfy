/** A nullable reference or map is modelled as an optional value. */
module Wrappers {

  datatype Option<+T> = None | Some(value: T)
}

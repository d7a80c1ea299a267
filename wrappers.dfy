/** An optional value: the model of a nullable database column. */
module Wrappers {

  datatype Option<+T> = None | Some(value: T)
}

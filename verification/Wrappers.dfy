/** A value that may be absent: the model's NULL `str`. */
module Wrappers {

  datatype Option<+T> = None | Some(value: T)
}

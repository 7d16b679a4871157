/** A value that may be missing: the model's stand-in for a NULL result or a fatal exit. */
module Wrappers {

  datatype Option<+T> = None | Some(value: T)
}

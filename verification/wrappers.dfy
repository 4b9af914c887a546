/** The Some/None datatype used wherever the firmware returns NULL or leaves a value unset. */
module Wrappers {

  datatype Option<+T> = None | Some(value: T)
}

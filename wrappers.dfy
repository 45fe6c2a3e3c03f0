/** The optional value used for the service's `undefined`-able fields and for
    computations that can fail. */
module Wrappers {
  datatype Option<+T> = None | Some(value: T)
}

/** The optional value used for time bounds, injected I/O faults and dispatch results. */
module Wrappers {

  datatype Option<+T> = None | Some(value: T)
}

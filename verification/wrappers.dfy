/** The optional value used for event codes and scan results. */
module Wrappers {

  datatype Option<+T> = None | Some(value: T)
}

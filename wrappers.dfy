/** The optional value used by the model (a file that may not have been written yet,
    the last event about a translation that may never have been seen). */
module Wrappers {
  datatype Option<+T> = None | Some(value: T)
}

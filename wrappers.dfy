/** Small failure-compatible wrapper used across the model. */
module Wrappers {

  /** A value that may be missing: an absent query parameter, a failed read. */
  datatype Option<+T> = None | Some(value: T)
}

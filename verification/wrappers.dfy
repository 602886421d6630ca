/** Failure-compatible helper datatype shared by every stage of the pipeline. */
module Wrappers {

  /** Rust's `Option`: a value that may be absent. */
  datatype Option<+T> = None | Some(value: T)
}

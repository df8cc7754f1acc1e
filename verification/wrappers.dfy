/** Failure-compatible option type used for the source's null returns and exceptions. */
module Wrappers {

  datatype Option<+T> = None | Some(value: T)
}

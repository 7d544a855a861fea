/** The optional-value datatype used for Go's `error` results, where `nil` means no error. */
module Wrappers {

  datatype Option<+T> = None | Some(value: T)
}

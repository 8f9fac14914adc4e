/** An optional value: stands for Ruby's `nil` where the source tests for it. */
module Wrappers {
  datatype Option<+T> = None | Some(value: T)
}

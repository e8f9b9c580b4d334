/** The value-or-nothing type: Ruby's `nil` returns become `None`. */
module Wrappers {
  datatype Option<+T> = None | Some(value: T)
}

/** The "found / not found" wrapper the extractors use in place of Python's `None`. */
module Wrappers {

  datatype Option<+T> = None | Some(value: T)
}

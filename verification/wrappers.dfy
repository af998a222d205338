/** The optional value shared by the slider and the text helpers: Python's `None`
    or a present value. */
module Wrappers {

  datatype Option<+T> = None | Some(value: T)
}

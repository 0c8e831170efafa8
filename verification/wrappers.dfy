/** The optional-value datatype used for record fields a comment may lack. */
module Wrappers {

  /** A value that may be absent: a JavaScript property that was never set is `None`. */
  datatype Option<+T> = None | Some(value: T)
}

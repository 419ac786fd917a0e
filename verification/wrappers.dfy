/** The optional value used wherever the analyser's Python code returns `None`. */
module Wrappers {

  datatype Option<+T> = None | Some(value: T)
}

/** The optional value used wherever the source yields `null`/`undefined` or `-1` for "nothing". */
module Wrappers {

  datatype Option<+T> = None | Some(value: T)
}

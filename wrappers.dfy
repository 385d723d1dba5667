/** The optional value used wherever the assistant returns None or "no match". */
module Wrappers {

  datatype Option<+T> = None | Some(value: T)
}

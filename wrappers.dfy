/** The usual optional value; `None` stands for the JavaScript `null` the source returns. */
module Wrappers {
  datatype Option<+T> = None | Some(value: T)
}

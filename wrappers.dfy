/** The optional value the server's `safeJoin` returns (`null` in the source is `None`). */
module Wrappers {

  datatype Option<T> = None | Some(value: T)
}

/** The optional value that Python spells `Optional[T]` (an object or `None`). */
module Wrappers {

  datatype Option<+T> = None | Some(value: T)
}

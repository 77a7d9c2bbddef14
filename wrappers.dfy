/** The nullable references of the viewer (`null` or a value), as an explicit option. */
module Wrappers {
  datatype Option<+T> = None | Some(value: T)
}

/** Option, the stand-in for Java's null references. */
module Wrappers {

  datatype Option<+T> = None | Some(value: T)
}

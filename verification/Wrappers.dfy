/** What the source expresses with a null pointer, a false result or an exception. */
module Wrappers {
  datatype Option<+T> = None | Some(value: T)
}

/** A value that may be absent: a null pointer, or a computation that faults. */
module Prelude {
  datatype Option<+T> = None | Some(value: T)
}

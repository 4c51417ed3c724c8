/** Types shared by all modules. */
module Basics {
  datatype Option<T> = None | Some(value: T)

  newtype byte = x: int | 0 <= x < 256
}

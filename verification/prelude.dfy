/** Basic types shared by the other modules: Go's `byte` and an optional value. */
module Prelude {

  /** Go's `byte`: an unsigned 8-bit value. */
  type byte = x: int | 0 <= x < 0x100

  datatype Option<+T> = None | Some(value: T)
}

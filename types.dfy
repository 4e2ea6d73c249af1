/** Machine types and the Option wrapper shared by every module of the model. */
module Types {

  datatype Option<+T> = None | Some(value: T)

  /** A byte, as the Rust `u8`. */
  newtype u8 = x: int | 0 <= x < 0x100

  /** The Rust `u32`, the width of the futex word. */
  newtype u32 = x: int | 0 <= x < 0x1_0000_0000

  type Bytes = seq<u8>
}

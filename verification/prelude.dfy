/** The wrapper types and the bytes the other modules share. */
module Prelude {

  datatype Option<+T> = None | Some(value: T)

  /** `Err` stands for a thrown error; the text is the source's message. */
  datatype Result<+T> = Ok(value: T) | Err(error: string)

  newtype Byte = x: int | 0 <= x < 256 witness 0
}

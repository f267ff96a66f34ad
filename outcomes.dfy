/** Values shared by the client wrapper and the example application:
    Java integer widths, and the two ways an operation can end. */
module Outcomes {

  /** Java `byte`: a signed 8-bit value. */
  newtype byte = x: int | -0x80 <= x < 0x80

  /** Java `int`. */
  newtype int32 = x: int | -0x8000_0000 <= x < 0x8000_0000

  /** Java `long`, the width of the native client handle. */
  newtype int64 = x: int | -0x8000_0000_0000_0000 <= x < 0x8000_0000_0000_0000

  /** An HTTP header multimap, `Map<String, List<String>>`. */
  type Headers = map<string, seq<string>>

  /** What a Java method that may throw does: it returns a value, or it
      throws an exception carrying a message. */
  datatype Result<T> = Ok(value: T) | Err(message: string)

  /** Java `Optional`-like absence; here it stands for a `null` reference. */
  datatype Option<T> = None | Some(value: T)
}

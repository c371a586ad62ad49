/** Values shared by every part of the model. */
module Bytes {

  /** One byte of a file or of a compressed stream. The source keeps bytes in
      `char`; the model treats them as the unsigned values 0..255 and makes
      every signed reinterpretation explicit where the source performs one. */
  newtype byte = x: int | 0 <= x < 256

  datatype Option<T> = None | Some(value: T)

  /** Reinterprets a byte as the signed `char` the source reads it into. */
  function SignedChar(b: byte): (c: int)
    ensures -128 <= c < 128
    ensures c >= 0 <==> b < 128
    ensures c % 256 == b as int
  {
    if b < 128 then b as int else b as int - 256
  }

  /** The `(char)` cast of an integer: keeps the low eight bits. */
  function Truncate(v: int): (b: byte)
    ensures 0 <= v < 256 ==> b as int == v
    ensures (b as int - v) % 256 == 0
  {
    (v % 256) as byte
  }
}

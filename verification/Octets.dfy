/** Unsigned chars. */
module Octets {
  type byte = b: int | 0 <= b < 256

  const NUL: byte := 0x00

  /** The lower-case hexadecimal digit of a value. */
  function HexChar(k: nat): char
    requires k < 16
  {
    if k < 10 then '0' + k as char else 'a' + (k - 10) as char
  }
}

/** Hexadecimal digits as the program writes them. */
module Hex {

  function HexDigit(n: nat): char
    requires n < 16
  {
    "0123456789abcdef"[n]
  }
}

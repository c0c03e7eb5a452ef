/** Control characters that both the terminal and the line editor interpret. */
module Ascii {
  import opened Bytes

  const BELL: byte := 0x07
  const BACKSPACE: byte := 0x08
  const TAB: byte := 0x09
  const NEWLINE: byte := 0x0A
  const RETURN: byte := 0x0D
  const SPACE: byte := 0x20
}

/** Bytes on the wire and in the C buffers, and the control strings the server
    sends.  A byte is always read as an unsigned value, 0..255. */
module Bytes {

  type byte = b: int | 0 <= b < 256

  // Telnet, RFC 854 and RFC 1073
  const IAC: byte := 255
  const DO: byte := 253
  const SB: byte := 250
  const NOP: byte := 241
  const NAWS: byte := 31

  const NUL: byte := 0
  const CTRL_C: byte := 3
  const BS: byte := 8
  const TAB: byte := 9
  const LF: byte := 10
  const CTRL_L: byte := 12
  const CR: byte := 13
  const ESC: byte := 27
  const SPACE: byte := 32
  const QUESTION: byte := 63
  const BRACKET: byte := 91
  const DEL: byte := 127

  /** The bytes of an ASCII string literal. */
  function Ascii(s: string): (r: seq<byte>)
    ensures |r| == |s|
    ensures forall i :: 0 <= i < |s| ==> r[i] == s[i] as int % 256
  {
    seq(|s|, i requires 0 <= i < |s| => s[i] as int % 256)
  }

  const CRLF: seq<byte> := [CR, LF]
  const PROMPT: seq<byte> := Ascii("[debug_shell]#")
  const NEW_PROMPT: seq<byte> := CRLF + PROMPT
  const QUIT: seq<byte> := Ascii("quit")
  const EXIT: seq<byte> := Ascii("exit")

  const MOVE_RIGHT: seq<byte> := [ESC, BRACKET, 'C' as int]
  const MOVE_LEFT: seq<byte> := [ESC, BRACKET, 'D' as int]
  const CLEAR_RIGHT_CHAR: seq<byte> := [ESC, BRACKET, 'K' as int]
  const CLEAR_LEFT_CHAR: seq<byte> := [ESC, BRACKET, '1' as int, 'K' as int]
  const CLEAR_LINE: seq<byte> := [ESC, BRACKET, '2' as int, 'K' as int]
  const CLEAR_TERM: seq<byte> := [ESC, BRACKET, '2' as int, 'J' as int]
  const LOC_START: seq<byte> := [ESC, BRACKET, '0' as int, ';' as int, '0' as int, 'H' as int]
  const INSERT_BLANK: seq<byte> := [ESC, BRACKET, '1' as int, '@' as int]
  const RUB_OUT: seq<byte> := [BS, SPACE, BS]

  const MAX_CMD_LEN: nat := 256
  const MAX_CMD_HISTORY_NUM: nat := 500

  /** A control string sent `n` times. */
  function Repeat(control: seq<byte>, n: nat): seq<byte> {
    if n == 0 then [] else Repeat(control, n - 1) + control
  }
}

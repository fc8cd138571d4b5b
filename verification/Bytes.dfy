/** Bytes, C strings and the character codes that the JSON code compares against. */
module Bytes {
  /** `unsigned char`. */
  type byte = b: int | 0 <= b < 256

  type bytes = seq<byte>

  const TAB: byte := 9
  const NEWLINE: byte := 10
  const RETURN: byte := 13
  const SPACE: byte := 32
  const QUOTE: byte := 34
  const STAR: byte := 42
  const PLUS: byte := 43
  const COMMA: byte := 44
  const MINUS: byte := 45
  const DOT: byte := 46
  const SLASH: byte := 47
  const COLON: byte := 58
  const UPPER_E: byte := 69
  const OPEN_BRACKET: byte := 91
  const BACKSLASH: byte := 92
  const CLOSE_BRACKET: byte := 93
  const LOWER_E: byte := 101
  const LOWER_U: byte := 117
  const OPEN_BRACE: byte := 123
  const CLOSE_BRACE: byte := 125

  const NULL_WORD: bytes := [110, 117, 108, 108]
  const FALSE_WORD: bytes := [102, 97, 108, 115, 101]
  const TRUE_WORD: bytes := [116, 114, 117, 101]

  function Ascii(s: bytes): string {
    seq(|s|, i requires 0 <= i < |s| => s[i] as char)
  }

  /** The codes are those of ASCII. */
  lemma Codes()
    ensures Ascii([TAB, NEWLINE, RETURN, SPACE, QUOTE, STAR, PLUS, COMMA]) == "\t\n\r \"*+,"
    ensures Ascii([MINUS, DOT, SLASH, COLON, UPPER_E, OPEN_BRACKET, BACKSLASH, CLOSE_BRACKET]) == "-./:E[\\]"
    ensures Ascii([LOWER_E, LOWER_U, OPEN_BRACE, CLOSE_BRACE]) == "eu{}"
    ensures forall c: byte :: IsDigit(c) <==> '0' <= c as char <= '9'
    ensures Ascii(NULL_WORD) == "null" && Ascii(FALSE_WORD) == "false" && Ascii(TRUE_WORD) == "true"
  {
  }

  /** The text of a C string: no byte of it is the terminator. */
  ghost predicate NulFree(s: bytes) {
    forall i :: 0 <= i < |s| ==> s[i] != 0
  }

  /** What `*p` reads when `s` is the rest of the C string at `p`: past the last byte it is the terminator. */
  function Head(s: bytes): byte {
    if s == [] then 0 else s[0]
  }

  lemma Assoc(a: bytes, b: bytes, c: bytes)
    ensures a + b + c == a + (b + c)
  {
  }

  predicate IsDigit(c: byte) {
    48 <= c <= 57
  }
}

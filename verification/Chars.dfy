/** Characters that the texts of the system are made of. */
module Chars {
  const NEWLINE: nat := 10
  const QUOTE: nat := 34
  const HASH: nat := 35
  const PERCENT: nat := 37
  const COMMA: nat := 44
  const PERIOD: nat := 46
  const SLASH: nat := 47
  const COLON: nat := 58
  const QUESTION: nat := 63
  const AT: nat := 64
  const LBRACKET: nat := 91
  const BACKSLASH: nat := 92
  const RBRACKET: nat := 93
  const LBRACE: nat := 123
  const PIPE: nat := 124
  const RBRACE: nat := 125
}

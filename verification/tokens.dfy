/** Token kinds and tokens produced by the scanner. Only the kinds the scanner
    emits exist here; the literal slot of a token is always empty in this
    scanner and is therefore not represented. */
module Tokens {

  datatype TokenType =
    | LeftParen | RightParen | LeftBrace | RightBrace
    | Comma | Dot | Minus | Plus | Semicolon | Star
    | Bang | BangEqual | Equal | EqualEqual
    | Less | LessEqual | Greater | GreaterEqual
    | Slash
    | Eof

  /** A token: its kind, the exact source text it was read from, and the
      1-based line on which that text begins. */
  datatype Token = Token(kind: TokenType, lexeme: string, line: nat)

  /** The one text every kind is written as; the end-of-input marker has none. */
  function Spelling(kind: TokenType): string {
    match kind
    case LeftParen => "("
    case RightParen => ")"
    case LeftBrace => "{"
    case RightBrace => "}"
    case Comma => ","
    case Dot => "."
    case Minus => "-"
    case Plus => "+"
    case Semicolon => ";"
    case Star => "*"
    case Bang => "!"
    case BangEqual => "!="
    case Equal => "="
    case EqualEqual => "=="
    case Less => "<"
    case LessEqual => "<="
    case Greater => ">"
    case GreaterEqual => ">="
    case Slash => "/"
    case Eof => ""
  }
}

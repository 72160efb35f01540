/** The scanner of `src/scanner.rs`: one pass over the source with two byte
    cursors (`start`, `current`) and a line counter.

    The Rust scanner mutates itself; here every operation takes a state and
    returns the next one. The error reporter it calls is modelled by the
    `errors` field, to which each report appends the line it cites. */
module Scanning {
  import opened Wrappers
  import opened Unicode
  import opened Tokens
  import opened Lexical

  /** `start` and `current` are byte offsets into `source`; `start` marks
      where the lexeme being read began and `current` the next unread byte. */
  datatype Scanner = Scanner(
    source: string,
    tokens: seq<Token>,
    errors: seq<nat>,
    line: nat,
    start: nat,
    current: nat)

  /** What a complete scan yields: the token list and the reported lines. */
  datatype Output = Output(tokens: seq<Token>, errors: seq<nat>)

  /** Both cursors sit on character boundaries, in order (so neither is past
      the end of the source). */
  predicate Valid(s: Scanner) {
    && IndexOf(s.source, s.start).Some?
    && IndexOf(s.source, s.current).Some?
    && s.start <= s.current
  }

  /** A scanner at the very beginning: no tokens, both cursors at 0, line 1. */
  function New(source: string): (s: Scanner)
    ensures Valid(s) && s.source == source
    ensures s.tokens == [] && s.errors == [] && s.line == 1 && s.start == 0 && s.current == 0
    ensures IndexOf(source, s.current) == Some(0) && IsAtEnd(s) == (source == [])
  {
    BoundaryIff(source, 0, 0);
    BoundaryWithin(source, 0);
    Scanner(source, [], [], 1, 0, 0)
  }

  predicate IsAtEnd(s: Scanner) {
    s.current >= ByteLen(s.source)
  }

  /** A valid scanner is at the end exactly when its cursor follows the last
      character; anywhere else a character can be decoded at the cursor. */
  lemma AtEndIff(s: Scanner)
    requires Valid(s)
    ensures IsAtEnd(s) <==> IndexOf(s.source, s.current).value == |s.source|
    ensures !IsAtEnd(s) ==> CharAt(s.source, s.current).Some?
  {
    BoundaryWithin(s.source, s.current);
  }

  /** Consumes the character at the cursor. Rust panics when there is none. */
  function Advance(s: Scanner): (r: (Scanner, char))
    requires CharAt(s.source, s.current).Some?
    ensures r.0 == s.(current := s.current + Utf8Width(r.1))
    ensures IndexOf(s.source, s.current).Some? && IndexOf(s.source, s.current).value < |s.source|
    ensures r.1 == s.source[IndexOf(s.source, s.current).value]
    ensures IndexOf(s.source, r.0.current) == Some(IndexOf(s.source, s.current).value + 1)
  {
    var k := IndexOf(s.source, s.current).value;
    var c := CharAt(s.source, s.current).value;
    BoundaryIff(s.source, s.current, k);
    BoundaryIff(s.source, s.current + Utf8Width(c), k + 1);
    (s.(current := s.current + Utf8Width(c)), c)
  }

  /** Consumes the character at the cursor only when it is `expected`. */
  function AdvanceIf(s: Scanner, expected: char): (r: (Scanner, bool))
    requires !IsAtEnd(s) ==> CharAt(s.source, s.current).Some?
    ensures r.1 <==> !IsAtEnd(s) && CharAt(s.source, s.current) == Some(expected)
    ensures r.1 ==> r.0 == Advance(s).0 && r.0.current == s.current + Utf8Width(expected)
    ensures !r.1 ==> r.0 == s
  {
    if IsAtEnd(s) then (s, false)
    else
      var c := CharAt(s.source, s.current).value;
      if c != expected then (s, false)
      else (s.(current := s.current + Utf8Width(c)), true)
  }

  /** The character at the cursor without consuming it; `'\0'` at the end. */
  function Peek(s: Scanner): (c: char)
    requires !IsAtEnd(s) ==> CharAt(s.source, s.current).Some?
    ensures !IsAtEnd(s) ==> c == s.source[IndexOf(s.source, s.current).value]
  {
    if IsAtEnd(s) then '\0' else CharAt(s.source, s.current).value
  }

  /** Appends a token whose lexeme is the source between the two cursors. */
  function AddToken(s: Scanner, kind: TokenType): (r: Scanner)
    requires Valid(s)
    ensures r == s.(tokens := r.tokens)
    ensures |r.tokens| == |s.tokens| + 1 && r.tokens[..|s.tokens|] == s.tokens
    ensures var t := r.tokens[|s.tokens|];
      t.kind == kind && t.line == s.line && ByteLen(t.lexeme) == s.current - s.start
    ensures r.tokens[|s.tokens|].lexeme == Slice(s.source, s.start, s.current)
  {
    var text := Slice(s.source, s.start, s.current);
    s.(tokens := s.tokens + [Token(kind, text, s.line)])
  }

  /** The body of a `//` comment: consumes characters up to, not including,
      the next newline or the end of the source. */
  function SkipComment(s: Scanner): (r: Scanner)
    requires Valid(s)
    decreases ByteLen(s.source) - s.current
    ensures Valid(r) && r == s.(current := r.current) && s.current <= r.current
    ensures IndexOf(s.source, r.current)
      == Some(LineEnd(s.source, IndexOf(s.source, s.current).value))
  {
    AtEndIff(s);
    if IsAtEnd(s) || Peek(s) == '\n' then s
    else SkipComment(Advance(s).0)
  }

  /** What one scanning step may do to a valid scanner: keep it valid,
      keep `start` and the source, and move the cursor and the line count
      forward, never back. */
  predicate Stepped(s: Scanner, r: Scanner) {
    && Valid(r) && r.source == s.source && r.start == s.start
    && s.current <= r.current && s.line <= r.line
  }

  /** A one- or two-character operator whose first character was consumed:
      the two-character kind when `=` follows, the plain kind otherwise. */
  function Operator(s: Scanner, plain: TokenType, withEqual: TokenType): (r: Scanner)
    requires Valid(s)
    ensures Stepped(s, r) && |r.tokens| == |s.tokens| + 1
  {
    AtEndIff(s);
    var (s1, equal) := AdvanceIf(s, '=');
    AddToken(s1, if equal then withEqual else plain)
  }

  /** A `/` was consumed: a comment when a second `/` follows, else `Slash`. */
  function SlashOrComment(s: Scanner): (r: Scanner)
    requires Valid(s)
    ensures Stepped(s, r)
  {
    AtEndIff(s);
    var (s1, slash) := AdvanceIf(s, '/');
    if slash then SkipComment(s1) else AddToken(s1, Slash)
  }

  /** What `scan_token` does with the character it has just read. */
  datatype Action =
    | Single(kind: TokenType)                   // a token of this one character
    | PairWithEqual(plain: TokenType, withEqual: TokenType)  // `plain`, or `withEqual` when `=` follows
    | SlashLike                                 // a comment, or `Slash`
    | Whitespace                                // nothing
    | LineBreak                                 // the next line
    | Unknown                                   // an error on this line

  /** The arms of the `match` in `scan_token`, by character. */
  function Classify(c: char): Action {
    match c
    case '(' => Single(LeftParen)
    case ')' => Single(RightParen)
    case '{' => Single(LeftBrace)
    case '}' => Single(RightBrace)
    case ',' => Single(Comma)
    case '.' => Single(Dot)
    case '-' => Single(Minus)
    case '+' => Single(Plus)
    case ';' => Single(Semicolon)
    case '*' => Single(Star)
    case '!' => PairWithEqual(Bang, BangEqual)
    case '=' => PairWithEqual(Equal, EqualEqual)
    case '<' => PairWithEqual(Less, LessEqual)
    case '>' => PairWithEqual(Greater, GreaterEqual)
    case '/' => SlashLike
    case ' ' => Whitespace
    case '\r' => Whitespace
    case '\t' => Whitespace
    case '\n' => LineBreak
    case _ => Unknown
  }

  /** The body of one arm, run on the scanner that has read the character. */
  function Act(s: Scanner, a: Action): (r: Scanner)
    requires Valid(s)
    ensures Stepped(s, r)
  {
    match a
    case Single(kind) => AddToken(s, kind)
    case PairWithEqual(plain, withEqual) => Operator(s, plain, withEqual)
    case SlashLike => SlashOrComment(s)
    case Whitespace => s
    case LineBreak => s.(line := s.line + 1)
    case Unknown => s.(errors := s.errors + [s.line])
  }

  /** Reads one lexeme starting at the cursor and acts on its first
      character. */
  function ScanToken(s: Scanner): (r: Scanner)
    requires Valid(s) && !IsAtEnd(s)
    ensures Stepped(s, r) && s.current < r.current
  {
    AtEndIff(s);
    var (s1, c) := Advance(s);
    Act(s1, Classify(c))
  }
}

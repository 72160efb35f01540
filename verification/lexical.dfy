/** A character-level description of how the scanner divides its input,
    independent of byte offsets and cursors.

    The source text is cut, left to right, into segments: a lexeme of some
    token kind, a blank (space, carriage return, tab), a newline, a `//`
    comment running up to the next newline, or one unexpected character.
    Tokens are the lexeme segments, each stamped with 1 plus the number of
    newline segments before it; errors are the lines of the unexpected
    segments. The scanner state machine is proved to produce exactly this. */
module Lexical {
  import opened Wrappers
  import opened Tokens

  /** The classes of character whose occurrences the model counts. */
  datatype CharClass = NewlineChar | UnrecognisedChar

  predicate InClass(c: char, cls: CharClass) {
    match cls
    case NewlineChar => c == '\n'
    case UnrecognisedChar => Unrecognised(c)
  }

  /** Number of characters among the first `j` of `text` that are in class
      `cls`. */
  function CountBefore(text: string, j: nat, cls: CharClass): nat
    requires j <= |text|
  {
    if j == 0 then 0
    else CountBefore(text, j - 1, cls) + (if InClass(text[j - 1], cls) then 1 else 0)
  }

  /** Number of characters of `text` in class `cls`. */
  function Count(text: string, cls: CharClass): nat {
    CountBefore(text, |text|, cls)
  }

  function Newlines(text: string): nat {
    Count(text, NewlineChar)
  }

  /** Counting never goes down as the prefix grows. */
  lemma {:induction false} CountBeforeGrows(text: string, i: nat, j: nat, cls: CharClass)
    requires i <= j <= |text|
    decreases j
    ensures CountBefore(text, i, cls) <= CountBefore(text, j, cls)
  {
    if i < j {
      CountBeforeGrows(text, i, j - 1, cls);
    }
  }

  /** Characters `i..j` outside the class add nothing to the count. */
  lemma {:induction false} CountBeforeNone(text: string, i: nat, j: nat, cls: CharClass)
    requires i <= j <= |text|
    requires forall m :: i <= m < j ==> !InClass(text[m], cls)
    decreases j
    ensures CountBefore(text, j, cls) == CountBefore(text, i, cls)
  {
    if i < j {
      CountBeforeNone(text, i, j - 1, cls);
    }
  }

  /** The count over a prefix of `text` is the count over the first
      characters of `text` itself. */
  lemma {:induction false} CountPrefix(text: string, j: nat, m: nat, cls: CharClass)
    requires m <= j <= |text|
    decreases m
    ensures CountBefore(text[..j], m, cls) == CountBefore(text, m, cls)
  {
    if m > 0 {
      CountPrefix(text, j, m - 1, cls);
      assert text[..j][m - 1] == text[m - 1];
    }
  }

  /** The newlines of `text[..j]` are those among the first `j` characters. */
  lemma NewlinesPrefix(text: string, j: nat)
    requires j <= |text|
    ensures Newlines(text[..j]) == CountBefore(text, j, NewlineChar)
  {
    CountPrefix(text, j, j, NewlineChar);
  }

  /** The ten characters that are a token by themselves. */
  function Punctuation(c: char): (r: Option<TokenType>)
    ensures r.Some? ==> r.value != Eof && Spelling(r.value) == [c]
  {
    match c
    case '(' => Some(LeftParen)
    case ')' => Some(RightParen)
    case '{' => Some(LeftBrace)
    case '}' => Some(RightBrace)
    case ',' => Some(Comma)
    case '.' => Some(Dot)
    case '-' => Some(Minus)
    case '+' => Some(Plus)
    case ';' => Some(Semicolon)
    case '*' => Some(Star)
    case _ => None
  }

  /** The four characters that form a token alone or followed by `=`: the
      plain kind and the kind with `=`. */
  function Comparison(c: char): (r: Option<(TokenType, TokenType)>)
    ensures r.Some? ==> r.value.0 != Eof && Spelling(r.value.0) == [c]
    ensures r.Some? ==> r.value.1 != Eof && Spelling(r.value.1) == [c, '=']
  {
    match c
    case '!' => Some((Bang, BangEqual))
    case '=' => Some((Equal, EqualEqual))
    case '<' => Some((Less, LessEqual))
    case '>' => Some((Greater, GreaterEqual))
    case _ => None
  }

  /** Characters the scanner knows how to start a segment with. */
  predicate Recognised(c: char) {
    || Punctuation(c).Some?
    || Comparison(c).Some?
    || c == '/'
    || c == ' ' || c == '\r' || c == '\t'
    || c == '\n'
  }

  predicate Unrecognised(c: char) {
    !Recognised(c)
  }

  /** Index of the first newline at or after `i`, or the end of the text. */
  function LineEnd(text: string, i: nat): (r: nat)
    requires i <= |text|
    decreases |text| - i
    ensures i <= r <= |text|
    ensures r < |text| ==> text[r] == '\n'
    ensures forall j :: i <= j < r ==> text[j] != '\n'
  {
    if i == |text| || text[i] == '\n' then i else LineEnd(text, i + 1)
  }

  /** `LineEnd` finds the first newline: when `e` holds a newline and none
      comes between `i` and `e`, it is `e`. */
  lemma {:induction false} LineEndAt(text: string, i: nat, e: nat)
    requires i <= e < |text| && text[e] == '\n'
    requires forall j :: i <= j < e ==> text[j] != '\n'
    decreases e - i
    ensures LineEnd(text, i) == e
  {
    if i < e {
      LineEndAt(text, i + 1, e);
    }
  }

  datatype Piece = Lexeme(kind: TokenType) | Blank | Newline | Comment | Unexpected

  datatype Segment = Segment(piece: Piece, text: string)

  /** The segment that begins at character `k`. */
  function Next(text: string, k: nat): (seg: Segment)
    requires k < |text|
    ensures 0 < |seg.text| <= |text| - k
  {
    var c := text[k];
    var more := k + 1 < |text|;
    if Punctuation(c).Some? then
      Segment(Lexeme(Punctuation(c).value), [c])
    else if Comparison(c).Some? then
      if more && text[k + 1] == '=' then
        Segment(Lexeme(Comparison(c).value.1), text[k .. k + 2])
      else
        Segment(Lexeme(Comparison(c).value.0), [c])
    else if c == '/' then
      if more && text[k + 1] == '/' then
        Segment(Comment, text[k .. LineEnd(text, k + 2)])
      else
        Segment(Lexeme(Slash), [c])
    else if c == ' ' || c == '\r' || c == '\t' then
      Segment(Blank, [c])
    else if c == '\n' then
      Segment(Newline, [c])
    else
      Segment(Unexpected, [c])
  }

  /** The segment at `k` is the stretch of the text it covers. */
  lemma NextText(text: string, k: nat)
    requires k < |text|
    ensures Next(text, k).text == text[k .. k + |Next(text, k).text|]
  {
  }

  /** Only a newline segment covers a newline, and it covers one. */
  lemma NextNewlines(text: string, k: nat)
    requires k < |text|
    ensures var seg := Next(text, k);
      CountBefore(text, k + |seg.text|, NewlineChar)
        == CountBefore(text, k, NewlineChar) + (if seg.piece.Newline? then 1 else 0)
  {
    var c := text[k];
    var seg := Next(text, k);
    assert CountBefore(text, k + 1, NewlineChar)
      == CountBefore(text, k, NewlineChar) + (if c == '\n' then 1 else 0);
    if Comparison(c).Some? && k + 1 < |text| && text[k + 1] == '=' {
      assert CountBefore(text, k + 2, NewlineChar) == CountBefore(text, k + 1, NewlineChar);
    } else if c == '/' && k + 1 < |text| && text[k + 1] == '/' {
      CountBeforeNone(text, k, k + |seg.text|, NewlineChar);
    }
  }

  /** An unexpected segment is one character the scanner does not
      recognise, and every unrecognised character starts one. */
  lemma NextUnexpected(text: string, k: nat)
    requires k < |text|
    ensures var seg := Next(text, k);
      && (seg.piece.Unexpected? <==> Unrecognised(text[k]))
      && (seg.piece.Unexpected? ==> |seg.text| == 1)
  {
  }

  /** Outside comments, an unexpected segment covers one unrecognised
      character and every other segment covers recognised ones only. */
  lemma NextUnrecognised(text: string, k: nat)
    requires k < |text|
    ensures var seg := Next(text, k);
      !seg.piece.Comment? ==>
        CountBefore(text, k + |seg.text|, UnrecognisedChar)
          == CountBefore(text, k, UnrecognisedChar) + (if seg.piece.Unexpected? then 1 else 0)
  {
    var c := text[k];
    var seg := Next(text, k);
    NextUnexpected(text, k);
    assert CountBefore(text, k + 1, UnrecognisedChar)
      == CountBefore(text, k, UnrecognisedChar) + (if Unrecognised(c) then 1 else 0);
    if Comparison(c).Some? && k + 1 < |text| && text[k + 1] == '=' {
      assert CountBefore(text, k + 2, UnrecognisedChar) == CountBefore(text, k + 1, UnrecognisedChar);
    } else if !seg.piece.Comment? {
      assert |seg.text| == 1;
    }
  }

  /** A lexeme segment spells its kind, which is not end-of-input, and a
      comment segment is exactly one that starts with `//`. */
  lemma NextLexeme(text: string, k: nat)
    requires k < |text|
    ensures var seg := Next(text, k);
      && (seg.piece.Lexeme? ==> seg.piece.kind != Eof && seg.text == Spelling(seg.piece.kind))
      && (seg.piece.Comment? <==> k + 1 < |text| && text[k] == '/' && text[k + 1] == '/')
  {
  }

  /** What each kind of segment looks like, seen from the characters it
      covers (`k` up to `k1`): a lexeme is the spelling of its kind; only a
      newline segment covers a newline, and it covers one; a comment starts
      with `//`; an unexpected segment is one character the scanner does not
      recognise, and other segments other than comments cover recognised
      characters only. */
  lemma NextShape(text: string, k: nat)
    requires k < |text|
    ensures var seg := Next(text, k);
      var k1 := k + |seg.text|;
      && CountBefore(text, k1, NewlineChar)
           == CountBefore(text, k, NewlineChar) + (if seg.piece.Newline? then 1 else 0)
      && (seg.piece.Lexeme? ==> seg.piece.kind != Eof && seg.text == Spelling(seg.piece.kind))
      && (seg.piece.Unexpected? <==> Unrecognised(text[k]))
      && (seg.piece.Unexpected? ==> |seg.text| == 1)
      && (!seg.piece.Comment? ==>
            CountBefore(text, k1, UnrecognisedChar)
              == CountBefore(text, k, UnrecognisedChar) + (if seg.piece.Unexpected? then 1 else 0))
      && (seg.piece.Comment? <==> k + 1 < |text| && text[k] == '/' && text[k + 1] == '/')
  {
    NextNewlines(text, k);
    NextUnexpected(text, k);
    NextUnrecognised(text, k);
    NextLexeme(text, k);
  }

  /** The text of consecutive segments, laid end to end. */
  function Concat(segs: seq<Segment>): string {
    if segs == [] then [] else segs[0].text + Concat(segs[1..])
  }

  /** The segments of `text[k..]`, in order. */
  function SegmentsFrom(text: string, k: nat): seq<Segment>
    requires k <= |text|
    decreases |text| - k
  {
    if k == |text| then []
    else
      var seg := Next(text, k);
      [seg] + SegmentsFrom(text, k + |seg.text|)
  }

  /** The segmentation of a whole source text. */
  function Segments(text: string): seq<Segment> {
    SegmentsFrom(text, 0)
  }

  lemma {:induction false} SegmentsFromCover(text: string, k: nat)
    requires k <= |text|
    decreases |text| - k
    ensures Concat(SegmentsFrom(text, k)) == text[k..]
  {
    if k < |text| {
      var seg := Next(text, k);
      var rest := SegmentsFrom(text, k + |seg.text|);
      SegmentsFromCover(text, k + |seg.text|);
      assert ([seg] + rest)[1..] == rest;
      assert text[k..] == seg.text + text[k + |seg.text|..];
    }
  }

  /** Reassembling the segments gives the source text back: every character
      belongs to exactly one segment, and the segments are in source order. */
  lemma SegmentsReassemble(text: string)
    ensures Concat(Segments(text)) == text
  {
    SegmentsFromCover(text, 0);
    assert text[0..] == text;
  }

  function LineAfter(seg: Segment, line: nat): nat {
    if seg.piece.Newline? then line + 1 else line
  }

  /** The tokens of a run of segments whose first begins on `line`. */
  function TokensOf(segs: seq<Segment>, line: nat): seq<Token> {
    if segs == [] then []
    else
      var seg := segs[0];
      (if seg.piece.Lexeme? then [Token(seg.piece.kind, seg.text, line)] else [])
      + TokensOf(segs[1..], LineAfter(seg, line))
  }

  /** The error lines of a run of segments whose first begins on `line`. */
  function ErrorsOf(segs: seq<Segment>, line: nat): seq<nat> {
    if segs == [] then []
    else
      var seg := segs[0];
      (if seg.piece.Unexpected? then [line] else [])
      + ErrorsOf(segs[1..], LineAfter(seg, line))
  }

  /** Character index of every lexeme segment, for segments starting at `pos`. */
  function LexemeStarts(segs: seq<Segment>, pos: nat): seq<nat> {
    if segs == [] then []
    else
      var seg := segs[0];
      (if seg.piece.Lexeme? then [pos] else [])
      + LexemeStarts(segs[1..], pos + |seg.text|)
  }

  /** Character index of every unexpected segment, for segments starting at `pos`. */
  function ErrorStarts(segs: seq<Segment>, pos: nat): seq<nat> {
    if segs == [] then []
    else
      var seg := segs[0];
      (if seg.piece.Unexpected? then [pos] else [])
      + ErrorStarts(segs[1..], pos + |seg.text|)
  }

  lemma SegmentsFromStep(text: string, k: nat)
    requires k < |text|
    ensures var seg := Next(text, k);
      SegmentsFrom(text, k) == [seg] + SegmentsFrom(text, k + |seg.text|)
  {
  }

  /** The first segment from `k` is `Next(text, k)`, and the others are the
      segments after it. */
  lemma SegmentsFromFirst(text: string, k: nat)
    requires k < |text|
    ensures var segs := SegmentsFrom(text, k);
      && segs != [] && segs[0] == Next(text, k)
      && k + |segs[0].text| <= |text|
      && segs[1..] == SegmentsFrom(text, k + |segs[0].text|)
  {
    var seg := Next(text, k);
    var rest := SegmentsFrom(text, k + |seg.text|);
    SegmentsFromStep(text, k);
    assert SegmentsFrom(text, k) == [seg] + rest;
    assert ([seg] + rest)[0] == seg;
    assert ([seg] + rest)[1..] == rest;
  }

  /** The tokens and lexeme positions of `[seg] + rest`. */
  lemma TokensCons(seg: Segment, rest: seq<Segment>, line: nat, pos: nat)
    ensures TokensOf([seg] + rest, line)
      == (if seg.piece.Lexeme? then [Token(seg.piece.kind, seg.text, line)] else [])
         + TokensOf(rest, LineAfter(seg, line))
    ensures LexemeStarts([seg] + rest, pos)
      == (if seg.piece.Lexeme? then [pos] else []) + LexemeStarts(rest, pos + |seg.text|)
  {
    assert ([seg] + rest)[0] == seg;
    assert ([seg] + rest)[1..] == rest;
  }

  /** The error lines and positions of `[seg] + rest`. */
  lemma ErrorsCons(seg: Segment, rest: seq<Segment>, line: nat, pos: nat)
    ensures ErrorsOf([seg] + rest, line)
      == (if seg.piece.Unexpected? then [line] else []) + ErrorsOf(rest, LineAfter(seg, line))
    ensures ErrorStarts([seg] + rest, pos)
      == (if seg.piece.Unexpected? then [pos] else []) + ErrorStarts(rest, pos + |seg.text|)
  {
    assert ([seg] + rest)[0] == seg;
    assert ([seg] + rest)[1..] == rest;
  }

  /** What has been emitted so far and the line reached: the part of a
      scanner's state that the output depends on. */
  datatype Tally = Tally(tokens: seq<Token>, errors: seq<nat>, line: nat)

  /** The effect of one segment: a lexeme adds its token on the current
      line, an unexpected character adds an error on the current line, a
      newline moves to the next line. */
  function Feed(t: Tally, seg: Segment): Tally {
    Tally(
      t.tokens + (if seg.piece.Lexeme? then [Token(seg.piece.kind, seg.text, t.line)] else []),
      t.errors + (if seg.piece.Unexpected? then [t.line] else []),
      LineAfter(seg, t.line))
  }

  /** The effect of a run of segments, left to right. */
  function FeedAll(t: Tally, segs: seq<Segment>): Tally
    decreases |segs|
  {
    if segs == [] then t else FeedAll(Feed(t, segs[0]), segs[1..])
  }

  lemma FeedAllCons(t: Tally, seg: Segment, rest: seq<Segment>)
    ensures FeedAll(t, [seg] + rest) == FeedAll(Feed(t, seg), rest)
  {
    assert ([seg] + rest)[0] == seg;
    assert ([seg] + rest)[1..] == rest;
  }

  /** Feeding the segment at `k` and then the segments after it is feeding
      all the segments from `k`. */
  lemma FeedStep(t: Tally, text: string, k: nat)
    requires k < |text|
    ensures var k1 := k + |Next(text, k).text|;
      && k < k1 <= |text|
      && FeedAll(Feed(t, Next(text, k)), SegmentsFrom(text, k1)) == FeedAll(t, SegmentsFrom(text, k))
  {
    var seg := Next(text, k);
    SegmentsFromStep(text, k);
    FeedAllCons(t, seg, SegmentsFrom(text, k + |seg.text|));
  }

  /** Feeding a run of segments appends their tokens and their errors. */
  lemma {:induction false} FeedAllAppends(t: Tally, segs: seq<Segment>)
    decreases |segs|
    ensures FeedAll(t, segs).tokens == t.tokens + TokensOf(segs, t.line)
    ensures FeedAll(t, segs).errors == t.errors + ErrorsOf(segs, t.line)
  {
    if segs != [] {
      var seg := segs[0];
      var t1 := Feed(t, seg);
      FeedAllAppends(t1, segs[1..]);
      var tok := if seg.piece.Lexeme? then [Token(seg.piece.kind, seg.text, t.line)] else [];
      var err := if seg.piece.Unexpected? then [t.line] else [];
      assert t.tokens + tok + TokensOf(segs[1..], t1.line) == t.tokens + (tok + TokensOf(segs[1..], t1.line));
      assert t.errors + err + ErrorsOf(segs[1..], t1.line) == t.errors + (err + ErrorsOf(segs[1..], t1.line));
    }
  }

  /** Feeding the segments of `text[k..]` advances the line by the number of
      newlines from character `k` on. */
  lemma {:induction false} FeedAllLine(t: Tally, text: string, k: nat)
    requires k <= |text|
    decreases |text| - k
    ensures FeedAll(t, SegmentsFrom(text, k)).line + CountBefore(text, k, NewlineChar)
      == t.line + Newlines(text)
  {
    if k < |text| {
      var seg := Next(text, k);
      var k1 := k + |seg.text|;
      FeedStep(t, text, k);
      NextNewlines(text, k);
      assert Feed(t, seg).line == t.line + (if seg.piece.Newline? then 1 else 0);
      FeedAllLine(Feed(t, seg), text, k1);
      assert FeedAll(Feed(t, seg), SegmentsFrom(text, k1)) == FeedAll(t, SegmentsFrom(text, k));
    }
  }
}

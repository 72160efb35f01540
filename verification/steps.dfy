/** Each scanner step, read at the level of characters: what the byte-cursor
    operations of `Scanning` do to the character index of the cursor, and
    that one `ScanToken` step consumes exactly the segment `Lexical.Next`
    describes. */
module Steps {
  import opened Wrappers
  import opened Unicode
  import opened Tokens
  import opened Lexical
  import opened Scanning

  /** `advance` from the boundary before character `k`: returns character
      `k` and moves the cursor to the boundary after it, that is by the
      character's UTF-8 width. */
  lemma AdvanceAt(s: Scanner, k: nat)
    requires Valid(s) && IndexOf(s.source, s.current) == Some(k) && k < |s.source|
    ensures !IsAtEnd(s) && CharAt(s.source, s.current).Some?
    ensures var (r, c) := Advance(s);
      && c == s.source[k]
      && r == s.(current := s.current + Utf8Width(c))
      && Valid(r) && IndexOf(s.source, r.current) == Some(k + 1)
  {
    AtEndIff(s);
  }

  /** `advance_if` from the boundary before character `k`: consumes
      character `k` exactly when there is one and it is `expected`, and
      otherwise leaves the scanner as it was. */
  lemma AdvanceIfAt(s: Scanner, k: nat, expected: char)
    requires Valid(s) && IndexOf(s.source, s.current) == Some(k)
    ensures !IsAtEnd(s) ==> CharAt(s.source, s.current).Some?
    ensures var (r, ok) := AdvanceIf(s, expected);
      && (ok <==> k < |s.source| && s.source[k] == expected)
      && (ok ==> r == s.(current := s.current + Utf8Width(expected)))
      && (!ok ==> r == s)
      && Valid(r) && IndexOf(s.source, r.current) == Some(if ok then k + 1 else k)
  {
    AtEndIff(s);
    if k < |s.source| {
      AdvanceAt(s, k);
    }
  }

  /** A token added when `start` is the boundary before character `i` and
      `current` the one before character `j` has lexeme `source[i..j]`. */
  lemma AddTokenAt(s: Scanner, i: nat, j: nat, kind: TokenType)
    requires Valid(s) && IndexOf(s.source, s.start) == Some(i) && IndexOf(s.source, s.current) == Some(j)
    ensures i <= j <= |s.source|
    ensures AddToken(s, kind).tokens == s.tokens + [Token(kind, s.source[i..j], s.line)]
  {
    BoundaryIff(s.source, s.start, i);
    BoundaryIff(s.source, s.current, j);
    if j < i {
      OffsetGrows(s.source, j, i);
    }
    SliceChars(s.source, i, j);
  }

  /** The arms of `scan_token` agree with the character classes of the
      segmentation: punctuation, the four operators, `/`, blanks, newline,
      and everything else. */
  lemma ClassifyAgrees(c: char)
    ensures Punctuation(c).Some? ==> Classify(c) == Single(Punctuation(c).value)
    ensures Comparison(c).Some? ==>
      Classify(c) == PairWithEqual(Comparison(c).value.0, Comparison(c).value.1)
    ensures Classify(c) == SlashLike <==> c == '/'
    ensures Classify(c) == Whitespace <==> c == ' ' || c == '\r' || c == '\t'
    ensures Classify(c) == LineBreak <==> c == '\n'
    ensures Classify(c) == Unknown <==> !Recognised(c)
  {
  }

  /** The scanner is about to read a lexeme beginning with character `k`:
      both cursors sit on the boundary before it. */
  predicate ReadyAt(s: Scanner, k: nat) {
    && Valid(s) && s.start == s.current
    && IndexOf(s.source, s.current) == Some(k) && k < |s.source|
  }

  lemma ReadyNotAtEnd(s: Scanner, k: nat)
    requires ReadyAt(s, k)
    ensures !IsAtEnd(s)
  {
    AtEndIff(s);
  }

  /** Going from `s` to `r` consumes segment `seg`, which begins at
      character `k`: a token for a lexeme, an error for an unexpected
      character, one more line for a newline, and nothing else. */
  predicate Consumes(s: Scanner, r: Scanner, k: nat, seg: Segment) {
    && IndexOf(s.source, r.current) == Some(k + |seg.text|)
    && r.tokens == s.tokens + (if seg.piece.Lexeme? then [Token(seg.piece.kind, seg.text, s.line)] else [])
    && r.errors == s.errors + (if seg.piece.Unexpected? then [s.line] else [])
    && r.line == LineAfter(seg, s.line)
  }

  /** The emitted tokens, the reported errors and the line of a scanner. */
  function TallyOf(s: Scanner): Tally {
    Tally(s.tokens, s.errors, s.line)
  }

  /** A single-character punctuation token: one token whose lexeme is that
      character; nothing else consumed, no line or error change. */
  lemma PunctuationStep(s: Scanner, k: nat)
    requires ReadyAt(s, k) && Punctuation(s.source[k]).Some?
    ensures !IsAtEnd(s)
    ensures var r := ScanToken(s);
      && r.tokens == s.tokens + [Token(Punctuation(s.source[k]).value, [s.source[k]], s.line)]
      && IndexOf(s.source, r.current) == Some(k + 1) && r.current == s.current + 1
      && r.line == s.line && r.errors == s.errors
    ensures Consumes(s, ScanToken(s), k, Next(s.source, k))
  {
    ClassifyAgrees(s.source[k]);
    NextPunctuation(s.source, k);
    ReadyNotAtEnd(s, k);
    AdvanceAt(s, k);
    var s1 := Advance(s).0;
    AddTokenAt(s1, k, k + 1, Punctuation(s.source[k]).value);
    assert s.source[k .. k + 1] == [s.source[k]];
  }

  /** `!`, `=`, `<` or `>` followed by `=`: the two-character kind with a
      two-character lexeme. */
  lemma OperatorPairStep(s: Scanner, k: nat)
    requires ReadyAt(s, k) && Comparison(s.source[k]).Some?
    requires k + 1 < |s.source| && s.source[k + 1] == '='
    ensures !IsAtEnd(s)
    ensures var r := ScanToken(s);
      && r.tokens == s.tokens + [Token(Comparison(s.source[k]).value.1, [s.source[k], '='], s.line)]
      && IndexOf(s.source, r.current) == Some(k + 2) && r.current == s.current + 2
      && r.line == s.line && r.errors == s.errors
  {
    ClassifyAgrees(s.source[k]);
    ReadyNotAtEnd(s, k);
    AdvanceAt(s, k);
    var s1 := Advance(s).0;
    AdvanceIfAt(s1, k + 1, '=');
    var s2 := AdvanceIf(s1, '=').0;
    AddTokenAt(s2, k, k + 2, Comparison(s.source[k]).value.1);
    assert s.source[k .. k + 2] == [s.source[k], '='];
  }

  /** `!`, `=`, `<` or `>` not followed by `=`: the plain kind with a
      one-character lexeme, and the following character is left unread. */
  lemma OperatorSingleStep(s: Scanner, k: nat)
    requires ReadyAt(s, k) && Comparison(s.source[k]).Some?
    requires !(k + 1 < |s.source| && s.source[k + 1] == '=')
    ensures !IsAtEnd(s)
    ensures var r := ScanToken(s);
      && r.tokens == s.tokens + [Token(Comparison(s.source[k]).value.0, [s.source[k]], s.line)]
      && IndexOf(s.source, r.current) == Some(k + 1) && r.current == s.current + 1
      && r.line == s.line && r.errors == s.errors
  {
    ClassifyAgrees(s.source[k]);
    ReadyNotAtEnd(s, k);
    AdvanceAt(s, k);
    var s1 := Advance(s).0;
    AdvanceIfAt(s1, k + 1, '=');
    var s2 := AdvanceIf(s1, '=').0;
    AddTokenAt(s2, k, k + 1, Comparison(s.source[k]).value.0);
    assert s.source[k .. k + 1] == [s.source[k]];
  }

  /** `!`, `=`, `<` or `>`: when `=` follows, the two-character kind with a
      two-character lexeme; otherwise the plain kind with a one-character
      lexeme, and the following character is left unread. */
  lemma OperatorStep(s: Scanner, k: nat)
    requires ReadyAt(s, k) && Comparison(s.source[k]).Some?
    ensures !IsAtEnd(s)
    ensures var r := ScanToken(s);
      var (plain, withEqual) := Comparison(s.source[k]).value;
      && (if k + 1 < |s.source| && s.source[k + 1] == '=' then
            && r.tokens == s.tokens + [Token(withEqual, [s.source[k], '='], s.line)]
            && IndexOf(s.source, r.current) == Some(k + 2) && r.current == s.current + 2
          else
            && r.tokens == s.tokens + [Token(plain, [s.source[k]], s.line)]
            && IndexOf(s.source, r.current) == Some(k + 1) && r.current == s.current + 1)
      && r.line == s.line && r.errors == s.errors
    ensures Consumes(s, ScanToken(s), k, Next(s.source, k))
  {
    var c := s.source[k];
    NextComparison(s.source, k);
    if k + 1 < |s.source| && s.source[k + 1] == '=' {
      OperatorPairStep(s, k);
      assert Next(s.source, k) == Segment(Lexeme(Comparison(c).value.1), [c, '=']);
    } else {
      OperatorSingleStep(s, k);
      assert Next(s.source, k) == Segment(Lexeme(Comparison(c).value.0), [c]);
    }
  }

  /** `//`: a comment, which emits nothing and consumes every character up
      to, not including, the next newline (or to the end of the source). */
  lemma CommentStep(s: Scanner, k: nat)
    requires ReadyAt(s, k) && k + 1 < |s.source| && s.source[k] == '/' && s.source[k + 1] == '/'
    ensures !IsAtEnd(s)
    ensures var r := ScanToken(s); var e := LineEnd(s.source, k + 2);
      && r.tokens == s.tokens && r.line == s.line && r.errors == s.errors
      && IndexOf(s.source, r.current) == Some(e)
      && (e == |s.source| || s.source[e] == '\n')
      && (forall j :: k <= j < e ==> s.source[j] != '\n')
    ensures Consumes(s, ScanToken(s), k, Next(s.source, k))
  {
    CommentScan(s, k);
    CommentSegment(s.source, k);
  }

  /** The comment segment at `k` runs up to, not including, the next
      newline, or to the end of the text. */
  lemma CommentSegment(text: string, k: nat)
    requires k + 1 < |text| && text[k] == '/' && text[k + 1] == '/'
    ensures var e := LineEnd(text, k + 2);
      && Next(text, k) == Segment(Comment, text[k .. e]) && |Next(text, k).text| == e - k
      && (e == |text| || text[e] == '\n')
      && (forall j :: k <= j < e ==> text[j] != '\n')
  {
    NextSlash(text, k);
  }

  /** What `scan_token` does on `//`: it skips to the end of the line and
      changes nothing else. */
  lemma CommentScan(s: Scanner, k: nat)
    requires ReadyAt(s, k) && k + 1 < |s.source| && s.source[k] == '/' && s.source[k + 1] == '/'
    ensures !IsAtEnd(s)
    ensures var r := ScanToken(s);
      && r.tokens == s.tokens && r.line == s.line && r.errors == s.errors
      && IndexOf(s.source, r.current) == Some(LineEnd(s.source, k + 2))
  {
    ClassifyAgrees(s.source[k]);
    ReadyNotAtEnd(s, k);
    AdvanceAt(s, k);
    var s1 := Advance(s).0;
    AdvanceIfAt(s1, k + 1, '/');
  }

  /** A `/` not followed by another `/`: a `Slash` token of one character. */
  lemma SlashStep(s: Scanner, k: nat)
    requires ReadyAt(s, k) && s.source[k] == '/'
    requires k + 1 == |s.source| || s.source[k + 1] != '/'
    ensures !IsAtEnd(s)
    ensures var r := ScanToken(s);
      && r.tokens == s.tokens + [Token(Slash, "/", s.line)]
      && IndexOf(s.source, r.current) == Some(k + 1) && r.current == s.current + 1
      && r.line == s.line && r.errors == s.errors
    ensures Consumes(s, ScanToken(s), k, Next(s.source, k))
  {
    SlashScan(s, k);
    NextSlash(s.source, k);
    assert Next(s.source, k) == Segment(Lexeme(Slash), "/");
  }

  /** What `scan_token` does on a `/` that does not start a comment. */
  lemma SlashScan(s: Scanner, k: nat)
    requires ReadyAt(s, k) && s.source[k] == '/'
    requires k + 1 == |s.source| || s.source[k + 1] != '/'
    ensures !IsAtEnd(s)
    ensures var r := ScanToken(s);
      && r.tokens == s.tokens + [Token(Slash, "/", s.line)]
      && IndexOf(s.source, r.current) == Some(k + 1) && r.current == s.current + 1
      && r.line == s.line && r.errors == s.errors
  {
    ClassifyAgrees(s.source[k]);
    ReadyNotAtEnd(s, k);
    AdvanceAt(s, k);
    var s1 := Advance(s).0;
    AdvanceIfAt(s1, k + 1, '/');
    var s2 := AdvanceIf(s1, '/').0;
    AddTokenAt(s2, k, k + 1, Slash);
    assert s.source[k .. k + 1] == "/";
  }

  /** Space, carriage return and tab: skipped, with no token, no error and
      the same line. */
  lemma BlankStep(s: Scanner, k: nat)
    requires ReadyAt(s, k) && (s.source[k] == ' ' || s.source[k] == '\r' || s.source[k] == '\t')
    ensures !IsAtEnd(s)
    ensures var r := ScanToken(s);
      && r.tokens == s.tokens && r.errors == s.errors && r.line == s.line
      && IndexOf(s.source, r.current) == Some(k + 1) && r.current == s.current + 1
    ensures Consumes(s, ScanToken(s), k, Next(s.source, k))
  {
    ClassifyAgrees(s.source[k]);
    NextOther(s.source, k);
    ReadyNotAtEnd(s, k);
    AdvanceAt(s, k);
  }

  /** Newline: skipped with no token, and the line count goes up by one. */
  lemma NewlineStep(s: Scanner, k: nat)
    requires ReadyAt(s, k) && s.source[k] == '\n'
    ensures !IsAtEnd(s)
    ensures var r := ScanToken(s);
      && r.tokens == s.tokens && r.errors == s.errors && r.line == s.line + 1
      && IndexOf(s.source, r.current) == Some(k + 1) && r.current == s.current + 1
    ensures Consumes(s, ScanToken(s), k, Next(s.source, k))
  {
    ClassifyAgrees(s.source[k]);
    NextOther(s.source, k);
    ReadyNotAtEnd(s, k);
    AdvanceAt(s, k);
  }

  /** Any other character: no token, exactly one error citing the current
      line, and scanning resumes right after that character, however many
      bytes it takes. */
  lemma UnexpectedStep(s: Scanner, k: nat)
    requires ReadyAt(s, k) && !Recognised(s.source[k])
    ensures !IsAtEnd(s)
    ensures var r := ScanToken(s);
      && r.tokens == s.tokens && r.errors == s.errors + [s.line] && r.line == s.line
      && IndexOf(s.source, r.current) == Some(k + 1)
      && r.current == s.current + Utf8Width(s.source[k])
    ensures Consumes(s, ScanToken(s), k, Next(s.source, k))
  {
    ClassifyAgrees(s.source[k]);
    NextOther(s.source, k);
    ReadyNotAtEnd(s, k);
    AdvanceAt(s, k);
  }

  /** One step consumes exactly the segment `Next` finds at the cursor. */
  lemma StepMatchesNext(s: Scanner, k: nat)
    requires ReadyAt(s, k)
    ensures !IsAtEnd(s)
    ensures Consumes(s, ScanToken(s), k, Next(s.source, k))
  {
    var c := s.source[k];
    if Punctuation(c).Some? {
      PunctuationStep(s, k);
    } else if Comparison(c).Some? {
      OperatorStep(s, k);
    } else if c == '/' {
      if k + 1 < |s.source| && s.source[k + 1] == '/' {
        CommentStep(s, k);
      } else {
        SlashStep(s, k);
      }
    } else if c == ' ' || c == '\r' || c == '\t' {
      BlankStep(s, k);
    } else if c == '\n' {
      NewlineStep(s, k);
    } else {
      UnexpectedStep(s, k);
    }
  }

  lemma NextPunctuation(text: string, k: nat)
    requires k < |text| && Punctuation(text[k]).Some?
    ensures Next(text, k) == Segment(Lexeme(Punctuation(text[k]).value), [text[k]])
  {
  }

  lemma NextComparison(text: string, k: nat)
    requires k < |text| && Comparison(text[k]).Some?
    ensures Next(text, k) == if k + 1 < |text| && text[k + 1] == '=' then
        Segment(Lexeme(Comparison(text[k]).value.1), [text[k], '='])
      else
        Segment(Lexeme(Comparison(text[k]).value.0), [text[k]])
  {
    if k + 1 < |text| && text[k + 1] == '=' {
      assert text[k .. k + 2] == [text[k], '='];
    }
  }

  lemma NextSlash(text: string, k: nat)
    requires k < |text| && text[k] == '/'
    ensures Next(text, k) == if k + 1 < |text| && text[k + 1] == '/' then
        Segment(Comment, text[k .. LineEnd(text, k + 2)])
      else
        Segment(Lexeme(Slash), "/")
  {
  }

  lemma NextOther(text: string, k: nat)
    requires k < |text| && Punctuation(text[k]).None? && Comparison(text[k]).None? && text[k] != '/'
    ensures Next(text, k) == Segment(
      if text[k] == '\n' then Newline
      else if text[k] == ' ' || text[k] == '\r' || text[k] == '\t' then Blank
      else Unexpected,
      [text[k]])
  {
  }

  /** One call of `scan_token` from the boundary before character `k`: it
      consumes exactly the segment that begins at `k`. */
  method Turn(s: Scanner, ghost k: nat) returns (r: Scanner)
    requires ReadyAt(s, k)
    ensures Valid(r) && r.source == s.source
    ensures Consumes(s, r, k, Next(s.source, k))
  {
    ReadyNotAtEnd(s, k);
    StepMatchesNext(s, k);
    r := ScanToken(s);
  }
}

/** Worked inputs: what scanning a few small sources yields. */
module Scenarios {
  import opened Unicode
  import opened Tokens
  import opened Lexical
  import opened Scanning
  import opened Steps
  import opened WholeScan

  /** `(+)`: three one-character tokens and the end-of-input token, all on
      line 1, and no error. */
  lemma ParenPlusParen()
    ensures Expected("(+)") == Output(
      [Token(LeftParen, "(", 1), Token(Plus, "+", 1), Token(RightParen, ")", 1), Token(Eof, "", 1)],
      [])
  {
    var src := "(+)";
    var open, plus, close := Segment(Lexeme(LeftParen), "("), Segment(Lexeme(Plus), "+"), Segment(Lexeme(RightParen), ")");
    NextPunctuation(src, 2);
    SegmentsFromStep(src, 2);
    assert SegmentsFrom(src, 2) == [close];
    NextPunctuation(src, 1);
    SegmentsFromStep(src, 1);
    assert SegmentsFrom(src, 1) == [plus, close];
    NextPunctuation(src, 0);
    SegmentsFromStep(src, 0);
    assert Segments(src) == [open, plus, close];
    CountBeforeNone(src, 0, |src|, NewlineChar);
  }

  /** `!=` is one two-character token. */
  lemma BangEqualAlone()
    ensures Expected("!=") == Output([Token(BangEqual, "!=", 1), Token(Eof, "", 1)], [])
  {
    var src := "!=";
    NextComparison(src, 0);
    SegmentsFromStep(src, 0);
    assert src[0 .. 2] == "!=";
    assert Segments(src) == [Segment(Lexeme(BangEqual), "!=")];
    CountBeforeNone(src, 0, |src|, NewlineChar);
  }

  /** `!` alone is a one-character token: there is nothing to look ahead at. */
  lemma BangAlone()
    ensures Expected("!") == Output([Token(Bang, "!", 1), Token(Eof, "", 1)], [])
  {
    var src := "!";
    NextComparison(src, 0);
    SegmentsFromStep(src, 0);
    assert Segments(src) == [Segment(Lexeme(Bang), "!")];
    CountBeforeNone(src, 0, |src|, NewlineChar);
  }

  /** A comment, a newline and `+`: the segments of `//`, then a text
      without newlines, then a newline and `+`. */
  lemma CommentPlusSegments(body: string)
    requires forall j :: 0 <= j < |body| ==> body[j] != '\n'
    ensures var src := "//" + body + "\n+";
      Segments(src) == [Segment(Comment, src[0 .. 2 + |body|])]
        + ([Segment(Newline, "\n")] + [Segment(Lexeme(Plus), "+")])
  {
    var src := "//" + body + "\n+";
    var e := 2 + |body|;
    assert |src| == e + 2;
    assert src[0] == '/' && src[1] == '/' && src[e] == '\n' && src[e + 1] == '+';
    forall j | 2 <= j < e
      ensures src[j] != '\n'
    {
      assert src[j] == body[j - 2];
    }
    LineEndAt(src, 2, e);
    NextSlash(src, 0);
    assert Next(src, 0) == Segment(Comment, src[0 .. e]);
    NextOther(src, e);
    assert Next(src, e) == Segment(Newline, "\n");
    NextPunctuation(src, e + 1);
    assert Next(src, e + 1) == Segment(Lexeme(Plus), "+");
    SegmentsFromStep(src, e + 1);
    assert SegmentsFrom(src, e + 2) == [];
    assert SegmentsFrom(src, e + 1) == [Segment(Lexeme(Plus), "+")];
    SegmentsFromStep(src, e);
    assert SegmentsFrom(src, e) == [Segment(Newline, "\n")] + [Segment(Lexeme(Plus), "+")];
    SegmentsFromStep(src, 0);
  }

  /** The same source holds exactly one newline. */
  lemma CommentPlusNewlines(body: string)
    requires forall j :: 0 <= j < |body| ==> body[j] != '\n'
    ensures Newlines("//" + body + "\n+") == 1
  {
    var src := "//" + body + "\n+";
    var e := 2 + |body|;
    assert |src| == e + 2 && src[e] == '\n' && src[e + 1] == '+';
    forall j | 0 <= j < e
      ensures src[j] != '\n'
    {
      if j >= 2 {
        assert src[j] == body[j - 2];
      }
    }
    CountBeforeNone(src, 0, e, NewlineChar);
    assert CountBefore(src, e + 1, NewlineChar) == 1;
  }

  /** A comment up to the newline yields no token, whatever its text; the
      `+` after it is on line 2, and so is the end-of-input token. */
  lemma CommentThenPlus(body: string)
    requires forall j :: 0 <= j < |body| ==> body[j] != '\n'
    ensures Expected("//" + body + "\n+") == Output([Token(Plus, "+", 2), Token(Eof, "", 2)], [])
  {
    var src := "//" + body + "\n+";
    CommentPlusSegments(body);
    CommentPlusNewlines(body);
    var comment := Segment(Comment, src[0 .. 2 + |body|]);
    var newline := Segment(Newline, "\n");
    var plus := Segment(Lexeme(Plus), "+");
    TokensCons(comment, [newline] + [plus], 1, 0);
    TokensCons(newline, [plus], 1, 0);
    TokensCons(plus, [], 2, 0);
    ErrorsCons(comment, [newline] + [plus], 1, 0);
    ErrorsCons(newline, [plus], 1, 0);
    ErrorsCons(plus, [], 2, 0);
    assert [plus] + [] == [plus];
  }

  /** The instance with the comment text ` comment`. */
  lemma CommentThenPlusExample()
    ensures Expected("// comment\n+") == Output([Token(Plus, "+", 2), Token(Eof, "", 2)], [])
  {
    CommentThenPlus(" comment");
    assert "//" + " comment" + "\n+" == "// comment\n+";
  }

  /** `@` is not part of the language: no token besides end-of-input, and
      one error citing line 1. */
  lemma AtSign()
    ensures Expected("@") == Output([Token(Eof, "", 1)], [1])
  {
    var src := "@";
    NextOther(src, 0);
    SegmentsFromStep(src, 0);
    assert Segments(src) == [Segment(Unexpected, "@")];
    CountBeforeNone(src, 0, |src|, NewlineChar);
  }

  /** `é+`: the first step reads the two bytes of `é` as one character and
      reports it on line 1; the second step, starting at byte 2, yields
      `+`, after which the scanner is at the end (byte 3). */
  lemma AccentThenPlus()
    ensures var s := New("é+");
      && !IsAtEnd(s)
      && var s1 := ScanToken(s);
      && s1.current == 2 && s1.tokens == [] && s1.errors == [1]
      && !IsAtEnd(s1.(start := s1.current))
      && var s2 := ScanToken(s1.(start := s1.current));
      && s2.start == 2 && s2.current == 3 && IsAtEnd(s2)
      && s2.tokens == [Token(Plus, "+", 1)] && s2.errors == [1]
  {
    var src := "é+";
    var s := New(src);
    assert Utf8Width('é') == 2;
    UnexpectedStep(s, 0);
    var s1 := ScanToken(s);
    var s1a := s1.(start := s1.current);
    PunctuationStep(s1a, 1);
    var s2 := ScanToken(s1a);
    assert Offset(src, 2) == 3;
    assert ByteLen(src) == 3;
  }
}

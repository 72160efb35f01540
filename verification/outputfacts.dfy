/** Properties of everything a scan yields for a whole source, stated on
    `WholeScan.Expected` (which `WholeScan.Scan` is proved to return). */
module OutputFacts {
  import opened Tokens
  import opened Lexical
  import opened WholeScan
  import opened Layout

  /** The output ends with exactly one end-of-input token: it is last, its
      lexeme is empty, it carries the final line (1 plus every newline),
      and no other token has its kind. */
  lemma EndsWithEof(source: string)
    ensures var toks := Expected(source).tokens;
      && |toks| >= 1
      && toks[|toks| - 1] == Token(Eof, "", 1 + Newlines(source))
      && forall i :: 0 <= i < |toks| - 1 ==> toks[i].kind != Eof
  {
    var segs := Segments(source);
    var toks := Expected(source).tokens;
    SegmentsShaped(source, 0);
    ShapedSpelled(source, 0, segs);
    forall i | 0 <= i < |toks| - 1
      ensures toks[i].kind != Eof
    {
      TokenShape(segs, 1, i);
      assert toks[i] == TokensOf(segs, 1)[i];
    }
  }

  /** Every token before the last is a lexeme of the source: the non-empty
      spelling of its kind, found in the source at its recorded start, on
      line 1 plus the number of newlines before that start. */
  lemma LexemesAreSlices(source: string)
    ensures var toks := Expected(source).tokens;
      var starts := LexemeStarts(Segments(source), 0);
      && |starts| == |toks| - 1
      && forall i :: 0 <= i < |starts| ==>
           && LexemeAt(source, toks[i], starts[i])
           && toks[i].lexeme != [] && toks[i].lexeme == Spelling(toks[i].kind)
           && toks[i].line == 1 + Newlines(source[..starts[i]])
  {
    var segs := Segments(source);
    var toks := Expected(source).tokens;
    var starts := LexemeStarts(segs, 0);
    SegmentsSpan(source, 0);
    SegmentsShaped(source, 0);
    ShapedSpelled(source, 0, segs);
    LengthsAgree(segs, 1, 0);
    forall i | 0 <= i < |starts|
      ensures LexemeAt(source, toks[i], starts[i])
      ensures toks[i].lexeme != [] && toks[i].lexeme == Spelling(toks[i].kind)
      ensures toks[i].line == 1 + Newlines(source[..starts[i]])
    {
      TokenPlaced(source, 0, segs, 1, i);
      TokenLine(source, 0, segs, 1, i);
      TokenShape(segs, 1, i);
      NewlinesPrefix(source, starts[i]);
      assert toks[i] == TokensOf(segs, 1)[i];
    }
  }

  /** Lexemes appear in source order and their ranges do not overlap. */
  lemma LexemesInOrder(source: string)
    ensures var toks := Expected(source).tokens;
      var starts := LexemeStarts(Segments(source), 0);
      && |starts| == |toks| - 1
      && forall i, j :: 0 <= i < j < |starts| ==> starts[i] + |toks[i].lexeme| <= starts[j]
  {
    var segs := Segments(source);
    var toks := Expected(source).tokens;
    var starts := LexemeStarts(segs, 0);
    SegmentsSpan(source, 0);
    LengthsAgree(segs, 1, 0);
    forall i, j | 0 <= i < j < |starts|
      ensures starts[i] + |toks[i].lexeme| <= starts[j]
    {
      TokensOrdered(source, 0, segs, 1, i, j);
      assert toks[i] == TokensOf(segs, 1)[i];
    }
  }

  /** Line numbers never decrease along the output, end-of-input included. */
  lemma LinesNeverDecrease(source: string)
    ensures var toks := Expected(source).tokens;
      forall i, j :: 0 <= i <= j < |toks| ==> toks[i].line <= toks[j].line
  {
    var segs := Segments(source);
    var toks := Expected(source).tokens;
    var starts := LexemeStarts(segs, 0);
    LexemesAreSlices(source);
    LexemesInOrder(source);
    forall i, j | 0 <= i < j < |toks|
      ensures toks[i].line <= toks[j].line
    {
      NewlinesPrefix(source, starts[i]);
      if j < |toks| - 1 {
        NewlinesPrefix(source, starts[j]);
        CountBeforeGrows(source, starts[i], starts[j], NewlineChar);
      } else {
        CountBeforeGrows(source, starts[i], |source|, NewlineChar);
      }
    }
  }

  /** Each error comes from an unrecognised character at its recorded
      position and cites line 1 plus the number of newlines before it;
      errors come in source order, so their lines never decrease. */
  lemma ErrorsAtUnexpected(source: string)
    ensures var errs := Expected(source).errors;
      var at := ErrorStarts(Segments(source), 0);
      && |at| == |errs|
      && (forall i :: 0 <= i < |at| ==>
            at[i] < |source| && Unrecognised(source[at[i]])
            && errs[i] == 1 + Newlines(source[..at[i]]))
      && (forall i, j :: 0 <= i < j < |at| ==> at[i] < at[j] && errs[i] <= errs[j])
  {
    var segs := Segments(source);
    var errs := Expected(source).errors;
    var at := ErrorStarts(segs, 0);
    SegmentsShaped(source, 0);
    ErrorLengthsAgree(segs, 1, 0);
    forall i | 0 <= i < |at|
      ensures at[i] < |source| && Unrecognised(source[at[i]])
      ensures errs[i] == 1 + Newlines(source[..at[i]])
    {
      ErrorPlaced(source, 0, segs, 1, i);
      NewlinesPrefix(source, at[i]);
    }
    forall i, j | 0 <= i < j < |at|
      ensures at[i] < at[j] && errs[i] <= errs[j]
    {
      ErrorsOrdered(source, 0, segs, 1, i, j);
      ErrorPlaced(source, 0, segs, 1, i);
      ErrorPlaced(source, 0, segs, 1, j);
      CountBeforeGrows(source, at[i], at[j], NewlineChar);
    }
  }

  /** There is at most one error per unrecognised character of the source,
      and exactly one per unrecognised character when the source holds no
      `//` comment. */
  lemma ErrorsCount(source: string)
    ensures |Expected(source).errors| <= Count(source, UnrecognisedChar)
    ensures NoCommentFrom(source, 0) ==> |Expected(source).errors| == Count(source, UnrecognisedChar)
  {
    var segs := Segments(source);
    SegmentsShaped(source, 0);
    ErrorCount(source, 0, segs, 1);
    if NoCommentFrom(source, 0) {
      NoCommentSegments(source, 0);
      assert segs == SegmentsFrom(source, 0);
      forall i | 0 <= i < |segs|
        ensures !segs[i].piece.Comment?
      {
        assert segs[i] == SegmentsFrom(source, 0)[i];
      }
    }
  }
}

/** What the scanner's output says about the source: where each lexeme sits,
    which line it is on, where the end-of-input token and the error reports
    come from. The lemmas here are about any run of segments that spans, or
    is shaped like the segmentation of, the text from some character on;
    `OutputFacts` applies them to the segmentation of a whole source. */
module Layout {
  import opened Tokens
  import opened Lexical
  import opened Shapes

  /** The segment `Next` finds at `k` fits there. */
  lemma NextFits(text: string, k: nat)
    requires k < |text|
    ensures Fits(text, k, Next(text, k))
  {
    var seg := Next(text, k);
    NextShape(text, k);
    CountBeforeGrows(text, k, k + |seg.text|, UnrecognisedChar);
  }

  /** Non-empty segments whose texts, joined, give the text from `k` on
      span it from `k`. */
  lemma {:induction false} ConcatSpans(text: string, k: nat, segs: seq<Segment>)
    requires k <= |text| && Concat(segs) == text[k..]
    requires Spelled(segs)
    decreases |segs|
    ensures Spans(text, k, segs)
  {
    if segs != [] {
      var t := segs[0].text;
      var k1 := k + |t|;
      assert Concat(segs) == t + Concat(segs[1..]);
      assert text[k..] == t + Concat(segs[1..]);
      assert t == text[k..][..|t|] == text[k .. k1];
      assert Concat(segs[1..]) == text[k..][|t|..] == text[k1..];
      ConcatSpans(text, k1, segs[1..]);
      SpansHead(text, k, segs);
    }
  }

  /** The segments of `text[k..]` lie end to end in it. */
  lemma SegmentsSpan(text: string, k: nat)
    requires k <= |text|
    ensures Spans(text, k, SegmentsFrom(text, k))
  {
    SegmentsFromCover(text, k);
    SegmentsShaped(text, k);
    ShapedSpelled(text, k, SegmentsFrom(text, k));
    ConcatSpans(text, k, SegmentsFrom(text, k));
  }

  /** Every segment of `text[k..]` fits where it lies. */
  lemma {:induction false} SegmentsShaped(text: string, k: nat)
    requires k <= |text|
    decreases |text| - k
    ensures Shaped(text, k, SegmentsFrom(text, k))
  {
    if k < |text| {
      var segs := SegmentsFrom(text, k);
      SegmentsFromFirst(text, k);
      var k1 := k + |segs[0].text|;
      assert segs[1..] == SegmentsFrom(text, k1);
      NextFits(text, k);
      SegmentsShaped(text, k1);
      ShapedHead(text, k, segs);
    }
  }

  /** `text` has no `//` at or after `k`. */
  predicate NoCommentFrom(text: string, k: nat) {
    forall j :: k <= j && j + 1 < |text| ==> !(text[j] == '/' && text[j + 1] == '/')
  }

  /** Without a `//`, no segment is a comment. */
  lemma {:induction false} NoCommentSegments(text: string, k: nat)
    requires k <= |text| && NoCommentFrom(text, k)
    decreases |text| - k
    ensures var segs := SegmentsFrom(text, k);
      forall i :: 0 <= i < |segs| ==> !segs[i].piece.Comment?
  {
    if k < |text| {
      var segs := SegmentsFrom(text, k);
      SegmentsFromFirst(text, k);
      var k1 := k + |segs[0].text|;
      assert segs[1..] == SegmentsFrom(text, k1);
      NextLexeme(text, k);
      assert !segs[0].piece.Comment?;
      NoCommentSegments(text, k1);
      forall i | 0 <= i < |segs|
        ensures !segs[i].piece.Comment?
      {
        if i > 0 {
          assert segs[i] == segs[1..][i - 1];
        }
      }
    }
  }

  /** Token `t`'s lexeme is the stretch of `text` beginning at character
      `at`. */
  predicate LexemeAt(text: string, t: Token, at: nat) {
    at + |t.lexeme| <= |text| && text[at .. at + |t.lexeme|] == t.lexeme
  }

  /** There is one recorded start per token. */
  lemma {:induction false} LengthsAgree(segs: seq<Segment>, line: nat, pos: nat)
    decreases |segs|
    ensures |LexemeStarts(segs, pos)| == |TokensOf(segs, line)|
  {
    if segs != [] {
      LengthsAgree(segs[1..], LineAfter(segs[0], line), pos + |segs[0].text|);
    }
  }

  /** Token `i` of a run of segments: the first segment's own token, or
      token `i1` of the rest, with the same recorded start. */
  lemma TokenStep(segs: seq<Segment>, line: nat, pos: nat, i: nat)
    requires segs != [] && i < |TokensOf(segs, line)|
    ensures |LexemeStarts(segs, pos)| == |TokensOf(segs, line)|
    ensures var seg := segs[0];
      if seg.piece.Lexeme? && i == 0 then
        && TokensOf(segs, line)[i] == Token(seg.piece.kind, seg.text, line)
        && LexemeStarts(segs, pos)[i] == pos
      else
        var i1 := if seg.piece.Lexeme? then i - 1 else i;
        var rest, line1, pos1 := segs[1..], LineAfter(seg, line), pos + |seg.text|;
        && i1 < |TokensOf(rest, line1)|
        && i1 < |LexemeStarts(rest, pos1)|
        && TokensOf(segs, line)[i] == TokensOf(rest, line1)[i1]
        && LexemeStarts(segs, pos)[i] == LexemeStarts(rest, pos1)[i1]
  {
    LengthsAgree(segs, line, pos);
    LengthsAgree(segs[1..], LineAfter(segs[0], line), pos + |segs[0].text|);
  }

  /** Token `i` of segments spanning `text` from `k` sits in the text at
      its recorded start, at or after `k`. */
  lemma {:induction false} TokenPlaced(text: string, k: nat, segs: seq<Segment>, line: nat, i: nat)
    requires k <= |text| && Spans(text, k, segs)
    requires i < |TokensOf(segs, line)|
    decreases |segs|
    ensures |LexemeStarts(segs, k)| == |TokensOf(segs, line)|
    ensures k <= LexemeStarts(segs, k)[i]
    ensures LexemeAt(text, TokensOf(segs, line)[i], LexemeStarts(segs, k)[i])
  {
    var seg := segs[0];
    var toks, starts := TokensOf(segs, line), LexemeStarts(segs, k);
    TokenStep(segs, line, k, i);
    SpansTail(text, k, segs);
    if seg.piece.Lexeme? && i == 0 {
      assert seg.text == text[k .. k + |seg.text|];
      assert toks[i] == Token(seg.piece.kind, seg.text, line) && starts[i] == k;
    } else {
      var k1, line1 := k + |seg.text|, LineAfter(seg, line);
      var i1 := if seg.piece.Lexeme? then i - 1 else i;
      assert k1 <= |text|;
      assert i1 < |TokensOf(segs[1..], line1)|;
      TokenPlaced(text, k1, segs[1..], line1, i1);
      assert toks[i] == TokensOf(segs[1..], line1)[i1];
      assert starts[i] == LexemeStarts(segs[1..], k1)[i1];
    }
  }

  /** Token `i` of shaped segments from `k` is on `line` plus the number of
      newlines between `k` and its start. */
  lemma {:induction false} TokenLine(text: string, k: nat, segs: seq<Segment>, line: nat, i: nat)
    requires k <= |text| && Shaped(text, k, segs)
    requires i < |TokensOf(segs, line)|
    decreases |segs|
    ensures |LexemeStarts(segs, k)| == |TokensOf(segs, line)|
    ensures k <= LexemeStarts(segs, k)[i] <= |text|
    ensures TokensOf(segs, line)[i].line + CountBefore(text, k, NewlineChar)
      == line + CountBefore(text, LexemeStarts(segs, k)[i], NewlineChar)
  {
    var seg := segs[0];
    var toks, starts := TokensOf(segs, line), LexemeStarts(segs, k);
    TokenStep(segs, line, k, i);
    ShapedTail(text, k, segs);
    var k1, line1 := k + |seg.text|, LineAfter(seg, line);
    if seg.piece.Lexeme? && i == 0 {
      assert toks[i].line == line && starts[i] == k;
    } else {
      var i1 := if seg.piece.Lexeme? then i - 1 else i;
      assert k1 <= |text|;
      assert i1 < |TokensOf(segs[1..], line1)|;
      TokenLine(text, k1, segs[1..], line1, i1);
      assert toks[i] == TokensOf(segs[1..], line1)[i1];
      assert starts[i] == LexemeStarts(segs[1..], k1)[i1];
      assert line1 + CountBefore(text, k, NewlineChar) == line + CountBefore(text, k1, NewlineChar);
    }
  }

  /** Lexemes come in source order and do not overlap. */
  lemma {:induction false} TokensOrdered(text: string, k: nat, segs: seq<Segment>, line: nat, i: nat, j: nat)
    requires k <= |text| && Spans(text, k, segs)
    requires i < j < |TokensOf(segs, line)|
    decreases |segs|
    ensures |LexemeStarts(segs, k)| == |TokensOf(segs, line)|
    ensures LexemeStarts(segs, k)[i] + |TokensOf(segs, line)[i].lexeme| <= LexemeStarts(segs, k)[j]
  {
    var seg := segs[0];
    var toks, starts := TokensOf(segs, line), LexemeStarts(segs, k);
    var k1, line1 := k + |seg.text|, LineAfter(seg, line);
    TokenStep(segs, line, k, i);
    TokenStep(segs, line, k, j);
    SpansTail(text, k, segs);
    assert k1 <= |text|;
    var toks1, starts1 := TokensOf(segs[1..], line1), LexemeStarts(segs[1..], k1);
    var j1 := if seg.piece.Lexeme? then j - 1 else j;
    assert j1 < |toks1| && starts[j] == starts1[j1];
    if seg.piece.Lexeme? && i == 0 {
      TokenPlaced(text, k1, segs[1..], line1, j1);
      assert toks[i].lexeme == seg.text && starts[i] == k;
    } else {
      var i1 := if seg.piece.Lexeme? then i - 1 else i;
      assert i1 < j1;
      TokensOrdered(text, k1, segs[1..], line1, i1, j1);
      assert toks[i] == toks1[i1] && starts[i] == starts1[i1];
    }
  }

  /** Shaped segments are spelled. */
  lemma {:induction false} ShapedSpelled(text: string, k: nat, segs: seq<Segment>)
    requires k <= |text| && Shaped(text, k, segs)
    decreases |segs|
    ensures Spelled(segs)
  {
    if segs != [] {
      ShapedTail(text, k, segs);
      ShapedSpelled(text, k + |segs[0].text|, segs[1..]);
    }
  }

  /** Token `i` of spelled segments is a non-empty spelling of a kind other
      than end-of-input. */
  lemma {:induction false} TokenShape(segs: seq<Segment>, line: nat, i: nat)
    requires Spelled(segs)
    requires i < |TokensOf(segs, line)|
    decreases |segs|
    ensures var t := TokensOf(segs, line)[i];
      t.kind != Eof && t.lexeme == Spelling(t.kind) && t.lexeme != []
  {
    var seg := segs[0];
    var toks := TokensOf(segs, line);
    TokenStep(segs, line, 0, i);
    if seg.piece.Lexeme? && i == 0 {
      assert toks[i] == Token(seg.piece.kind, seg.text, line);
    } else {
      var line1 := LineAfter(seg, line);
      var i1 := if seg.piece.Lexeme? then i - 1 else i;
      assert i1 < |TokensOf(segs[1..], line1)|;
      TokenShape(segs[1..], line1, i1);
      assert toks[i] == TokensOf(segs[1..], line1)[i1];
    }
  }

  /** There is one recorded position per error. */
  lemma {:induction false} ErrorLengthsAgree(segs: seq<Segment>, line: nat, pos: nat)
    decreases |segs|
    ensures |ErrorStarts(segs, pos)| == |ErrorsOf(segs, line)|
  {
    if segs != [] {
      ErrorLengthsAgree(segs[1..], LineAfter(segs[0], line), pos + |segs[0].text|);
    }
  }

  /** Error `i` of a run of segments: the first segment's own error, or
      error `i1` of the rest, with the same recorded position. */
  lemma ErrorStep(segs: seq<Segment>, line: nat, pos: nat, i: nat)
    requires segs != [] && i < |ErrorsOf(segs, line)|
    ensures |ErrorStarts(segs, pos)| == |ErrorsOf(segs, line)|
    ensures var seg := segs[0];
      if seg.piece.Unexpected? && i == 0 then
        ErrorsOf(segs, line)[i] == line && ErrorStarts(segs, pos)[i] == pos
      else
        var i1 := if seg.piece.Unexpected? then i - 1 else i;
        var rest, line1, pos1 := segs[1..], LineAfter(seg, line), pos + |seg.text|;
        && i1 < |ErrorsOf(rest, line1)|
        && i1 < |ErrorStarts(rest, pos1)|
        && ErrorsOf(segs, line)[i] == ErrorsOf(rest, line1)[i1]
        && ErrorStarts(segs, pos)[i] == ErrorStarts(rest, pos1)[i1]
  {
    ErrorLengthsAgree(segs, line, pos);
    ErrorLengthsAgree(segs[1..], LineAfter(segs[0], line), pos + |segs[0].text|);
  }

  /** Error `i` of shaped segments from `k` comes from an unrecognised
      character at its recorded position, and cites `line` plus the number
      of newlines between `k` and that character. */
  lemma {:induction false} ErrorPlaced(text: string, k: nat, segs: seq<Segment>, line: nat, i: nat)
    requires k <= |text| && Shaped(text, k, segs)
    requires i < |ErrorsOf(segs, line)|
    decreases |segs|
    ensures |ErrorStarts(segs, k)| == |ErrorsOf(segs, line)|
    ensures k <= ErrorStarts(segs, k)[i] < |text|
    ensures Unrecognised(text[ErrorStarts(segs, k)[i]])
    ensures ErrorsOf(segs, line)[i] + CountBefore(text, k, NewlineChar)
      == line + CountBefore(text, ErrorStarts(segs, k)[i], NewlineChar)
  {
    var seg := segs[0];
    var errs, at := ErrorsOf(segs, line), ErrorStarts(segs, k);
    ErrorStep(segs, line, k, i);
    ShapedTail(text, k, segs);
    var k1, line1 := k + |seg.text|, LineAfter(seg, line);
    if seg.piece.Unexpected? && i == 0 {
      assert errs[i] == line && at[i] == k;
      assert Unrecognised(text[k]);
    } else {
      var i1 := if seg.piece.Unexpected? then i - 1 else i;
      assert k1 <= |text|;
      assert i1 < |ErrorsOf(segs[1..], line1)|;
      ErrorPlaced(text, k1, segs[1..], line1, i1);
      assert errs[i] == ErrorsOf(segs[1..], line1)[i1];
      assert at[i] == ErrorStarts(segs[1..], k1)[i1];
      assert line1 + CountBefore(text, k, NewlineChar) == line + CountBefore(text, k1, NewlineChar);
    }
  }

  /** Errors are reported in source order. */
  lemma {:induction false} ErrorsOrdered(text: string, k: nat, segs: seq<Segment>, line: nat, i: nat, j: nat)
    requires k <= |text| && Shaped(text, k, segs)
    requires i < j < |ErrorsOf(segs, line)|
    decreases |segs|
    ensures |ErrorStarts(segs, k)| == |ErrorsOf(segs, line)|
    ensures ErrorStarts(segs, k)[i] < ErrorStarts(segs, k)[j]
  {
    var seg := segs[0];
    var at := ErrorStarts(segs, k);
    var k1, line1 := k + |seg.text|, LineAfter(seg, line);
    ErrorStep(segs, line, k, i);
    ErrorStep(segs, line, k, j);
    ShapedTail(text, k, segs);
    assert k1 <= |text|;
    var at1 := ErrorStarts(segs[1..], k1);
    var j1 := if seg.piece.Unexpected? then j - 1 else j;
    assert j1 < |ErrorsOf(segs[1..], line1)| && at[j] == at1[j1];
    if seg.piece.Unexpected? && i == 0 {
      ErrorPlaced(text, k1, segs[1..], line1, j1);
      assert at[i] == k;
    } else {
      var i1 := if seg.piece.Unexpected? then i - 1 else i;
      assert i1 < j1;
      ErrorsOrdered(text, k1, segs[1..], line1, i1, j1);
      assert at[i] == at1[i1];
    }
  }

  /** At most one error per unrecognised character from `k` on, and exactly
      one when no segment is a comment (a comment may hide some). */
  lemma {:induction false} ErrorCount(text: string, k: nat, segs: seq<Segment>, line: nat)
    requires k <= |text| && Shaped(text, k, segs)
    decreases |segs|
    ensures |ErrorsOf(segs, line)| + CountBefore(text, k, UnrecognisedChar)
      <= Count(text, UnrecognisedChar)
    ensures (forall i :: 0 <= i < |segs| ==> !segs[i].piece.Comment?) ==>
      |ErrorsOf(segs, line)| + CountBefore(text, k, UnrecognisedChar)
        == Count(text, UnrecognisedChar)
  {
    if segs != [] {
      var seg := segs[0];
      var k1, line1 := k + |seg.text|, LineAfter(seg, line);
      var e := if seg.piece.Unexpected? then 1 else 0;
      ShapedTail(text, k, segs);
      assert CountBefore(text, k1, UnrecognisedChar) >= CountBefore(text, k, UnrecognisedChar) + e;
      assert |ErrorsOf(segs, line)| == e + |ErrorsOf(segs[1..], line1)|;
      ErrorCount(text, k1, segs[1..], line1);
      if forall i :: 0 <= i < |segs| ==> !segs[i].piece.Comment? {
        assert !seg.piece.Comment?;
        assert CountBefore(text, k1, UnrecognisedChar) == CountBefore(text, k, UnrecognisedChar) + e;
        assert forall i :: 0 <= i < |segs[1..]| ==> segs[1..][i] == segs[i + 1];
      }
    }
  }
}

/** How a run of segments lies in the text it came from: end to end, and
    each with the shape `Next` gives its segments. */
module Shapes {
  import opened Tokens
  import opened Lexical

  /** `segs` lie end to end in `text` from character `k` to its end: each
      is non-empty and is the stretch of the text it covers. */
  predicate Spans(text: string, k: nat, segs: seq<Segment>)
    requires k <= |text|
    decreases |segs|
  {
    if segs == [] then k == |text|
    else
      var k1 := k + |segs[0].text|;
      && 0 < |segs[0].text| && k1 <= |text|
      && segs[0].text == text[k .. k1]
      && Spans(text, k1, segs[1..])
  }

  /** `seg`, taken to begin at character `k` of `text`, has the shape every
      segment `Next` produces: non-empty; a lexeme spells its kind, which
      is not end-of-input; exactly a newline segment covers a newline; an
      unexpected segment is one unrecognised character, and any other
      segment except a comment covers recognised characters only. */
  predicate Fits(text: string, k: nat, seg: Segment) {
    var k1 := k + |seg.text|;
    && 0 < |seg.text| && k1 <= |text|
    && (seg.piece.Lexeme? ==> seg.piece.kind != Eof && seg.text == Spelling(seg.piece.kind))
    && CountBefore(text, k1, NewlineChar)
         == CountBefore(text, k, NewlineChar) + (if seg.piece.Newline? then 1 else 0)
    && CountBefore(text, k1, UnrecognisedChar)
         >= CountBefore(text, k, UnrecognisedChar) + (if seg.piece.Unexpected? then 1 else 0)
    && (!seg.piece.Comment? ==>
          CountBefore(text, k1, UnrecognisedChar)
            == CountBefore(text, k, UnrecognisedChar) + (if seg.piece.Unexpected? then 1 else 0))
    && (seg.piece.Unexpected? ==> Unrecognised(text[k]))
  }

  /** Every segment of `segs`, laid end to end from character `k`, fits
      where it lies, and the last ends with the text. */
  predicate Shaped(text: string, k: nat, segs: seq<Segment>)
    requires k <= |text|
    decreases |segs|
  {
    if segs == [] then k == |text|
    else Fits(text, k, segs[0]) && Shaped(text, k + |segs[0].text|, segs[1..])
  }

  /** Every segment among `segs` is non-empty, and every lexeme spells its
      kind, which is not end-of-input. */
  predicate Spelled(segs: seq<Segment>)
    decreases |segs|
  {
    segs != [] ==>
      && segs[0].text != []
      && (segs[0].piece.Lexeme? ==>
            segs[0].piece.kind != Eof && segs[0].text == Spelling(segs[0].piece.kind))
      && Spelled(segs[1..])
  }

  /** The first of shaped segments fits where it lies, and the others are
      shaped from where it ends. */
  lemma ShapedTail(text: string, k: nat, segs: seq<Segment>)
    requires k <= |text| && Shaped(text, k, segs) && segs != []
    ensures Fits(text, k, segs[0])
    ensures k + |segs[0].text| <= |text| && Shaped(text, k + |segs[0].text|, segs[1..])
  {
  }

  /** Segments are shaped from `k` when the first fits there and the
      others are shaped from where it ends. */
  lemma ShapedHead(text: string, k: nat, segs: seq<Segment>)
    requires k <= |text| && segs != [] && Fits(text, k, segs[0])
    requires Shaped(text, k + |segs[0].text|, segs[1..])
    ensures Shaped(text, k, segs)
  {
  }

  /** Segments span the text from `k` when the first covers it from `k`
      and the others span it from where the first ends. */
  lemma SpansHead(text: string, k: nat, segs: seq<Segment>)
    requires segs != [] && 0 < |segs[0].text| && k + |segs[0].text| <= |text|
    requires segs[0].text == text[k .. k + |segs[0].text|]
    requires Spans(text, k + |segs[0].text|, segs[1..])
    ensures Spans(text, k, segs)
  {
  }

  /** The first of spanning segments is the stretch of text it covers, and
      the others span the text from where it ends. */
  lemma SpansTail(text: string, k: nat, segs: seq<Segment>)
    requires k <= |text| && Spans(text, k, segs) && segs != []
    ensures 0 < |segs[0].text| && k + |segs[0].text| <= |text|
    ensures segs[0].text == text[k .. k + |segs[0].text|]
    ensures Spans(text, k + |segs[0].text|, segs[1..])
  {
  }
}

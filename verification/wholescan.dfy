/** The whole scan (`scan_tokens`): the loop that marks the start of a
    lexeme and runs one step at a time until the cursor reaches the end,
    then appends the end-of-input token. It yields exactly the tokens and
    errors of the source's segmentation. */
module WholeScan {
  import opened Wrappers
  import opened Unicode
  import opened Tokens
  import opened Lexical
  import opened Scanning
  import opened Steps

  /** What scanning a whole source must yield: the tokens of its segments,
      then one end-of-input token on line 1 plus the number of newlines; and
      one error line per unexpected segment. */
  function Expected(source: string): Output {
    Output(
      TokensOf(Segments(source), 1) + [Token(Eof, "", 1 + Newlines(source))],
      ErrorsOf(Segments(source), 1))
  }

  /** One turn of the loop in `scan_tokens`: `start` is set to `current` and
      one token is scanned. Seen at the character level, the cursor moves
      from character `k` past the segment that begins there, and the part
      of the output still to come is the same before and after. */
  method ScanStep(s: Scanner, ghost k: nat) returns (r: Scanner, ghost k1: nat)
    requires Valid(s) && IndexOf(s.source, s.current) == Some(k) && k < |s.source|
    ensures Valid(r) && r.source == s.source
    ensures IndexOf(s.source, r.current) == Some(k1) && k < k1 <= |s.source|
    ensures FeedAll(TallyOf(r), SegmentsFrom(s.source, k1)) == FeedAll(TallyOf(s), SegmentsFrom(s.source, k))
  {
    var s0 := s.(start := s.current);
    ghost var seg := Next(s.source, k);
    r := Turn(s0, k);
    FeedStep(TallyOf(s), s.source, k);
    k1 := k + |seg.text|;
  }

  /** `scan_tokens` from any valid state: the tokens and errors already
      held, followed by those of the segments of the unread input, and an
      end-of-input token on the line reached. */
  method ScanTokens(s: Scanner) returns (out: Output)
    requires Valid(s)
    ensures IndexOf(s.source, s.current).value <= |s.source|
    ensures var t := FeedAll(TallyOf(s), SegmentsFrom(s.source, IndexOf(s.source, s.current).value));
      out == Output(t.tokens + [Token(Eof, "", t.line)], t.errors)
  {
    var src := s.source;
    ghost var k0 := IndexOf(src, s.current).value;
    BoundaryWithin(src, s.current);
    ghost var goal := FeedAll(TallyOf(s), SegmentsFrom(src, k0));
    var sc := s;
    ghost var k := k0;
    while !IsAtEnd(sc)
      invariant Valid(sc) && sc.source == src
      invariant IndexOf(src, sc.current) == Some(k) && k <= |src|
      invariant FeedAll(TallyOf(sc), SegmentsFrom(src, k)) == goal
      decreases |src| - k
    {
      AtEndIff(sc);
      sc, k := ScanStep(sc, k);
    }
    AtEndIff(sc);
    out := Output(sc.tokens + [Token(Eof, "", sc.line)], sc.errors);
  }

  /** `Scanner::new` followed by `scan_tokens`, as `run` in `main.rs` does. */
  method Scan(source: string) returns (out: Output)
    ensures out == Expected(source)
  {
    var s := New(source);
    out := ScanTokens(s);
    FeedAllAppends(TallyOf(s), Segments(source));
    FeedAllLine(TallyOf(s), source, 0);
  }
}

# Lox scanner, modelled in Dafny

This project models the lexical scanner of a Lox interpreter written in Rust
(`src/scanner.rs`). It then proves what the scanner yields for every source
text.

The scanner makes one pass over its source string. It keeps two byte cursors
(`start`, where the current lexeme began, and `current`, the next unread
byte) and a line counter. Each step reads one character and does one of
these:

- emits a one-character punctuation token;
- emits a one- or two-character operator, looking ahead once for `=`;
- skips a `//` comment up to the newline;
- skips a space, carriage return or tab;
- counts a newline;
- reports an unexpected character and carries on.

At the end of the input it appends an end-of-input (`Eof`) token.

How the model is built:

- **Source and cursors.** The source is a `string` (a sequence of Unicode
  scalar values). The cursors stay byte offsets, as in Rust. `Unicode.Utf8Width` is `char::len_utf8`.
  - `Unicode.Offset` maps a character index to its byte offset.
  - `Unicode.IndexOf` maps a byte offset back to a character index. It is
    `None` off a character boundary, which is where Rust would panic.
- **Scanner (`Scanning`).** An immutable `Scanner` value. Each method of the
  Rust scanner that changes the state (`advance`, `advance_if`, `add_token`,
  `scan_token`) is a function from one state to the next. It also returns
  the character or flag when the Rust method returns one. `peek` and
  `is_at_end` are functions of the state. `scan_tokens`, whose loop runs
  until the end, is the method `WholeScan.ScanTokens`.
  - The error reporter is modelled by an `errors` field. Each report appends
    the line it cites.
  - `scan_token`'s `match` is split in two: `Classify` (the arms, by
    character) and `Act` (what each arm does).
- **Reference segmentation (`Lexical`).** An independent, character-level
  description of the same language.
  - `Next` gives the segment that begins at a character: a lexeme, a blank,
    a newline, a comment or an unexpected character. `SegmentsFrom` cuts a
    whole text into segments.
  - `TokensOf` and `ErrorsOf` say which tokens and errors the segments
    stand for.
  - `Feed` and `FeedAll` fold segments into a running tally of tokens,
    errors and line.
- **Per-step lemmas (`Steps`).** Each arm of `scan_token` consumes exactly
  the segment `Next` finds at the cursor.
- **Whole scan (`WholeScan`).** The `scan_tokens` loop yields exactly
  `Expected(source)`: the tokens of the segmentation followed by `Eof`, and
  one error per unexpected segment.
- **Properties (`Layout`, `OutputFacts`).** Proved about `Expected`: where
  each lexeme sits, its line, the single `Eof`, and where errors come from.
  The supporting predicates are in `Shapes`.
- **Worked examples (`Scenarios`).** Concrete inputs and their exact output.

## Model

| member | source | states |
|---|---|---|
| Unicode.Utf8Width | src/scanner.rs:89 | a character takes 1 to 4 bytes, and 1 exactly when it is ASCII (`len_utf8`) |
| Unicode.SliceChars | src/scanner.rs:79 | slicing the source between the byte boundaries of characters `i` and `j` gives exactly characters `i..j` |
| Scanning.New | src/scanner.rs:14-22 | a new scanner is valid, holds the source, has no tokens and no errors, is on line 1 with both cursors at byte 0 (character 0), and is at the end exactly when the source is empty |
| Scanning.AtEndIff | src/scanner.rs:118-120 | `is_at_end` holds exactly when the cursor is past the last character; otherwise a character can be decoded at the cursor |
| Scanning.Advance | src/scanner.rs:84-91 | `advance` returns the character at the cursor, moves `current` by its UTF-8 width, and lands on the next character boundary |
| Steps.AdvanceAt | src/scanner.rs:84-91 | from the boundary before character `k`, `advance` returns character `k`, moves by its width, and keeps the scanner valid at `k + 1` |
| Scanning.AdvanceIf | src/scanner.rs:93-106 | `advance_if` returns true exactly when not at the end and the next character is `expected`; then it moves by that width, otherwise it changes nothing |
| Steps.AdvanceIfAt | src/scanner.rs:93-106 | at character `k`, `advance_if` consumes exactly when `k` is in range and holds `expected`, and the cursor is then at `k + 1`, else still at `k` |
| Scanning.Peek | src/scanner.rs:108-116 | away from the end, `peek` returns the character at the cursor without moving it |
| Scanning.AddToken | src/scanner.rs:78-82 | `add_token` appends one token of the given kind on the current line, whose lexeme is the source between the two cursors, and changes nothing else |
| Steps.AddTokenAt | src/scanner.rs:78-82 | with the cursors on characters `i` and `j`, the appended lexeme is exactly characters `i..j` of the source |
| Scanning.SkipComment | src/scanner.rs:65-67 | the comment loop keeps everything but `current`, and stops on the first newline at or after the cursor, or at the end |
| Scanning.Operator | src/scanner.rs:47-62 | after one of `! = < >`, exactly one token is appended and the cursor never moves back |
| Scanning.SlashOrComment | src/scanner.rs:63-71 | after `/`, the step keeps the scanner valid and only moves the cursor forward |
| Scanning.Act | src/scanner.rs:36-75 | every arm of the match keeps the scanner valid, keeps `start`, and moves the cursor and line only forward |
| Scanning.ScanToken | src/scanner.rs:34-76 | one `scan_token` call keeps the scanner valid and strictly advances `current`, which is why `scan_tokens` terminates |
| Steps.ClassifyAgrees | src/scanner.rs:36-75 | the arms of the match are the character classes of the reference segmentation: punctuation, the four operators, `/`, blanks, newline, anything else |
| Steps.PunctuationStep | src/scanner.rs:37-46 | a punctuation character gives one token, with that character as lexeme, on the current line; the cursor moves by one byte |
| Steps.OperatorPairStep | src/scanner.rs:47-62 | `!`, `=`, `<` or `>` followed by `=` gives the two-character kind with the two-character lexeme, and the cursor moves two bytes |
| Steps.OperatorSingleStep | src/scanner.rs:47-62 | `!`, `=`, `<` or `>` not followed by `=` gives the plain kind with a one-character lexeme, and the next character is left unread |
| Steps.OperatorStep | src/scanner.rs:47-62 | both operator cases together, and the step consumes exactly the segment the reference finds |
| Steps.CommentScan | src/scanner.rs:63-68 | `//` emits nothing, changes neither line nor errors, and moves the cursor to the first newline after it, or to the end |
| Steps.CommentSegment | src/scanner.rs:65 | the comment at `k` stops at a newline or at the end, and holds no newline |
| Steps.CommentStep | src/scanner.rs:63-68 | the comment step as a whole: no token, the newline left unread, and exactly the reference comment segment consumed |
| Steps.SlashScan | src/scanner.rs:63-71 | a `/` not followed by `/` gives one `Slash` token with lexeme `/`, and the cursor moves one byte |
| Steps.SlashStep | src/scanner.rs:63-71 | the lone-`/` step consumes exactly the reference `Slash` segment |
| Steps.BlankStep | src/scanner.rs:72 | space, `\r` and `\t` emit nothing and leave line and errors unchanged |
| Steps.NewlineStep | src/scanner.rs:73 | `\n` emits nothing and increases the line by exactly one |
| Steps.UnexpectedStep | src/scanner.rs:74 | any other character emits no token, appends one error citing the current line, and resumes right after that character, whatever its width |
| Steps.StepMatchesNext | src/scanner.rs:34-76 | from any character boundary, one `scan_token` consumes exactly the segment `Next` finds there, with that segment's token, error and line effect |
| Steps.Turn | src/scanner.rs:26-27 | a loop turn with `start` set to `current` consumes the segment at the cursor |
| WholeScan.ScanStep | src/scanner.rs:25-28 | one loop turn moves the cursor strictly forward, within the source, and leaves the output still to come unchanged |
| WholeScan.ScanTokens | src/scanner.rs:24-32 | from any valid state, `scan_tokens` yields the tokens and errors already held, then those of the unread input's segments, then `Eof` with an empty lexeme on the line reached |
| WholeScan.Scan | src/scanner.rs:14-32 | `new` then `scan_tokens` yields exactly the reference output for the source |
| Lexical.LineEnd | src/scanner.rs:65 | the comment end is the first newline at or after a position, or the end of the text |
| Lexical.NextShape | src/scanner.rs:36-75 | a lexeme segment spells its kind; only a newline segment covers a newline, and it covers one; an unexpected segment is one unrecognised character; a comment is exactly what starts with `//` |
| Lexical.SegmentsReassemble | src/scanner.rs:24-28 | joining the segments of a source gives the source back: every character is consumed exactly once, in order |
| Lexical.FeedAllAppends | src/scanner.rs:80-81 | feeding segments appends exactly their tokens and their errors to what was already emitted |
| Lexical.FeedAllLine | src/scanner.rs:73 | feeding the segments from character `k` adds to the line the number of newlines from `k` on |
| Layout.TokenPlaced | src/scanner.rs:79 | every token of spanning segments is found in the text at its character position in the source |
| Layout.TokensOrdered | src/scanner.rs:26 | token ranges of spanning segments come in text order and do not overlap |
| Layout.TokenLine | src/scanner.rs:73 | a token's line is the starting line plus the newlines between the start and the token |
| Layout.ErrorPlaced | src/scanner.rs:74 | every error comes from an unrecognised character and cites the starting line plus the newlines before it |
| Layout.ErrorCount | src/scanner.rs:74 | there are never more errors than unrecognised characters, and exactly as many when no segment is a comment |
| OutputFacts.EndsWithEof | src/scanner.rs:29-30 | the output ends with exactly one `Eof` token, with an empty lexeme and line 1 plus the number of newlines in the source |
| OutputFacts.LexemesAreSlices | src/scanner.rs:78-82 | every other token's lexeme is non-empty, spells its kind, sits in the source at its character position in the source, and is on line 1 plus the newlines before that position |
| OutputFacts.LexemesInOrder | src/scanner.rs:26 | lexemes appear in source order and their ranges do not overlap |
| OutputFacts.LinesNeverDecrease | src/scanner.rs:73 | token lines never decrease along the output, `Eof` included |
| OutputFacts.ErrorsAtUnexpected | src/scanner.rs:74 | each error comes from an unrecognised character at its character position in the source, cites line 1 plus the newlines before it, and errors come in source order |
| OutputFacts.ErrorsCount | src/scanner.rs:74 | at most one error per unrecognised character, and exactly one each when the source holds no `//` |
| Scenarios.ParenPlusParen | src/scanner.rs:37-44 | `(+)` scans to three one-character tokens and `Eof`, all on line 1, with no error |
| Scenarios.BangEqualAlone | src/scanner.rs:47-49 | `!=` is one two-character `BangEqual` token |
| Scenarios.BangAlone | src/scanner.rs:47-49 | `!` alone is `Bang`: looking ahead at the end consumes nothing |
| Scenarios.CommentThenPlus | src/scanner.rs:63-73 | `//…` then a newline and `+` yields only `+` and `Eof`, both on line 2, whatever the comment text |
| Scenarios.AtSign | src/scanner.rs:74 | `@` yields only `Eof` and one error citing line 1 |
| Scenarios.AccentThenPlus | src/scanner.rs:84-91 | in `é+`, the first step reads the two bytes of `é` as one character and reports it; the next starts at byte 2 and yields `+` |

## Left out

- The whole of `src/main.rs`: it reads files and stdin, prints tokens and sets exit codes. `WholeScan.Scan` stands for the call `run` makes.
- The text that `error` and `report` print (`src/main.rs:35-41`): a report is modelled only as the line number it cites, appended to `errors`.
- `Literal` and `Token::new`: the token module is not part of this model, and the literal slot is always `None` in the scanner, so tokens carry no literal.
- UTF-8 decoding: the source is taken as already-decoded characters. `Utf8Width` gives each character's byte width; no byte-level decoder is modelled.
- Rust's panics: on slicing or decoding off a character boundary, and `expect` in `advance` past the end. The model states these as preconditions (cursors on boundaries, not at the end), and every call made by the scan meets them.
- Scanning.Peek: does not state its `'\0'` result at the end of input. The only caller checks `is_at_end` first, so the value is never used.
- `usize` overflow of the cursors and of the line counter: integers are unbounded here. A source would need more than `usize::MAX` bytes or lines to overflow either.
- Scanning.Operator: states only that one token is appended and the cursor moves forward. The exact token and lexeme are stated by `Steps.OperatorPairStep` and `Steps.OperatorSingleStep`.
- Scanning.SlashOrComment: states only validity and forward motion. The comment and `Slash` outcomes are stated by `Steps.CommentScan` and `Steps.SlashScan`.
- Scanning.Act: states only validity and forward motion. What each arm does is stated by the `Steps.*Step` lemmas.

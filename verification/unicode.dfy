/** Byte offsets into text held as Unicode scalar values.

    The scanner's cursors are byte offsets into a UTF-8 string, while its
    input is modelled as a sequence of `char`s (Unicode scalar values). The
    byte offset of character `k` is the sum of the UTF-8 widths of the
    characters before it; a byte offset that is no such sum is not a
    character boundary, and slicing or decoding there makes Rust panic. */
module Unicode {
  import opened Wrappers

  /** Number of bytes UTF-8 uses for `c`, as Rust's `char::len_utf8`. */
  function Utf8Width(c: char): (w: nat)
    ensures 1 <= w <= 4
    ensures w == 1 <==> c as int < 0x80
  {
    if c as int < 0x80 then 1
    else if c as int < 0x800 then 2
    else if c as int < 0x1_0000 then 3
    else 4
  }

  /** Byte offset at which character `k` of `text` begins (for `k == |text|`,
      the byte length of the whole text). */
  function Offset(text: string, k: nat): (b: nat)
    requires k <= |text|
    ensures k <= b <= 4 * k
  {
    if k == 0 then 0 else Offset(text, k - 1) + Utf8Width(text[k - 1])
  }

  /** Byte length of `text`: Rust's `str::len`. */
  function ByteLen(text: string): nat {
    Offset(text, |text|)
  }

  /** Every character takes at least one byte, so offsets grow strictly. */
  lemma {:induction false} OffsetGrows(text: string, j: nat, k: nat)
    requires j <= k <= |text|
    ensures Offset(text, j) + (k - j) <= Offset(text, k)
    decreases k
  {
    if j < k {
      OffsetGrows(text, j, k - 1);
    }
  }

  /** Searches characters `k..|text|` for the one beginning at byte `b`. */
  function IndexFrom(text: string, b: nat, k: nat): (r: Option<nat>)
    requires k <= |text|
    decreases |text| - k
    ensures r.Some? ==> k <= r.value <= |text| && Offset(text, r.value) == b
  {
    var o := Offset(text, k);
    if o == b then Some(k)
    else if o > b then None
    else if k == |text| then None
    else IndexFrom(text, b, k + 1)
  }

  /** The search finds a boundary whenever there is one to find. */
  lemma {:induction false} IndexFromFinds(text: string, b: nat, k: nat, j: nat)
    requires k <= j <= |text| && Offset(text, j) == b
    decreases j - k
    ensures IndexFrom(text, b, k).Some?
  {
    OffsetGrows(text, k, j);
    if Offset(text, k) != b {
      IndexFromFinds(text, b, k + 1, j);
    }
  }

  /** The character index whose byte offset is `b`, or None when `b` is not a
      character boundary of `text` (Rust's `str::is_char_boundary`). */
  function IndexOf(text: string, b: nat): Option<nat> {
    IndexFrom(text, b, 0)
  }

  /** Byte `b` is the boundary before character `k` exactly when `b` is the
      offset of `k`: boundaries and character indices correspond one to one. */
  lemma BoundaryIff(text: string, b: nat, k: nat)
    ensures IndexOf(text, b) == Some(k) <==> k <= |text| && Offset(text, k) == b
  {
    var r := IndexOf(text, b);
    if k <= |text| && Offset(text, k) == b {
      IndexFromFinds(text, b, 0, k);
      var k' := r.value;
      if k' < k {
        OffsetGrows(text, k', k);
      } else if k < k' {
        OffsetGrows(text, k, k');
      }
    }
  }

  /** A boundary never lies past the end of the text. */
  lemma BoundaryWithin(text: string, b: nat)
    requires IndexOf(text, b).Some?
    ensures b <= ByteLen(text)
    ensures b == ByteLen(text) <==> IndexOf(text, b).value == |text|
  {
    var k := IndexOf(text, b).value;
    OffsetGrows(text, k, |text|);
  }

  /** The character beginning at byte `b`: `text[b..].chars().next()`. None at
      the end of the text and at a non-boundary, where the scanner panics. */
  function CharAt(text: string, b: nat): Option<char> {
    match IndexOf(text, b)
    case Some(k) => if k < |text| then Some(text[k]) else None
    case None => None
  }

  /** Decoding at the boundary before character `k` yields character `k`. */
  lemma CharAtBoundary(text: string, k: nat)
    requires k <= |text|
    ensures CharAt(text, Offset(text, k)) == if k < |text| then Some(text[k]) else None
  {
    BoundaryIff(text, Offset(text, k), k);
  }

  /** Offsets inside a slice are the whole text's offsets, shifted. */
  lemma {:induction false} SliceOffset(text: string, i: nat, j: nat, m: nat)
    requires i <= j <= |text| && m <= j - i
    ensures Offset(text[i..j], m) == Offset(text, i + m) - Offset(text, i)
    decreases m
  {
    if m > 0 {
      SliceOffset(text, i, j, m - 1);
      assert text[i..j][m - 1] == text[i + m - 1];
      OffsetGrows(text, i, i + m - 1);
    }
  }

  /** The byte slice `text[lo..hi]` of Rust, where `lo` and `hi` must be
      character boundaries with `lo <= hi` (otherwise Rust panics). */
  function Slice(text: string, lo: nat, hi: nat): (r: string)
    requires IndexOf(text, lo).Some? && IndexOf(text, hi).Some? && lo <= hi
    ensures ByteLen(r) == hi - lo
  {
    var i := IndexOf(text, lo).value;
    var j := IndexOf(text, hi).value;
    assert i <= j by {
      if j < i {
        OffsetGrows(text, j, i);
      }
    }
    SliceOffset(text, i, j, j - i);
    text[i..j]
  }

  /** Slicing between the boundaries of characters `i` and `j` gives exactly
      characters `i..j`. */
  lemma SliceChars(text: string, i: nat, j: nat)
    requires i <= j <= |text|
    ensures IndexOf(text, Offset(text, i)) == Some(i)
    ensures IndexOf(text, Offset(text, j)) == Some(j)
    ensures Offset(text, i) <= Offset(text, j)
    ensures Slice(text, Offset(text, i), Offset(text, j)) == text[i..j]
  {
    BoundaryIff(text, Offset(text, i), i);
    BoundaryIff(text, Offset(text, j), j);
    OffsetGrows(text, i, j);
  }
}

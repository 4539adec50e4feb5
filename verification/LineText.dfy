/** Characters of a line: where they start, in bytes and in columns. */
module LineText {

  newtype byte = x: int | 0 <= x < 256

  type Text = seq<byte>

  /** Width in columns and length in bytes of the character at the head of the text, shown at a column. */
  type Decoder = (int, Text) -> (int, int)

  /** Every character takes at least one byte and one column, and ends within the text. */
  ghost predicate Decodes(dec: Decoder) {
    forall col: int, s: Text :: s != [] ==> 0 < dec(col, s).0 && 0 < dec(col, s).1 <= |s|
  }

  /** Every byte is a character of its own. */
  ghost predicate SingleBytes(dec: Decoder) {
    forall col: int, s: Text :: s != [] ==> dec(col, s).1 == 1
  }

  /** Number of characters of s. */
  function Chars(dec: Decoder, s: Text, col: int): nat
    requires Decodes(dec)
    decreases |s|
  {
    if s == [] then 0
    else
      var (width, length) := dec(col, s);
      1 + Chars(dec, s[length..], col + width)
  }

  /** Column after i characters of s, the first of which is shown at col. */
  function ColAt(dec: Decoder, s: Text, col: int, i: nat): int
    requires Decodes(dec)
    decreases |s|
  {
    if s == [] || i == 0 then col
    else
      var (width, length) := dec(col, s);
      ColAt(dec, s[length..], col + width, i - 1)
  }

  /** Bytes taken up by i characters of s. */
  function OffAt(dec: Decoder, s: Text, col: int, i: nat): (off: nat)
    requires Decodes(dec)
    ensures off <= |s|
    decreases |s|
  {
    if s == [] || i == 0 then 0
    else
      var (width, length) := dec(col, s);
      length + OffAt(dec, s[length..], col + width, i - 1)
  }

  lemma OneOn(dec: Decoder, s: Text, col: int, i: nat)
    requires Decodes(dec) && s != [] && i > 0
    ensures 0 < dec(col, s).1 <= |s|
    ensures ColAt(dec, s, col, i) == ColAt(dec, s[dec(col, s).1..], col + dec(col, s).0, i - 1)
    ensures OffAt(dec, s, col, i) == dec(col, s).1 + OffAt(dec, s[dec(col, s).1..], col + dec(col, s).0, i - 1)
  {
  }

  /** The text from boundary i on is the rest of the line. */
  lemma {:induction false} RestOfLine(dec: Decoder, s: Text, col: int, i: nat)
    requires Decodes(dec) && i <= Chars(dec, s, col)
    ensures var rest, at := s[OffAt(dec, s, col, i)..], ColAt(dec, s, col, i);
            && Chars(dec, rest, at) == Chars(dec, s, col) - i
            && (rest == [] <==> i == Chars(dec, s, col))
    decreases |s|
  {
    if s != [] && i > 0 {
      var (width, length) := dec(col, s);
      var tail, at := s[length..], col + width;
      RestOfLine(dec, tail, at, i - 1);
      assert Chars(dec, s, col) == 1 + Chars(dec, tail, at);
      hide Chars, ColAt, OffAt, Decodes;
      OneOn(dec, s, col, i);
      assert tail[OffAt(dec, tail, at, i - 1)..] == s[OffAt(dec, s, col, i)..];
    }
  }

  /** Counting on from boundary i. */
  lemma {:induction false} CountOn(dec: Decoder, s: Text, col: int, i: nat, j: nat)
    requires Decodes(dec) && i + j <= Chars(dec, s, col)
    ensures var rest, at := s[OffAt(dec, s, col, i)..], ColAt(dec, s, col, i);
            && ColAt(dec, s, col, i + j) == ColAt(dec, rest, at, j)
            && OffAt(dec, s, col, i + j) == OffAt(dec, s, col, i) + OffAt(dec, rest, at, j)
    decreases |s|
  {
    if s != [] && i > 0 {
      var (width, length) := dec(col, s);
      var tail, at := s[length..], col + width;
      CountOn(dec, tail, at, i - 1, j);
      hide Chars, ColAt, OffAt, Decodes;
      OneOn(dec, s, col, i);
      OneOn(dec, s, col, i + j);
      assert i + j - 1 == i - 1 + j;
      assert tail[OffAt(dec, tail, at, i - 1)..] == s[OffAt(dec, s, col, i)..];
    }
  }

  /** One character on from boundary i. */
  lemma NextBoundary(dec: Decoder, s: Text, col: int, i: nat)
    requires Decodes(dec) && i < Chars(dec, s, col)
    ensures var off, at := OffAt(dec, s, col, i), ColAt(dec, s, col, i);
            && off < |s|
            && ColAt(dec, s, col, i + 1) == at + dec(at, s[off..]).0
            && OffAt(dec, s, col, i + 1) == off + dec(at, s[off..]).1
  {
    RestOfLine(dec, s, col, i);
    CountOn(dec, s, col, i, 1);
  }

  lemma {:induction false} ColumnsGrow(dec: Decoder, s: Text, col: int, i: nat, j: nat)
    requires Decodes(dec) && i < j <= Chars(dec, s, col)
    ensures ColAt(dec, s, col, i) < ColAt(dec, s, col, j)
    ensures OffAt(dec, s, col, i) < OffAt(dec, s, col, j)
    decreases j
  {
    NextBoundary(dec, s, col, j - 1);
    if i < j - 1 { ColumnsGrow(dec, s, col, i, j - 1); }
  }

  /** With single-byte characters boundaries are byte offsets. */
  lemma {:induction false} SingleByteBoundaries(dec: Decoder, s: Text, col: int, i: nat)
    requires Decodes(dec) && SingleBytes(dec) && i <= |s|
    ensures Chars(dec, s, col) == |s| && OffAt(dec, s, col, i) == i
    decreases |s|
  {
    if s != [] {
      SingleByteBoundaries(dec, s[1..], col + dec(col, s).0, if i == 0 then 0 else i - 1);
    }
  }

  // ----- The helpers of the editor, at character boundaries

  /** Byte offset of the first character at or past a column. */
  method LineOffset(dec: Decoder, s: Text, col: int, ghost i: nat) returns (off: nat)
    requires Decodes(dec) && i <= Chars(dec, s, 1) && col == ColAt(dec, s, 1, i)
    ensures off == OffAt(dec, s, 1, i)
  {
    var at, k := 1, 0;
    off := 0;
    while off < |s| && at < col
      invariant k <= i && off == OffAt(dec, s, 1, k) && at == ColAt(dec, s, 1, k)
      decreases i - k
    {
      NextBoundary(dec, s, 1, k);
      var (width, length) := dec(at, s[off..]);
      off, at, k := off + length, at + width, k + 1;
    }
    RestOfLine(dec, s, 1, k);
    if k < i { ColumnsGrow(dec, s, 1, k, i); }
  }

  /** Column of a byte offset that is a boundary. */
  method LineColumn(dec: Decoder, s: Text, off: nat, ghost i: nat) returns (col: int)
    requires Decodes(dec) && i <= Chars(dec, s, 1) && off == OffAt(dec, s, 1, i)
    ensures col == ColAt(dec, s, 1, i)
  {
    var at, k := 0, 0;
    col := 1;
    while at < off && at < |s|
      invariant k <= i && at == OffAt(dec, s, 1, k) && col == ColAt(dec, s, 1, k)
      decreases i - k
    {
      NextBoundary(dec, s, 1, k);
      var (width, length) := dec(col, s[at..]);
      at, col, k := at + length, col + width, k + 1;
    }
    if k < i { ColumnsGrow(dec, s, 1, k, i); }
  }

  /** Steps over up to n characters from a boundary; how many there were, and the column reached. */
  method SizeRegion(dec: Decoder, s: Text, col: int, off: nat, n: nat, ghost i: nat) returns (count: nat, at: int)
    requires Decodes(dec) && i <= Chars(dec, s, 1) && off == OffAt(dec, s, 1, i) && col == ColAt(dec, s, 1, i)
    ensures count == (if n <= Chars(dec, s, 1) - i then n else Chars(dec, s, 1) - i)
    ensures at == ColAt(dec, s, 1, i + count)
  {
    hide Chars, ColAt, OffAt;
    var cp := off;
    count, at := 0, col;
    while count < n && cp < |s|
      invariant i + count <= Chars(dec, s, 1) && count <= n
      invariant cp == OffAt(dec, s, 1, i + count) && at == ColAt(dec, s, 1, i + count)
    {
      RestOfLine(dec, s, 1, i + count);
      NextBoundary(dec, s, 1, i + count);
      var (width, length) := dec(at, s[cp..]);
      cp, at, count := cp + length, at + width, count + 1;
    }
    RestOfLine(dec, s, 1, i + count);
  }
}

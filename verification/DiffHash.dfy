/** The hash of a line, which disregards what the comparison is told to disregard. */
module DiffHash {
  import opened LineText

  const DIFF_IGNORE_WHITESPACE: bv32 := 0x0001
  const DIFF_IGNORE_CASE: bv32 := 0x0002
  const DIFF_COMPRESS_WHITESPACE: bv32 := 0x0010
  const DIFF_SUPPRESS_LEADING: bv32 := 0x0020
  const DIFF_SUPPRESS_TRAILING: bv32 := 0x0040
  const DIFF_SUPPRESS_LFCR: bv32 := 0x0080

  const MODULUS := 0x1_0000_0000

  predicate Has(flags: bv32, flag: bv32) { flags & flag != 0 }

  // ----- Characters

  const SPACE: byte := 0x20
  const CR: byte := 0x0d

  /** Tab, vertical tab, form feed and space; a carriage return is not blank. */
  predicate Blank(c: byte) { c == 0x09 || c == 0x0b || c == 0x0c || c == SPACE }

  /** The table for folding case: it moves the whole range of '@' to '_', not only the letters. */
  function Lower(c: byte): byte { if 0x40 <= c < 0x60 then c + 0x20 else c }

  function Translated(flags: bv32, c: byte): byte {
    if Has(flags, DIFF_IGNORE_CASE) then Lower(c) else c
  }

  // ----- The value of a string

  /** The string as digits in base 127 after a leading one. */
  function Value(s: Text): nat {
    if s == [] then 1 else Value(s[..|s| - 1]) * 127 + s[|s| - 1] as int
  }

  lemma NextDigit(s: Text, c: byte)
    ensures Value(s + [c]) % MODULUS == (Value(s) % MODULUS * 127 + c as int) % MODULUS
  {
    assert (s + [c])[..|s|] == s;
    var q, r := Value(s) / MODULUS, Value(s) % MODULUS;
    assert Value(s + [c]) == MODULUS * (127 * q) + (r * 127 + c as int);
    SameRemainder(127 * q, r * 127 + c as int);
  }

  lemma SameRemainder(k: int, v: int)
    ensures (MODULUS * k + v) % MODULUS == v % MODULUS
  {
  }

  // ----- Normal forms

  function Map(flags: bv32, s: Text): (r: Text)
    ensures |r| == |s| && forall i :: 0 <= i < |s| ==> r[i] == Translated(flags, s[i])
  {
    seq(|s|, i requires 0 <= i < |s| => Translated(flags, s[i]))
  }

  /** s without its blanks and carriage returns. */
  function Stripped(s: Text): Text {
    if s == [] then [] else (if Blank(s[0]) || s[0] == CR then [] else [s[0]]) + Stripped(s[1..])
  }

  function WithoutLeading(s: Text): Text {
    if s != [] && Blank(s[0]) then WithoutLeading(s[1..]) else s
  }

  function WithoutTrailing(s: Text): Text {
    if s != [] && Blank(s[|s| - 1]) then WithoutTrailing(s[..|s| - 1]) else s
  }

  /** Every run of blanks as one space, except that none is left at the end. */
  function Compressed(s: Text): (r: Text)
    ensures |r| <= |s|
    decreases |s|
  {
    if WithoutLeading(s) == [] then []
    else if Blank(s[0]) then LeadingShorter(s); [SPACE] + Compressed(WithoutLeading(s))
    else [s[0]] + Compressed(s[1..])
  }

  lemma {:induction false} LeadingShorter(s: Text)
    ensures |WithoutLeading(s)| <= |s|
    ensures s != [] && Blank(s[0]) ==> |WithoutLeading(s)| < |s|
    ensures WithoutLeading(s) == s[|s| - |WithoutLeading(s)|..]
    ensures forall i :: 0 <= i < |s| - |WithoutLeading(s)| ==> Blank(s[i])
    ensures WithoutLeading(s) != [] ==> !Blank(WithoutLeading(s)[0])
  {
    if s != [] && Blank(s[0]) { LeadingShorter(s[1..]); }
  }

  lemma {:induction false} TrailingShorter(s: Text)
    ensures WithoutTrailing(s) <= s
    ensures forall i :: |WithoutTrailing(s)| <= i < |s| ==> Blank(s[i])
    ensures WithoutTrailing(s) != [] ==> !Blank(WithoutTrailing(s)[|WithoutTrailing(s)| - 1])
  {
    if s != [] && Blank(s[|s| - 1]) { TrailingShorter(s[..|s| - 1]); }
  }

  function WithoutCR(flags: bv32, s: Text): Text {
    if s != [] && Has(flags, DIFF_SUPPRESS_LFCR) && s[|s| - 1] == CR then s[..|s| - 1] else s
  }

  /** What of a line is left of its white space under the flags. */
  function Kept(flags: bv32, line: Text): Text {
    var s := WithoutCR(flags, line);
    if Has(flags, DIFF_IGNORE_WHITESPACE) then Stripped(s)
    else
      var s := if Has(flags, DIFF_SUPPRESS_LEADING) then WithoutLeading(s) else s;
      var s := if Has(flags, DIFF_SUPPRESS_TRAILING) then WithoutTrailing(s) else s;
      if Has(flags, DIFF_COMPRESS_WHITESPACE) then Compressed(s) else s
  }

  /** What of a line counts under the flags. */
  function NormalForm(flags: bv32, line: Text): Text { Map(flags, Kept(flags, line)) }

  // ----- The code

  /** Length of the blank start of text. */
  method TrimLeading(text: Text) returns (trim: nat)
    ensures trim <= |text| && text[trim..] == WithoutLeading(text)
  {
    trim := 0;
    while trim < |text|
      invariant trim <= |text| && WithoutLeading(text[trim..]) == WithoutLeading(text)
    {
      if !Blank(text[trim]) { return; }
      assert text[trim..][1..] == text[trim + 1..];
      trim := trim + 1;
    }
  }

  /** Length of text without its blank end. */
  method TrimTrailing(text: Text) returns (length: nat)
    ensures length <= |text| && text[..length] == WithoutTrailing(text)
  {
    length := |text|;
    assert text[..length] == text;
    while length != 0
      invariant length <= |text| && WithoutTrailing(text[..length]) == WithoutTrailing(text)
    {
      if !Blank(text[length - 1]) { return; }
      assert text[..length][..length - 1] == text[..length - 1];
      length := length - 1;
    }
  }

  function Next(sum: nat, c: byte): nat { (sum * 127 + c as int) % MODULUS }

  /** What the sum over s comes to. */
  function Sum(flags: bv32, s: Text): nat { Value(Map(flags, s)) % MODULUS }

  /** Sums all characters. */
  method SumAll(buf: Text, flags: bv32) returns (sum: nat)
    ensures sum == Sum(flags, buf)
  {
    hide Sum, Next, Translated;
    sum := 1;
    var i := 0;
    SumNext(flags, [], SPACE);
    while i < |buf|
      invariant i <= |buf| && sum == Sum(flags, buf[..i])
    {
      SumNext(flags, buf[..i], buf[i]);
      assert buf[..i + 1] == buf[..i] + [buf[i]];
      sum := Next(sum, Translated(flags, buf[i]));
      i := i + 1;
    }
    assert buf[..i] == buf;
  }

  /** Sums all characters but white space. */
  method SumStripped(buf: Text, flags: bv32) returns (sum: nat)
    ensures sum == Sum(flags, Stripped(buf))
  {
    hide Sum, Next, Translated, Blank, Stripped;
    sum := 1;
    var i := 0;
    NothingYet(flags);
    while i < |buf|
      invariant i <= |buf| && sum == Sum(flags, Stripped(buf[..i]))
    {
      var c := buf[i];
      StrippedNext(buf[..i], c);
      assert buf[..i + 1] == buf[..i] + [c];
      SumNext(flags, Stripped(buf[..i]), c);
      assert Stripped(buf[..i]) + [] == Stripped(buf[..i]);
      i := i + 1;
      if Blank(c) || c == CR { continue; }
      sum := Next(sum, Translated(flags, c));
    }
    assert buf[..i] == buf;
  }

  /** Sums all characters, with one space for every run of blanks before another character. */
  method SumCompressed(buf: Text, flags: bv32) returns (sum: nat)
    ensures sum == Sum(flags, Compressed(buf))
  {
    hide Sum, Next, Translated, Blank, Compressed;
    sum := 1;
    var space, i := 0, 0;
    NothingYet(flags);
    while i < |buf|
      invariant 0 <= i <= |buf| && 0 <= space && sum == Sum(flags, Compressed(buf[..i]))
      invariant space != 0 <==> EndsBlank(buf[..i])
    {
      var c := buf[i];
      ghost var s := buf[..i];
      CompressedNext(s, c);
      assert buf[..i + 1] == s + [c];
      SumNext(flags, Compressed(s), SPACE);
      SumNext(flags, Compressed(s) + (if EndsBlank(s) then [SPACE] else []), c);
      assert Compressed(s) + [] == Compressed(s);
      i := i + 1;
      if Blank(c) {
        space := space + 1;
        continue;
      }
      if space != 0 {
        sum := Next(sum, SPACE);
        space := 0;
      }
      sum := Next(sum, Translated(flags, c));
    }
    assert buf[..i] == buf;
  }

  /** The hash of a line is the value of its normal form in 32 bits. */
  method DiffHash(data: Text, flags: bv32) returns (sum: nat)
    ensures sum == Value(NormalForm(flags, data)) % MODULUS
  {
    hide Value, Stripped, Compressed, WithoutLeading, WithoutTrailing, Map;
    if |data| == 0 {
      NothingCounts(flags);
      return 1;
    }
    var buf := data;
    if Has(flags, DIFF_SUPPRESS_LFCR) && buf[|buf| - 1] == CR {
      buf := buf[..|buf| - 1];
    }
    if flags == 0 {
      sum := SumAll(buf, flags);
    } else if Has(flags, DIFF_IGNORE_WHITESPACE) {
      sum := SumStripped(buf, flags);
    } else {
      if Has(flags, DIFF_SUPPRESS_LEADING) {
        var trim := TrimLeading(buf);
        buf := buf[trim..];
      }
      if Has(flags, DIFF_SUPPRESS_TRAILING) {
        var length := TrimTrailing(buf);
        buf := buf[..length];
      }
      if Has(flags, DIFF_COMPRESS_WHITESPACE) {
        sum := SumCompressed(buf, flags);
      } else {
        sum := SumAll(buf, flags);
      }
    }
  }

  // ----- Steps of the sums

  lemma SumNext(flags: bv32, s: Text, c: byte)
    ensures Sum(flags, []) == 1
    ensures Sum(flags, s + [c]) == Next(Sum(flags, s), Translated(flags, c))
    ensures Translated(flags, SPACE) == SPACE
  {
    NextDigit(Map(flags, s), Translated(flags, c));
    assert Map(flags, s + [c]) == Map(flags, s) + [Translated(flags, c)];
  }

  lemma NothingYet(flags: bv32)
    ensures Sum(flags, Stripped([])) == Sum(flags, Compressed([])) == 1
  {
  }

  /** With no flags all of a line counts, as it is. */
  lemma AllCounts(line: Text)
    ensures NormalForm(0, line) == line
  {
  }

  lemma NothingCounts(flags: bv32)
    ensures Value(NormalForm(flags, [])) == 1
  {
  }

  lemma {:induction false} StrippedNext(s: Text, c: byte)
    ensures Stripped(s + [c]) == Stripped(s) + (if Blank(c) || c == CR then [] else [c])
  {
    if s == [] {
      assert s + [c] == [c];
    } else {
      StrippedNext(s[1..], c);
      assert (s + [c])[1..] == s[1..] + [c];
    }
  }

  predicate EndsBlank(s: Text) { s != [] && Blank(s[|s| - 1]) }

  lemma {:induction false} LeadingNext(s: Text, c: byte)
    ensures WithoutLeading(s + [c]) ==
            if WithoutLeading(s) == [] && Blank(c) then [] else WithoutLeading(s) + [c]
  {
    if s == [] {
      assert s + [c] == [c];
    } else {
      LeadingNext(s[1..], c);
      assert (s + [c])[1..] == s[1..] + [c];
    }
  }

  lemma CompressedUnfolds(s: Text)
    ensures WithoutLeading(s) == [] ==> Compressed(s) == []
    ensures WithoutLeading(s) != [] && Blank(s[0]) ==> Compressed(s) == [SPACE] + Compressed(WithoutLeading(s))
    ensures WithoutLeading(s) != [] && !Blank(s[0]) ==> Compressed(s) == [s[0]] + Compressed(s[1..])
    ensures s != [] && !Blank(s[0]) ==> WithoutLeading(s) == s
    ensures Compressed([]) == []
  {
  }

  /** A blank adds nothing; any other character adds itself, and a space before it after a blank. */
  lemma {:induction false} CompressedNext(s: Text, c: byte)
    ensures Compressed(s + [c]) ==
            if Blank(c) then Compressed(s)
            else Compressed(s) + (if EndsBlank(s) then [SPACE] else []) + [c]
    decreases |s|
  {
    hide Blank, Compressed, WithoutLeading;
    LeadingNext(s, c);
    LeadingShorter(s);
    CompressedUnfolds(s);
    CompressedUnfolds(s + [c]);
    if WithoutLeading(s) == [] {
      AllBlankNext(s, c);
    } else if Blank(s[0]) {
      CompressedNext(WithoutLeading(s), c);
    } else {
      CompressedNext(s[1..], c);
      assert (s + [c])[1..] == s[1..] + [c];
    }
  }

  lemma AllBlankNext(s: Text, c: byte)
    requires WithoutLeading(s) == []
    ensures Compressed(s + [c]) == if Blank(c) then [] else (if EndsBlank(s) then [SPACE] else []) + [c]
  {
    hide Blank, Compressed, WithoutLeading;
    LeadingNext(s, c);
    LeadingShorter(s);
    CompressedUnfolds(s + [c]);
    AloneCompressed(c);
    if s == [] {
      assert s + [c] == [c];
    } else {
      assert WithoutLeading(s) + [c] == [c];
      assert Blank(s[0]) && Blank(s[|s| - 1]) && (s + [c])[0] == s[0];
    }
  }

  lemma AloneCompressed(c: byte)
    ensures Compressed([c]) == if Blank(c) then [] else [c]
    ensures Compressed([]) == [] && WithoutLeading([]) == []
  {
    assert [c][1..] == [];
    assert Compressed([c][1..]) == [];
  }

  // ----- What the normal forms disregard

  /** Compression already drops the blanks at the end. */
  lemma {:induction false} TrailingDropped(s: Text)
    ensures Compressed(WithoutTrailing(s)) == Compressed(s)
  {
    if EndsBlank(s) {
      TrailingDropped(s[..|s| - 1]);
      CompressedNext(s[..|s| - 1], s[|s| - 1]);
      assert s == s[..|s| - 1] + [s[|s| - 1]];
    }
  }

  /** Length of the word at the head of s. */
  function WordLength(s: Text): (n: nat)
    ensures n <= |s| && (forall i :: 0 <= i < n ==> !Blank(s[i])) && (n < |s| ==> Blank(s[n]))
  {
    if s == [] || Blank(s[0]) then 0 else 1 + WordLength(s[1..])
  }

  /** The words of s, which blanks separate. */
  function Words(s: Text): seq<Text>
    decreases |s|
  {
    var w := WithoutLeading(s);
    LeadingShorter(s);
    if w == [] then [] else [w[..WordLength(w)]] + Words(w[WordLength(w)..])
  }

  /** The words with one space between two. */
  function Joined(words: seq<Text>): Text {
    if |words| == 0 then [] else if |words| == 1 then words[0] else words[0] + [SPACE] + Joined(words[1..])
  }

  /** Some word of s has a blank before it, although it is the first. */
  predicate Indented(s: Text) { Words(s) != [] && Blank(s[0]) }

  lemma {:induction false} CompressedWord(s: Text)
    ensures Compressed(s) == s[..WordLength(s)] + Compressed(s[WordLength(s)..])
  {
    hide Blank, Compressed, WithoutLeading;
    CompressedUnfolds(s);
    if s != [] && !Blank(s[0]) {
      CompressedWord(s[1..]);
      hide WordLength;
      assert s[1..][WordLength(s[1..])..] == s[WordLength(s)..];
      assert s[..WordLength(s)] == [s[0]] + s[1..][..WordLength(s[1..])];
    } else {
      assert s[..0] == [] && s[0..] == s;
    }
  }

  lemma WordsUnfold(s: Text)
    ensures WithoutLeading(s) == [] <==> Words(s) == []
    ensures s != [] && !Blank(s[0]) ==> Words(s) == [s[..WordLength(s)]] + Words(s[WordLength(s)..])
  {
    hide WordLength;
  }

  lemma WordsAfterBlanks(s: Text)
    ensures Words(WithoutLeading(s)) == Words(s)
  {
    hide WordLength;
    LeadingShorter(s);
    assert WithoutLeading(WithoutLeading(s)) == WithoutLeading(s) by {
      hide Words;
    }
  }

  lemma WordLengthIs(s: Text, n: nat)
    requires n <= |s| && (forall i :: 0 <= i < n ==> !Blank(s[i])) && (n < |s| ==> Blank(s[n]))
    ensures WordLength(s) == n
  {
    hide WordLength, Blank;
  }

  /** Compression keeps the words, and whether the first one is indented, and nothing else. */
  lemma {:induction false} CompressedIsWords(s: Text)
    ensures Compressed(s) == (if Indented(s) then [SPACE] else []) + Joined(Words(s))
    decreases |s|
  {
    hide Blank, Compressed, WithoutLeading, Words, WordLength;
    LeadingShorter(s);
    CompressedUnfolds(s);
    WordsUnfold(s);
    WordsAfterBlanks(s);
    if Words(s) == [] {
    } else if Blank(s[0]) {
      CompressedIsWords(WithoutLeading(s));
    } else {
      CompressedWord(s);
      var w, rest := s[..WordLength(s)], s[WordLength(s)..];
      CompressedIsWords(rest);
      NoWords();
      assert rest != [] ==> rest[0] == s[|w|];
      assert Indented(rest) <==> Words(rest) != [];
      JoinedUnfolds(w, Words(rest));
    }
  }

  lemma JoinedUnfolds(w: Text, words: seq<Text>)
    ensures Joined([]) == []
    ensures Joined([w] + words) == w + ((if words != [] then [SPACE] else []) + Joined(words))
  {
    assert ([w] + words)[1..] == words;
  }

  predicate Word(w: Text) { w != [] && forall i :: 0 <= i < |w| ==> !Blank(w[i]) }

  lemma {:induction false} WordsAreWords(s: Text)
    ensures forall w <- Words(s) :: Word(w)
    decreases |s|
  {
    LeadingShorter(s);
    var w := WithoutLeading(s);
    if w != [] { WordsAreWords(w[WordLength(w)..]); }
  }

  lemma {:induction false} WordsOfJoined(words: seq<Text>)
    requires forall w <- words :: Word(w)
    ensures Words(Joined(words)) == words
    ensures words != [] ==> Joined(words) != [] && !Blank(Joined(words)[0])
  {
    hide Words, WordLength, WithoutLeading, Blank, Joined;
    NoWords();
    JoinedUnfolds([], []);
    if words != [] {
      var w, rest := words[0], words[1..];
      assert words == [w] + rest && Word(w);
      JoinedUnfolds(w, rest);
      WordsOfJoined(rest);
      WordFirst(w, Joined(rest), rest != []);
      SpaceBefore(Joined(rest));
    }
  }

  lemma WordFirst(w: Text, tail: Text, more: bool)
    requires Word(w) && (!more ==> tail == [])
    ensures var s := w + ((if more then [SPACE] else []) + tail);
            && s != [] && !Blank(s[0])
            && Words(s) == [w] + Words(if more then [SPACE] + tail else [])
  {
    hide Words, WordLength, WithoutLeading;
    var after := (if more then [SPACE] else []) + tail;
    WordLengthIs(w + after, |w|);
    WordsUnfold(w + after);
    assert (w + after)[..|w|] == w && (w + after)[|w|..] == after;
  }

  lemma NoWords()
    ensures Words([]) == []
  {
  }

  lemma SpaceBefore(s: Text)
    ensures Words([SPACE] + s) == Words(s)
  {
    assert ([SPACE] + s)[1..] == s;
  }

  /** Two lines compress to the same exactly if they have the same words and both or neither are indented. */
  lemma SameCompressed(a: Text, b: Text)
    ensures Compressed(a) == Compressed(b) <==> Words(a) == Words(b) && Indented(a) == Indented(b)
  {
    hide Words, Compressed, Joined;
    CompressedIsWords(a);
    CompressedIsWords(b);
    WordsKept(a);
    WordsKept(b);
  }

  lemma WordsKept(s: Text)
    ensures Words(Compressed(s)) == Words(s)
  {
    hide Words, Compressed, Joined;
    CompressedIsWords(s);
    WordsAreWords(s);
    WordsOfJoined(Words(s));
    SpaceBefore(Joined(Words(s)));
    assert [] + Joined(Words(s)) == Joined(Words(s));
  }

  /** Adding suppression of trailing blanks to compression changes nothing. */
  lemma TrailingIsRedundant(flags: bv32, line: Text)
    requires Has(flags, DIFF_COMPRESS_WHITESPACE)
    ensures NormalForm(flags | DIFF_SUPPRESS_TRAILING, line) == NormalForm(flags, line)
  {
    var more := flags | DIFF_SUPPRESS_TRAILING;
    SameOtherwise(flags, more);
    hide Has, Compressed, WithoutLeading, WithoutTrailing, Stripped, Lower;
    var s := WithoutCR(flags, line);
    TrailingDropped(s);
    TrailingDropped(WithoutLeading(s));
    assert forall t :: Map(more, t) == Map(flags, t);
  }

  lemma SameOtherwise(flags: bv32, more: bv32)
    requires more == flags | DIFF_SUPPRESS_TRAILING
    ensures Has(more, DIFF_SUPPRESS_TRAILING)
    ensures Has(more, DIFF_IGNORE_WHITESPACE) == Has(flags, DIFF_IGNORE_WHITESPACE)
    ensures Has(more, DIFF_IGNORE_CASE) == Has(flags, DIFF_IGNORE_CASE)
    ensures Has(more, DIFF_COMPRESS_WHITESPACE) == Has(flags, DIFF_COMPRESS_WHITESPACE)
    ensures Has(more, DIFF_SUPPRESS_LEADING) == Has(flags, DIFF_SUPPRESS_LEADING)
    ensures Has(more, DIFF_SUPPRESS_LFCR) == Has(flags, DIFF_SUPPRESS_LFCR)
  {
  }

  // ----- Case

  /** The upper-case byte a and the byte b that the table folds it to. */
  predicate CasePair(a: byte, b: byte) { 0x40 <= a < 0x60 && b == a + 0x20 }

  /** Two bytes are the same, or the flags say to ignore what is different. */
  predicate SameByte(flags: bv32, a: byte, b: byte) {
    a == b || (Has(flags, DIFF_IGNORE_CASE) && (CasePair(a, b) || CasePair(b, a)))
  }

  predicate SameText(flags: bv32, u: Text, v: Text) {
    |u| == |v| && forall i :: 0 <= i < |u| ==> SameByte(flags, u[i], v[i])
  }

  predicate Letter(c: byte) { 0x41 <= c <= 0x5a || 0x61 <= c <= 0x7a }

  /** Which bytes folding identifies: letters with their other case, and six pairs that are not letters,
      '@' and '`', '[' and '{', '\' and '|', ']' and '}', '^' and '~', '_' and DEL. */
  lemma LowerIdentifies(a: byte, b: byte)
    ensures !(0x40 <= Lower(a) < 0x60)
    ensures Lower(a) == Lower(b) <==> a == b || CasePair(a, b) || CasePair(b, a)
    ensures CasePair(a, b) && !Letter(a) <==>
            (a, b) == (0x40, 0x60) || (a, b) == (0x5b, 0x7b) || (a, b) == (0x5c, 0x7c) ||
            (a, b) == (0x5d, 0x7d) || (a, b) == (0x5e, 0x7e) || (a, b) == (0x5f, 0x7f)
  {
  }

  lemma MapSame(flags: bv32, u: Text, v: Text)
    ensures Map(flags, u) == Map(flags, v) <==> SameText(flags, u, v)
  {
    hide Has, CasePair, Lower;
    forall i | 0 <= i < |u| && i < |v|
      ensures Translated(flags, u[i]) == Translated(flags, v[i]) <==> SameByte(flags, u[i], v[i])
    {
      LowerIdentifies(u[i], v[i]);
    }
    if Map(flags, u) == Map(flags, v) {
      assert forall i :: 0 <= i < |u| ==> Map(flags, u)[i] == Map(flags, v)[i];
    }
  }

  /** Two lines have the same normal form if and only if what is left of them is the same byte by byte,
      up to the pairs that folding identifies when case is ignored. */
  lemma SameNormalForm(flags: bv32, a: Text, b: Text)
    ensures NormalForm(flags, a) == NormalForm(flags, b) <==> SameText(flags, Kept(flags, a), Kept(flags, b))
  {
    MapSame(flags, Kept(flags, a), Kept(flags, b));
  }

  /** Two lines of one byte that are not letters and hash the same when case is ignored. */
  lemma BracketIsBrace()
    ensures !Letter(0x5b) && !Letter(0x7b)
            && NormalForm(DIFF_IGNORE_CASE, [0x5b]) == NormalForm(DIFF_IGNORE_CASE, [0x7b])
  {
    hide Stripped, Compressed, WithoutLeading, WithoutTrailing;
    var f := DIFF_IGNORE_CASE;
    assert Has(f, DIFF_IGNORE_CASE) && !Has(f, DIFF_IGNORE_WHITESPACE) && !Has(f, DIFF_SUPPRESS_LEADING)
           && !Has(f, DIFF_SUPPRESS_TRAILING) && !Has(f, DIFF_COMPRESS_WHITESPACE) && !Has(f, DIFF_SUPPRESS_LFCR);
    SameNormalForm(f, [0x5b], [0x7b]);
  }

  // ----- Folding case leaves blanks and words where they are

  lemma {:induction false} MapLeading(flags: bv32, s: Text)
    ensures WithoutLeading(Map(flags, s)) == Map(flags, WithoutLeading(s))
  {
    hide Has;
    if s != [] && Blank(s[0]) {
      MapLeading(flags, s[1..]);
      assert Map(flags, s)[1..] == Map(flags, s[1..]);
    }
  }

  lemma {:induction false} MapCompressed(flags: bv32, s: Text)
    ensures Compressed(Map(flags, s)) == Map(flags, Compressed(s))
    decreases |s|
  {
    hide Has, Compressed, WithoutLeading;
    MapLeading(flags, s);
    LeadingShorter(s);
    CompressedUnfolds(s);
    CompressedUnfolds(Map(flags, s));
    if WithoutLeading(s) == [] {
    } else if Blank(s[0]) {
      MapCompressed(flags, WithoutLeading(s));
    } else {
      MapCompressed(flags, s[1..]);
      assert Map(flags, s)[1..] == Map(flags, s[1..]);
    }
  }

  function MapWords(flags: bv32, words: seq<Text>): (r: seq<Text>)
    ensures |r| == |words| && forall i :: 0 <= i < |words| ==> r[i] == Map(flags, words[i])
  {
    seq(|words|, i requires 0 <= i < |words| => Map(flags, words[i]))
  }

  lemma {:induction false} WordsOfMap(flags: bv32, s: Text)
    ensures Words(Map(flags, s)) == MapWords(flags, Words(s))
    decreases |s|
  {
    hide Has, WordLength, Words, WithoutLeading;
    var w := WithoutLeading(s);
    var n := WordLength(w);
    MapLeading(flags, s);
    LeadingShorter(s);
    WordsFrom(s);
    WordsFrom(Map(flags, s));
    if w != [] {
      WordLengthIs(Map(flags, w), n);
      WordsOfMap(flags, w[n..]);
      assert Map(flags, w)[..n] == Map(flags, w[..n]) && Map(flags, w)[n..] == Map(flags, w[n..]);
    }
  }

  lemma WordsFrom(s: Text)
    ensures var w := WithoutLeading(s);
            && (w == [] ==> Words(s) == [])
            && (w != [] ==> 0 < WordLength(w) && Words(s) == [w[..WordLength(w)]] + Words(w[WordLength(w)..]))
  {
    LeadingShorter(s);
    hide WithoutLeading;
  }

  lemma IndentedMap(flags: bv32, s: Text)
    ensures Indented(Map(flags, s)) == Indented(s)
  {
    hide Has, Words, WithoutLeading;
    WordsOfMap(flags, s);
    NoWords();
  }

  predicate SameWords(flags: bv32, u: seq<Text>, v: seq<Text>) {
    |u| == |v| && forall i :: 0 <= i < |u| ==> SameText(flags, u[i], v[i])
  }

  lemma MapSameWords(flags: bv32, u: seq<Text>, v: seq<Text>)
    ensures MapWords(flags, u) == MapWords(flags, v) <==> SameWords(flags, u, v)
  {
    hide SameText, Map;
    forall i | 0 <= i < |u| && i < |v| ensures Map(flags, u[i]) == Map(flags, v[i]) <==> SameText(flags, u[i], v[i]) {
      MapSame(flags, u[i], v[i]);
    }
    if MapWords(flags, u) == MapWords(flags, v) {
      assert forall i :: 0 <= i < |u| ==> MapWords(flags, u)[i] == MapWords(flags, v)[i];
    }
  }

  /** Under compression two lines have the same normal form if and only if they have the same words, up
      to case when that is ignored, and both or neither are indented, unless that is suppressed. */
  lemma OnlyWordsCount(flags: bv32, a: Text, b: Text)
    requires Has(flags, DIFF_COMPRESS_WHITESPACE) && !Has(flags, DIFF_IGNORE_WHITESPACE)
    ensures var (x, y) := (WithoutCR(flags, a), WithoutCR(flags, b));
            NormalForm(flags, a) == NormalForm(flags, b) <==>
            && SameWords(flags, Words(x), Words(y))
            && (Has(flags, DIFF_SUPPRESS_LEADING) || Indented(x) == Indented(y))
  {
    hide Words, WithoutLeading, Compressed, WithoutCR, Has, Indented, SameWords, NormalForm, Map;
    var x, y := WithoutCR(flags, a), WithoutCR(flags, b);
    CompressedForm(flags, a);
    CompressedForm(flags, b);
    if Has(flags, DIFF_SUPPRESS_LEADING) {
      NotIndented(x);
      NotIndented(y);
      SameFolded(flags, WithoutLeading(x), WithoutLeading(y));
    } else {
      SameFolded(flags, x, y);
    }
  }

  lemma SameFolded(flags: bv32, x: Text, y: Text)
    ensures Compressed(Map(flags, x)) == Compressed(Map(flags, y)) <==>
            SameWords(flags, Words(x), Words(y)) && Indented(x) == Indented(y)
  {
    hide Words, Compressed, Has, Indented, SameWords, Map;
    SameCompressed(Map(flags, x), Map(flags, y));
    WordsOfMap(flags, x);
    WordsOfMap(flags, y);
    IndentedMap(flags, x);
    IndentedMap(flags, y);
    MapSameWords(flags, Words(x), Words(y));
  }

  lemma CompressedForm(flags: bv32, line: Text)
    requires Has(flags, DIFF_COMPRESS_WHITESPACE) && !Has(flags, DIFF_IGNORE_WHITESPACE)
    ensures var s := WithoutCR(flags, line);
            NormalForm(flags, line) ==
            Compressed(Map(flags, if Has(flags, DIFF_SUPPRESS_LEADING) then WithoutLeading(s) else s))
  {
    hide WithoutLeading, WithoutTrailing, Compressed, WithoutCR, Has, Map;
    var s := WithoutCR(flags, line);
    var t := if Has(flags, DIFF_SUPPRESS_LEADING) then WithoutLeading(s) else s;
    TrailingDropped(t);
    MapCompressed(flags, t);
  }

  lemma NotIndented(s: Text)
    ensures Words(WithoutLeading(s)) == Words(s) && !Indented(WithoutLeading(s))
  {
    hide WithoutLeading, Words;
    WordsAfterBlanks(s);
    LeadingShorter(s);
    NoWords();
  }

  // ----- Which bytes, under which flags

  lemma {:induction false} TrailingAfter(c: byte, s: Text)
    requires !Blank(c)
    ensures WithoutTrailing([c] + s) == [c] + WithoutTrailing(s)
  {
    if EndsBlank(s) {
      TrailingAfter(c, s[..|s| - 1]);
      assert ([c] + s)[..|s|] == [c] + s[..|s| - 1];
    }
  }

  lemma MapConcat(flags: bv32, s: Text, t: Text)
    ensures Map(flags, s + t) == Map(flags, s) + Map(flags, t)
  {
    hide Translated;
  }

  lemma MapOne(flags: bv32, c: byte)
    ensures Map(flags, [c]) == [Translated(flags, c)] && Map(flags, []) == []
  {
    hide Translated;
  }

  lemma TranslatedIs(flags: bv32, c: byte)
    ensures Translated(flags, c) == if flags & 0x02 != 0 && 0x40 <= c < 0x60 then c + 0x20 else c
  {
  }

  /** A byte before a line that does not start with a blank, when leading blanks are suppressed. */
  lemma KeptBefore(flags: bv32, c: byte, s: Text)
    requires Has(flags, DIFF_SUPPRESS_LEADING) && !Has(flags, DIFF_IGNORE_WHITESPACE) && s != [] && !Blank(s[0])
    ensures Kept(flags, [c] + s) == (if Blank(c) then [] else [c]) + Kept(flags, s)
  {
    hide Has, Blank;
    var t := WithoutCR(flags, s);
    assert WithoutCR(flags, [c] + s) == [c] + t;
    assert ([c] + t)[1..] == t && WithoutLeading(t) == t;
    if !Blank(c) {
      TrailingAfter(c, t);
      CompressedAfter(c, t);
      CompressedAfter(c, WithoutTrailing(t));
    }
    hide WithoutTrailing, Compressed, WithoutCR;
  }

  lemma CompressedAfter(c: byte, s: Text)
    requires !Blank(c)
    ensures Compressed([c] + s) == [c] + Compressed(s)
  {
    CompressedUnfolds([c] + s);
    assert ([c] + s)[1..] == s;
    hide Compressed;
  }

  /** With leading white space suppressed, a byte before a line that does not start with white space drops
      out if it is one of four, and counts otherwise. */
  lemma LeadingByte(flags: bv32, c: byte, s: Text)
    requires flags & 0x20 != 0 && flags & 0x01 == 0
    requires s != [] && s[0] !in {0x09, 0x0b, 0x0c, 0x20}
    ensures NormalForm(flags, [c] + s) ==
            (if c in {0x09, 0x0b, 0x0c, 0x20} then []
             else if flags & 0x02 != 0 && 0x40 <= c < 0x60 then [c + 0x20] else [c]) + NormalForm(flags, s)
  {
    KeptBefore(flags, c, s);
    TranslatedIs(flags, c);
    hide Kept, Translated, Has, Map;
    MapConcat(flags, if Blank(c) then [] else [c], Kept(flags, s));
    MapOne(flags, c);
  }

  /** A byte after a line that does not end with a blank, when trailing blanks are suppressed. */
  lemma KeptBehind(flags: bv32, s: Text, c: byte)
    requires Has(flags, DIFF_SUPPRESS_TRAILING) && !Has(flags, DIFF_IGNORE_WHITESPACE)
    requires !Has(flags, DIFF_SUPPRESS_LFCR) && s != [] && !Blank(s[|s| - 1])
    ensures Kept(flags, s + [c]) == Kept(flags, s) + if Blank(c) then [] else [c]
  {
    hide Has, Blank, Compressed, WithoutLeading;
    LeadingNext(s, c);
    LeadingShorter(s);
    var t := if Has(flags, DIFF_SUPPRESS_LEADING) then WithoutLeading(s) else s;
    assert t != [] && t[|t| - 1] == s[|s| - 1];
    CompressedNext(t, c);
    TrailingNext(t, c);
    hide WithoutTrailing;
    assert Compressed(t) + [] == Compressed(t);
  }

  lemma TrailingNext(s: Text, c: byte)
    requires s != [] && !Blank(s[|s| - 1])
    ensures WithoutTrailing(s) == s && WithoutTrailing(s + [c]) == s + if Blank(c) then [] else [c]
  {
    hide Blank;
    assert (s + [c])[..|s|] == s && (s + [c])[|s|] == c;
  }

  /** With trailing white space suppressed, a byte after a line that does not end with white space drops
      out if it is one of the same four, and counts otherwise. */
  lemma TrailingByte(flags: bv32, s: Text, c: byte)
    requires flags & 0x40 != 0 && flags & 0x01 == 0 && flags & 0x80 == 0
    requires s != [] && s[|s| - 1] !in {0x09, 0x0b, 0x0c, 0x20}
    ensures NormalForm(flags, s + [c]) ==
            NormalForm(flags, s) + if c in {0x09, 0x0b, 0x0c, 0x20} then [] else [Translated(flags, c)]
  {
    KeptBehind(flags, s, c);
    hide Kept, Translated, Has, Map;
    MapConcat(flags, Kept(flags, s), if Blank(c) then [] else [c]);
    MapOne(flags, c);
  }

  /** With the flag for it a carriage return at the end drops out, and no more than one; with it or without,
      a line that does not end in one is treated the same. */
  lemma CarriageReturn(flags: bv32, s: Text)
    ensures flags & 0x80 != 0 ==> NormalForm(flags, s + [0x0d]) == NormalForm(flags & 0xffff_ff7f, s)
    ensures s == [] || s[|s| - 1] != 0x0d ==> NormalForm(flags, s) == NormalForm(flags & 0xffff_ff7f, s)
  {
    OtherFlags(flags, flags & 0xffff_ff7f);
    WithoutOneCR(flags, s);
    hide Has, WithoutCR;
    if flags & 0x80 != 0 { SameOnceCut(flags, flags & 0xffff_ff7f, s + [0x0d], s); }
    if s == [] || s[|s| - 1] != 0x0d { SameOnceCut(flags, flags & 0xffff_ff7f, s, s); }
  }

  lemma WithoutOneCR(flags: bv32, s: Text)
    ensures Has(flags, DIFF_SUPPRESS_LFCR) ==> WithoutCR(flags, s + [0x0d]) == s
    ensures !Has(flags, DIFF_SUPPRESS_LFCR) || s == [] || s[|s| - 1] != 0x0d ==> WithoutCR(flags, s) == s
  {
    hide Has;
    assert (s + [0x0d])[..|s|] == s;
  }

  /** Flags that differ only in the treatment of a carriage return at the end treat alike what is left. */
  lemma SameOnceCut(flags: bv32, less: bv32, s: Text, t: Text)
    requires Has(less, DIFF_IGNORE_WHITESPACE) == Has(flags, DIFF_IGNORE_WHITESPACE)
    requires Has(less, DIFF_IGNORE_CASE) == Has(flags, DIFF_IGNORE_CASE)
    requires Has(less, DIFF_COMPRESS_WHITESPACE) == Has(flags, DIFF_COMPRESS_WHITESPACE)
    requires Has(less, DIFF_SUPPRESS_LEADING) == Has(flags, DIFF_SUPPRESS_LEADING)
    requires Has(less, DIFF_SUPPRESS_TRAILING) == Has(flags, DIFF_SUPPRESS_TRAILING)
    requires WithoutCR(flags, s) == WithoutCR(less, t)
    ensures NormalForm(flags, s) == NormalForm(less, t)
  {
    hide Has, WithoutCR, Compressed, WithoutLeading, WithoutTrailing, Stripped;
    assert Kept(flags, s) == Kept(less, t);
    hide Kept, Lower;
    assert Map(flags, Kept(flags, s)) == Map(less, Kept(flags, s));
  }

  lemma OtherFlags(flags: bv32, less: bv32)
    requires less == flags & 0xffff_ff7f
    ensures !Has(less, DIFF_SUPPRESS_LFCR) && (Has(flags, DIFF_SUPPRESS_LFCR) <==> flags & 0x80 != 0)
    ensures Has(less, DIFF_IGNORE_WHITESPACE) == Has(flags, DIFF_IGNORE_WHITESPACE)
    ensures Has(less, DIFF_IGNORE_CASE) == Has(flags, DIFF_IGNORE_CASE)
    ensures Has(less, DIFF_COMPRESS_WHITESPACE) == Has(flags, DIFF_COMPRESS_WHITESPACE)
    ensures Has(less, DIFF_SUPPRESS_LEADING) == Has(flags, DIFF_SUPPRESS_LEADING)
    ensures Has(less, DIFF_SUPPRESS_TRAILING) == Has(flags, DIFF_SUPPRESS_TRAILING)
  {
  }

  lemma StrippedUnfolds(s: Text)
    ensures Stripped([]) == []
    ensures s != [] ==> Stripped(s) == (if Blank(s[0]) || s[0] == CR then [] else [s[0]]) + Stripped(s[1..])
  {
  }

  lemma {:induction false} StrippedConcat(s: Text, t: Text)
    ensures Stripped(s + t) == Stripped(s) + Stripped(t)
  {
    hide Stripped, Blank;
    StrippedUnfolds(s);
    if s == [] {
      assert s + t == t;
    } else {
      StrippedUnfolds(s + t);
      StrippedConcat(s[1..], t);
      assert (s + t)[1..] == s[1..] + t;
    }
  }

  /** When white space is ignored, exactly the four and the carriage return drop out, wherever they are. */
  lemma IgnoredByte(flags: bv32, p: Text, c: byte, q: Text)
    requires flags & 0x01 != 0
    ensures NormalForm(flags, p + [c] + q) ==
            NormalForm(flags, p) + (if c in {0x09, 0x0b, 0x0c, 0x0d, 0x20} then [] else [Translated(flags, c)])
            + NormalForm(flags, q)
  {
    NothingButStripped(flags, p + [c] + q);
    NothingButStripped(flags, p);
    NothingButStripped(flags, q);
    StrippedConcat(p + [c], q);
    StrippedNext(p, c);
    hide Stripped, NormalForm;
    MapConcat(flags, Stripped(p), if Blank(c) || c == CR then [] else [c]);
    MapConcat(flags, Stripped(p + [c]), Stripped(q));
    MapOne(flags, c);
    hide Map, Translated;
  }

  /** A carriage return at the end is stripped anyway. */
  lemma StrippedAnyway(flags: bv32, s: Text)
    ensures Stripped(WithoutCR(flags, s)) == Stripped(s)
  {
    hide Has, Stripped;
    if s != [] {
      StrippedNext(s[..|s| - 1], s[|s| - 1]);
      assert s == s[..|s| - 1] + [s[|s| - 1]];
      assert Stripped(s[..|s| - 1]) + [] == Stripped(s[..|s| - 1]);
    }
  }

  lemma NothingButStripped(flags: bv32, s: Text)
    requires Has(flags, DIFF_IGNORE_WHITESPACE)
    ensures NormalForm(flags, s) == Map(flags, Stripped(s))
  {
    hide Has, Stripped, Compressed, WithoutLeading, WithoutTrailing, WithoutCR, Map;
    StrippedAnyway(flags, s);
  }

  /** Compression goes on from what it has made, and from whether a blank is pending. */
  lemma {:induction false} CompressedOn(s: Text, t: Text, q: Text)
    requires Compressed(s) == Compressed(t) && EndsBlank(s) == EndsBlank(t)
    ensures Compressed(s + q) == Compressed(t + q)
    decreases |q|
  {
    hide Compressed;
    if q == [] {
      assert s + q == s && t + q == t;
    } else {
      var init, c := q[..|q| - 1], q[|q| - 1];
      CompressedOn(s, t, init);
      CompressedNext(s + init, c);
      CompressedNext(t + init, c);
      assert s + q == s + init + [c] && t + q == t + init + [c];
      assert init == [] ==> s + init == s && t + init == t;
      assert EndsBlank(s + init) == EndsBlank(t + init);
    }
  }

  lemma {:induction false} RunCompressed(p: Text, run: Text)
    requires run != [] && forall i :: 0 <= i < |run| ==> Blank(run[i])
    ensures Compressed(p + run) == Compressed(p) && EndsBlank(p + run)
  {
    hide Compressed;
    var init, c := run[..|run| - 1], run[|run| - 1];
    CompressedNext(p + init, c);
    assert p + run == p + init + [c];
    if init == [] {
      assert p + init == p;
    } else {
      RunCompressed(p, init);
    }
  }

  lemma {:induction false} LeadingRun(p: Text, run: Text, q: Text)
    requires forall i :: 0 <= i < |run| ==> Blank(run[i])
    ensures WithoutLeading(p + run + q) ==
            if WithoutLeading(p) == [] then WithoutLeading(q) else WithoutLeading(p) + run + q
    decreases |p| + |run|
  {
    if p == [] {
      if run == [] {
        assert p + run + q == q;
      } else {
        assert (p + run + q)[1..] == p + run[1..] + q;
        LeadingRun(p, run[1..], q);
      }
    } else {
      assert (p + run + q)[1..] == p[1..] + run + q;
      if Blank(p[0]) { LeadingRun(p[1..], run, q); }
    }
  }

  /** Under compression any run of the four bytes, anywhere in a line, counts as one space. */
  lemma RunIsSpace(flags: bv32, p: Text, run: Text, q: Text)
    requires flags & 0x10 != 0 && run != [] && forall i :: 0 <= i < |run| ==> run[i] in {0x09, 0x0b, 0x0c, 0x20}
    ensures NormalForm(flags, p + run + q) == NormalForm(flags, p + [0x20] + q)
  {
    if Has(flags, DIFF_IGNORE_WHITESPACE) {
      RunStripped(flags, p, run, q);
      RunStripped(flags, p, [0x20], q);
    } else {
      RunKept(flags, p, run, q);
      RunKept(flags, p, [0x20], q);
      var r := if q == [] then [] else WithoutCR(flags, q);
      RunCompressed(p, run);
      RunCompressed(p, [0x20]);
      RunCompressed(WithoutLeading(p), run);
      RunCompressed(WithoutLeading(p), [0x20]);
      CompressedOn(p + run, p + [0x20], r);
      CompressedOn(WithoutLeading(p) + run, WithoutLeading(p) + [0x20], r);
      hide NormalForm, Compressed, WithoutLeading, Has;
    }
  }

  lemma RunStripped(flags: bv32, p: Text, run: Text, q: Text)
    requires Has(flags, DIFF_IGNORE_WHITESPACE) && forall i :: 0 <= i < |run| ==> Blank(run[i])
    ensures NormalForm(flags, p + run + q) == Map(flags, Stripped(p) + Stripped(q))
  {
    hide Has;
    NothingButStripped(flags, p + run + q);
    StrippedConcat(p + run, q);
    StrippedConcat(p, run);
    AllStripped(run);
    assert Stripped(p) + [] == Stripped(p);
  }

  lemma {:induction false} AllStripped(run: Text)
    requires forall i :: 0 <= i < |run| ==> Blank(run[i])
    ensures Stripped(run) == []
  {
    if run != [] { AllStripped(run[1..]); }
  }

  lemma RunKept(flags: bv32, p: Text, run: Text, q: Text)
    requires Has(flags, DIFF_COMPRESS_WHITESPACE) && !Has(flags, DIFF_IGNORE_WHITESPACE)
    requires run != [] && forall i :: 0 <= i < |run| ==> Blank(run[i])
    ensures var r := if q == [] then [] else WithoutCR(flags, q);
            NormalForm(flags, p + run + q) ==
            Map(flags, if !Has(flags, DIFF_SUPPRESS_LEADING) then Compressed(p + run + r)
                       else if WithoutLeading(p) == [] then Compressed(WithoutLeading(r))
                       else Compressed(WithoutLeading(p) + run + r))
  {
    hide Has;
    var s, r := p + run + q, if q == [] then [] else WithoutCR(flags, q);
    assert s[|s| - 1] == if q == [] then run[|run| - 1] else q[|q| - 1];
    assert WithoutCR(flags, s) == p + run + r;
    LeadingRun(p, run, r);
    hide WithoutLeading, WithoutTrailing, Compressed, WithoutCR;
    TrailingDropped(p + run + r);
    TrailingDropped(WithoutLeading(p + run + r));
  }

  /** Compression leaves a line alone in which white space is only single spaces between other bytes, or,
      unless that is suppressed, one at the start. */
  lemma SpacesKept(flags: bv32, s: Text)
    requires flags & 0x10 != 0 && flags & 0x01 == 0 && flags & 0x80 == 0
    requires forall i :: 0 <= i < |s| && s[i] in {0x09, 0x0b, 0x0c, 0x20} ==>
               && s[i] == 0x20 && (i == 0 ==> flags & 0x20 == 0)
               && i + 1 < |s| && s[i + 1] !in {0x09, 0x0b, 0x0c, 0x20}
    ensures NormalForm(flags, s) == Map(flags, s)
  {
    SingleSpaces(s);
  }

  lemma {:induction false} SingleSpaces(s: Text)
    requires forall i :: 0 <= i < |s| && Blank(s[i]) ==> s[i] == SPACE && i + 1 < |s| && !Blank(s[i + 1])
    ensures Compressed(s) == s
  {
    hide Compressed;
    CompressedUnfolds(s);
    if s != [] {
      var i := if Blank(s[0]) then 1 else 0;
      assert WithoutLeading(s) == s[i..];
      if i == 1 { CompressedUnfolds(s[1..]); }
      assert s[i..][1..] == s[i + 1..];
      SingleSpaces(s[i + 1..]);
    }
  }

  // ----- Lines that hash to zero

  predicate HashesTo(flags: bv32, line: Text, h: int) { Value(NormalForm(flags, line)) % MODULUS == h }

  /** The greatest value of any k bytes. */
  function MaxValue(k: nat): nat { if k == 0 then 1 else MaxValue(k - 1) * 127 + 255 }

  lemma {:induction false} ValueBounds(s: Text)
    ensures 1 <= Value(s) <= MaxValue(|s|)
  {
    if s != [] { ValueBounds(s[..|s| - 1]); }
  }

  lemma {:induction false} StrippedShorter(s: Text)
    ensures |Stripped(s)| <= |s|
  {
    if s != [] { StrippedShorter(s[1..]); }
  }

  lemma LengthsDrop(s: Text)
    ensures |WithoutLeading(s)| <= |s| && |WithoutTrailing(s)| <= |s| && |Stripped(s)| <= |s|
  {
    StrippedShorter(s);
    LeadingShorter(s);
    TrailingShorter(s);
  }

  lemma KeptShorter(flags: bv32, line: Text)
    ensures |NormalForm(flags, line)| == |Kept(flags, line)| <= |line|
  {
    hide Has, Stripped, Compressed, WithoutLeading, WithoutTrailing;
    var s := WithoutCR(flags, line);
    LengthsDrop(s);
    LengthsDrop(WithoutLeading(s));
  }

  /** A line of which at most four bytes are left never hashes to zero, whatever the flags. */
  lemma ShortNeverZero(flags: bv32, line: Text)
    requires |Kept(flags, line)| <= 4
    ensures !HashesTo(flags, line, 0)
  {
    hide Kept;
    var s := NormalForm(flags, line);
    ValueBounds(s);
    assert MaxValue(0) < MODULUS && MaxValue(1) < MODULUS && MaxValue(2) < MODULUS;
    assert MaxValue(3) == MaxValue(2) * 127 + 255 < MODULUS && MaxValue(4) == MaxValue(3) * 127 + 255 < MODULUS;
  }

  /** t in base 127. */
  function Digits(t: nat): (e: Text)
    requires t < MODULUS
    ensures |e| == 5 && forall i :: 0 <= i < 5 ==> e[i] < 0x7f
  {
    var (t1, t2, t3, t4) := (t / 127, t / 127 / 127, t / 127 / 127 / 127, t / 127 / 127 / 127 / 127);
    [t4 as byte, (t3 % 127) as byte, (t2 % 127) as byte, (t1 % 127) as byte, (t % 127) as byte]
  }

  lemma DigitsAddUp(t: nat)
    requires t < MODULUS
    ensures var e := Digits(t);
            t == e[0] as int * 260144641 + e[1] as int * 2048383 + e[2] as int * 16129 + e[3] as int * 127 + e[4] as int
  {
  }

  lemma ToTheHash(p: int, h: nat)
    requires h < MODULUS
    ensures (p + (h - p) % MODULUS) % MODULUS == h
  {
    SameRemainder(-((h - p) / MODULUS), h);
  }

  lemma ValueNext(s: Text, c: byte)
    ensures Value(s + [c]) == Value(s) * 127 + c as int
  {
    assert (s + [c])[..|s|] == s;
  }

  lemma ValueOfEnding(s: Text, e: Text)
    requires |e| == 5
    ensures Value(s + e) == Value(s) * 33038369407 + e[0] as int * 260144641 + e[1] as int * 2048383
                            + e[2] as int * 16129 + e[3] as int * 127 + e[4] as int
  {
    hide Value;
    ValueNext(s, e[0]);
    ValueNext(s + [e[0]], e[1]);
    ValueNext(s + [e[0]] + [e[1]], e[2]);
    ValueNext(s + [e[0]] + [e[1]] + [e[2]], e[3]);
    ValueNext(s + [e[0]] + [e[1]] + [e[2]] + [e[3]], e[4]);
    assert s + e == s + [e[0]] + [e[1]] + [e[2]] + [e[3]] + [e[4]];
  }

  // ----- Bytes that no flag touches

  /** Bytes from 0x80 on are neither white space nor folded. */
  predicate High(e: Text) { forall i :: 0 <= i < |e| ==> 0x80 <= e[i] }

  lemma {:induction false} StrippedHigh(s: Text, e: Text)
    requires High(e)
    ensures Stripped(s + e) == Stripped(s) + e
    decreases |e|
  {
    if e == [] {
      assert s + e == s;
    } else {
      var init, c := e[..|e| - 1], e[|e| - 1];
      hide Stripped;
      StrippedHigh(s, init);
      StrippedNext(s + init, c);
      assert s + e == s + init + [c] && e == init + [c];
    }
  }

  lemma {:induction false} LeadingHigh(s: Text, e: Text)
    requires High(e)
    ensures WithoutLeading(s + e) == WithoutLeading(s) + e
    decreases |e|
  {
    if e == [] {
      assert s + e == s;
    } else {
      var init, c := e[..|e| - 1], e[|e| - 1];
      hide WithoutLeading;
      LeadingHigh(s, init);
      LeadingNext(s + init, c);
      assert s + e == s + init + [c] && e == init + [c];
    }
  }

  lemma {:induction false} CompressedHigh(s: Text, e: Text)
    requires High(e) && e != []
    ensures Compressed(s + e) == Compressed(s) + (if EndsBlank(s) then [SPACE] else []) + e
    decreases |e|
  {
    hide Compressed;
    var init, c := e[..|e| - 1], e[|e| - 1];
    CompressedNext(s + init, c);
    assert s + e == s + init + [c] && e == init + [c];
    if init == [] {
      assert s + init == s;
    } else {
      CompressedHigh(s, init);
      assert (s + init)[|s + init| - 1] == init[|init| - 1];
    }
  }

  /** What is left of a line when more than blanks and a carriage return follows. */
  function Opened(flags: bv32, line: Text): Text {
    if Has(flags, DIFF_IGNORE_WHITESPACE) then Stripped(line)
    else
      var s := if Has(flags, DIFF_SUPPRESS_LEADING) then WithoutLeading(line) else line;
      if Has(flags, DIFF_COMPRESS_WHITESPACE) then Compressed(s) + (if EndsBlank(s) then [SPACE] else []) else s
  }

  lemma KeptHigh(flags: bv32, line: Text, e: Text)
    requires High(e) && e != []
    ensures Kept(flags, line + e) == Opened(flags, line) + e
  {
    hide Has, Stripped, Compressed, WithoutLeading;
    var s := line + e;
    assert s[|s| - 1] == e[|e| - 1];
    StrippedHigh(line, e);
    LeadingHigh(line, e);
    CompressedHigh(line, e);
    CompressedHigh(WithoutLeading(line), e);
    TrailingHigh(line, e);
    TrailingHigh(WithoutLeading(line), e);
  }

  lemma TrailingHigh(s: Text, e: Text)
    requires High(e) && e != []
    ensures WithoutTrailing(s + e) == s + e
  {
    assert (s + e)[|s + e| - 1] == e[|e| - 1];
  }

  lemma MapHigh(flags: bv32, s: Text, e: Text)
    requires High(e)
    ensures Map(flags, s + e) == Map(flags, s) + e
  {
    hide Has;
  }

  /** What the first bits of five high bytes add to the value. */
  const HIGH := 128 * (260144641 + 2048383 + 16129 + 127 + 1)

  /** Five high bytes that bring a line of the given value to the hash h. */
  function Ending(value: nat, h: nat): (e: Text)
    ensures |e| == 5
  {
    Raised(Digits((h - (value * 33038369407 + HIGH)) % MODULUS))
  }

  function Raised(d: Text): (e: Text)
    requires |d| == 5 && forall i :: 0 <= i < 5 ==> d[i] < 0x7f
    ensures |e| == 5 && High(e)
  {
    [d[0] + 0x80, d[1] + 0x80, d[2] + 0x80, d[3] + 0x80, d[4] + 0x80]
  }

  /** Whatever the flags, any line can be brought to any hash, zero included, by five more bytes. */
  lemma EveryHash(flags: bv32, line: Text, h: nat)
    requires h < MODULUS
    ensures HashesTo(flags, line + Ending(Value(Map(flags, Opened(flags, line))), h), h)
  {
    hide Digits, Value, Kept, Opened, Map;
    var start := Map(flags, Opened(flags, line));
    var e := Ending(Value(start), h);
    var p := Value(start) * 33038369407 + HIGH;
    KeptHigh(flags, line, e);
    MapHigh(flags, Opened(flags, line), e);
    ValueOfEnding(start, e);
    DigitsAddUp((h - p) % MODULUS);
    ToTheHash(p, h);
  }

  /** Whatever the flags, lines of exactly the lengths from five on can hash to zero. */
  lemma ZeroLengths(flags: bv32, length: nat)
    ensures (exists line: Text :: |line| == length && HashesTo(flags, line, 0)) <==> 5 <= length
  {
    hide HashesTo, Ending, Kept, Opened, Map;
    if 5 <= length {
      var start: Text := seq(length - 5, _ => 0x61);
      EveryHash(flags, start, 0);
      assert |start + Ending(Value(Map(flags, Opened(flags, start))), 0)| == length;
    } else {
      forall line: Text | |line| == length ensures !HashesTo(flags, line, 0) {
        KeptShorter(flags, line);
        ShortNeverZero(flags, line);
      }
    }
  }

  /** The line "WOoGQ", with no flags. */
  lemma ZeroHash()
    ensures HashesTo(0, [0x57, 0x4f, 0x6f, 0x47, 0x51], 0)
  {
    hide Value, Kept;
    var line: Text := [0x57, 0x4f, 0x6f, 0x47, 0x51];
    AllCounts(line);
    ValueOfEnding([], line);
    NoValue();
    assert [] + line == line;
  }

  lemma NoValue()
    ensures Value([]) == 1
  {
  }
}

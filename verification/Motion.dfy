/** Cursor motion: characters as steps on one flat offset, and vertical moves with a sticky column. */
module Motion {
  import opened Basics
  import opened LineText

  const LINEMAX := 0x7fff_ffff

  /** What motion only reads. `ext` is the number of lines the cursor may go past the end of the
      buffer; with `eofCursor` it may not, and with `eolCursor` it obeys the end of lines. */
  datatype Buffer = Buffer(lines: seq<Text>, dec: Decoder, binary: bool, eofCursor: bool, eolCursor: bool, ext: nat)

  /** Cursor line and column from 1, and the column remembered while short lines keep the cursor from it. */
  datatype Cursor = Cursor(line: int, col: int, eolCol: int)

  ghost predicate Sound(b: Buffer) {
    Decodes(b.dec) && (b.binary ==> SingleBytes(b.dec)) && b.lines != []
  }

  /** Characters of a line; none past the buffer. */
  function LineChars(b: Buffer, line: int): nat
    requires Sound(b)
  {
    if 1 <= line <= |b.lines| then Chars(b.dec, b.lines[line - 1], 1) else 0
  }

  /** Column of boundary i of a line. */
  function Column(b: Buffer, line: int, i: nat): int
    requires Sound(b)
  {
    if 1 <= line <= |b.lines| then ColAt(b.dec, b.lines[line - 1], 1, i) else 1
  }

  /** The column past the last character of a line, 0 when there is no such line. */
  function Eol(b: Buffer, line: int): int
    requires Sound(b)
  {
    if 1 <= line <= |b.lines| then ColAt(b.dec, b.lines[line - 1], 1, LineChars(b, line)) else 0
  }

  /** Flat offset of the start of a line: a unit per character, and one per line end in text mode. */
  function LineStart(b: Buffer, line: int): nat
    requires Sound(b) && 1 <= line
    decreases line
  {
    if line == 1 then 0 else LineStart(b, line - 1) + LineChars(b, line - 1) + if b.binary then 0 else 1
  }

  /** Flat offset of boundary i of a line. */
  function Flat(b: Buffer, line: int, i: nat): nat
    requires Sound(b) && 1 <= line
  {
    LineStart(b, line) + i
  }

  /** The column is that of boundary i of the line; past the buffer, where there are no characters, any is. */
  ghost predicate At(b: Buffer, line: int, col: int, i: nat)
    requires Sound(b)
  {
    1 <= line && i <= LineChars(b, line) && (line <= |b.lines| ==> col == Column(b, line, i))
  }

  lemma {:induction false} LineStartsGrow(b: Buffer, line: int, line': int)
    requires Sound(b) && 1 <= line <= line'
    ensures LineStart(b, line) <= LineStart(b, line')
    ensures line < line' ==>
            LineStart(b, line) + LineChars(b, line) + (if b.binary then 0 else 1) <= LineStart(b, line')
    decreases line'
  {
    if line < line' - 1 { LineStartsGrow(b, line, line' - 1); }
  }

  lemma ColumnPositive(b: Buffer, line: int, col: int, i: nat)
    requires Sound(b) && At(b, line, col, i) && line <= |b.lines|
    ensures 1 <= col
  {
    if 1 <= line <= |b.lines| && 0 < i {
      ColumnsGrow(b.dec, b.lines[line - 1], 1, 0, i);
    }
  }

  /** In text mode a flat offset is a position. */
  lemma FlatIsPosition(b: Buffer, line: int, i: nat, line': int, i': nat)
    requires Sound(b) && !b.binary && 1 <= line && 1 <= line' && i <= LineChars(b, line) && i' <= LineChars(b, line')
    requires Flat(b, line, i) == Flat(b, line', i')
    ensures line == line' && i == i'
  {
    if line < line' { LineStartsGrow(b, line, line'); }
    if line' < line { LineStartsGrow(b, line', line); }
  }

  // ----- What a move does to the cursor

  function Clipped(b: Buffer, nline: int, clip: bool): int {
    if nline < 1 then 1
    else if nline > |b.lines| then
      if clip || b.eofCursor then |b.lines| else if nline > |b.lines| + b.ext then |b.lines| + b.ext else nline
    else nline
  }

  function Moved(b: Buffer, c: Cursor, nline: int, ncol: int, obey: bool, clip: bool): Cursor
    requires Sound(b)
  {
    var line := Clipped(b, nline, clip);
    var col := if ncol < 1 then 1 else ncol;
    var eol := Eol(b, line);
    if b.eolCursor && obey && col == c.col && line != c.line then
      // a line change but no column change
      if col > eol then
        if eol > 0 then Cursor(line, eol, if c.eolCol == 0 then col else c.eolCol) else Cursor(line, col, c.eolCol)
      else if c.eolCol != 0 && eol >= c.eolCol then Cursor(line, c.eolCol, 0)
      else Cursor(line, col, c.eolCol)
    else
      var h := if b.eolCursor && (!obey || (line == c.line && col != c.col)) then 0 else c.eolCol;
      Cursor(line, if clip && col != c.col && col > eol then eol else col, h)
  }

  /** The column of a vertical move, moved back to the start of a wide character it would split. */
  function Realigned(b: Buffer, nline: int, col: int): int
    requires Sound(b)
  {
    if b.binary || nline < 1 || nline > |b.lines| then col else Straddle(b.dec, b.lines[nline - 1], 1, col)
  }

  /** Column of the character of s, shown from `at` on, that straddles col; col itself if none does. */
  function Straddle(dec: Decoder, s: Text, at: int, col: int): int
    requires Decodes(dec)
    decreases |s|
  {
    if at >= col || s == [] then col
    else
      var (width, length) := dec(at, s);
      if at + width > col then at else Straddle(dec, s[length..], at + width, col)
  }

  function TargetLine(line: int, n: int, down: bool): int {
    if down then (if line + n > LINEMAX then LINEMAX else line + n) else if n >= line then 1 else line - n
  }

  function LineMoved(b: Buffer, c: Cursor, n: int, down: bool): Cursor
    requires Sound(b)
  {
    var nline := TargetLine(c.line, n, down);
    Moved(b, c, nline, Realigned(b, nline, c.col), true, false)
  }

  /** The last line that the cursor may be on. */
  function LastLine(b: Buffer, clip: bool): int { |b.lines| + if clip || b.eofCursor then 0 else b.ext }

  /** A move goes to its target line, as far as the first and the last line allow. Unless it obeys the end of
      lines it goes to its target column too, or, when it clips and changes the column, to the end of the
      line at most. */
  lemma MovedStaysNear(b: Buffer, c: Cursor, nline: int, ncol: int, obey: bool, clip: bool)
    requires Sound(b)
    ensures var r := Moved(b, c, nline, ncol, obey, clip);
            && 1 <= r.line == Max(1, Min(nline, LastLine(b, clip))) <= |b.lines| + b.ext
            && (b.eofCursor || clip ==> r.line <= |b.lines|)
            && (!b.eolCursor || !obey ==>
                  r.col == if clip && Max(1, ncol) != c.col then Min(Max(1, ncol), Eol(b, r.line)) else Max(1, ncol))
            && (!b.eolCursor ==> r.eolCol == c.eolCol)
  {
  }

  // ----- Where a vertical move goes

  /** Line after a vertical move: n lines on or back, as far as there are lines. */
  lemma VerticalLine(b: Buffer, c: Cursor, n: int, down: bool)
    requires Sound(b) && 0 < n
    ensures LineMoved(b, c, n, down).line ==
            if down then Max(1, Min(Min(c.line + n, 0x7fff_ffff), LastLine(b, false)))
            else Max(1, Min(c.line - n, LastLine(b, false)))
  {
    var nline := TargetLine(c.line, n, down);
    MovedStaysNear(b, c, nline, Realigned(b, nline, c.col), true, false);
  }

  /** A column inside a character is moved to the start of that character; one that is the start of a
      character, or not inside the line, stays. */
  lemma {:induction false} StraddleIsBoundary(dec: Decoder, s: Text, at: int, col: int, i: nat)
    requires Decodes(dec) && i <= Chars(dec, s, at)
    ensures i < Chars(dec, s, at) && ColAt(dec, s, at, i) <= col < ColAt(dec, s, at, i + 1) ==>
              Straddle(dec, s, at, col) == ColAt(dec, s, at, i)
    ensures col <= at || ColAt(dec, s, at, Chars(dec, s, at)) <= col ==> Straddle(dec, s, at, col) == col
    decreases |s|
  {
    if at < col && s != [] {
      var (width, length) := dec(at, s);
      var tail, k := s[length..], Chars(dec, s, at);
      assert k == 1 + Chars(dec, tail, at + width);
      hide Chars, ColAt;
      var j := if i == 0 then 0 else i - 1;
      StraddleIsBoundary(dec, tail, at + width, col, j);
      ColumnsReach(dec, tail, at + width, j);
      ColumnsReach(dec, s, at, 0);
      OneOn(dec, s, at, i + 1);
      OneOn(dec, s, at, k);
      if 0 < i { OneOn(dec, s, at, i); }
    } else if s != [] {
      ColumnsReach(dec, s, at, i);
      if 0 < i { ColumnsGrow(dec, s, at, 0, i); }
    }
  }

  /** Columns go up to the one past the last character. */
  lemma ColumnsReach(dec: Decoder, s: Text, at: int, i: nat)
    requires Decodes(dec) && i <= Chars(dec, s, at)
    ensures at <= ColAt(dec, s, at, i) <= ColAt(dec, s, at, Chars(dec, s, at))
    ensures ColAt(dec, s, at, 0) == at
  {
    if 0 < i { ColumnsGrow(dec, s, at, 0, i); }
    if i < Chars(dec, s, at) { ColumnsGrow(dec, s, at, i, Chars(dec, s, at)); }
  }

  /** Column after a vertical move to a line of the buffer: inside a wide character it is moved to the start
      of that character, except in binary mode; everywhere else it stays, as far as the end of the line
      need not be obeyed. */
  lemma VerticalColumn(b: Buffer, c: Cursor, n: int, down: bool, i: nat)
    requires Sound(b) && 0 < n && 1 <= c.col
    requires var line := if down then c.line + n else Max(1, c.line - n);
             1 <= line <= |b.lines| && line <= 0x7fff_ffff && i < LineChars(b, line)
    ensures var line := if down then c.line + n else Max(1, c.line - n);
            var r := LineMoved(b, c, n, down);
            && r.line == line
            && (!b.binary && Column(b, line, i) < c.col < Column(b, line, i + 1) ==> r.col == Column(b, line, i))
            && (!b.eolCursor && (b.binary || c.col == Column(b, line, i) || Eol(b, line) <= c.col) ==> r.col == c.col)
  {
    var line := if down then c.line + n else Max(1, c.line - n);
    var s := b.lines[line - 1];
    StraddleIsBoundary(b.dec, s, 1, c.col, i);
    ColumnsReach(b.dec, s, 1, i);
    ColumnsGrow(b.dec, s, 1, i, i + 1);
    hide Straddle, Chars, ColAt;
  }

  /** On a line past the buffer a vertical move leaves the column, and the one remembered, as they are. */
  lemma PastKeepsColumn(b: Buffer, c: Cursor, n: int, down: bool)
    requires Sound(b) && 0 < n && 1 <= c.col && |b.lines| < LineMoved(b, c, n, down).line
    ensures LineMoved(b, c, n, down).col == c.col && LineMoved(b, c, n, down).eolCol == c.eolCol
  {
    VerticalLine(b, c, n, down);
  }

  /** The column is inside a character of the line, past its first column. */
  ghost predicate Splits(b: Buffer, line: int, col: int)
    requires Sound(b)
  {
    exists i: nat :: i < LineChars(b, line) && Column(b, line, i) < col < Column(b, line, i + 1)
  }

  lemma {:induction false} StraddleNeverSplits(dec: Decoder, s: Text, at: int, col: int)
    requires Decodes(dec)
    ensures Straddle(dec, s, at, col) <= col && (at <= col ==> at <= Straddle(dec, s, at, col))
    ensures forall i: nat :: i < Chars(dec, s, at) ==>
              !(ColAt(dec, s, at, i) < Straddle(dec, s, at, col) < ColAt(dec, s, at, i + 1))
    decreases |s|
  {
    forall i: nat | i < Chars(dec, s, at)
      ensures !(ColAt(dec, s, at, i) < Straddle(dec, s, at, col) < ColAt(dec, s, at, i + 1))
    {
      ColumnsReach(dec, s, at, i);
      if at < col && s != [] {
        var (width, length) := dec(at, s);
        if at + width <= col {
          StraddleNeverSplits(dec, s[length..], at + width, col);
          if i == 0 { ColumnsReach(dec, s[length..], at + width, 0); }
        }
      }
    }
    if at < col && s != [] {
      var (width, length) := dec(at, s);
      if at + width <= col { StraddleNeverSplits(dec, s[length..], at + width, col); }
    }
  }

  /** A vertical move leaves the cursor inside a wide character if and only if it was to go past the end of
      the buffer, no line there may be reached, and the last line has such a character there: only the line
      that was asked for is looked at. (In text mode, where the end of lines is not obeyed.) */
  lemma SplitsIff(b: Buffer, c: Cursor, n: int, down: bool)
    requires Sound(b) && !b.binary && !b.eolCursor && |b.lines| < 0x7fff_ffff
    requires 0 < n && 1 <= c.line && 1 <= c.col
    ensures var r := LineMoved(b, c, n, down);
            Splits(b, r.line, r.col) <==>
            var line := if down then c.line + n else c.line - n;
            |b.lines| < line && (b.eofCursor || b.ext == 0) && Splits(b, |b.lines|, c.col)
  {
    hide Straddle, Chars, ColAt;
    VerticalLine(b, c, n, down);
    var nline := TargetLine(c.line, n, down);
    if 1 <= nline <= |b.lines| {
      StraddleNeverSplits(b.dec, b.lines[nline - 1], 1, c.col);
    }
  }

  /** Two lines, the second with one character two columns wide: five lines down from the second column of
      the first line is the middle of that character. */
  lemma SplitsLastCharacter()
    ensures var b := Buffer([[0x61, 0x61], [0x62]], (col, s) => (if s != [] && s[0] == 0x62 then 2 else 1, 1), false,
                            true, false, 6);
            && Sound(b) && LineMoved(b, Cursor(1, 2, 0), 5, true) == Cursor(2, 2, 0)
            && Column(b, 2, 0) == 1 && Column(b, 2, 1) == 3 && Splits(b, 2, 2)
  {
    var b := Buffer([[0x61, 0x61], [0x62]], (col, s) => (if s != [] && s[0] == 0x62 then 2 else 1, 1), false, true,
        false, 6);
    assert b.lines[1][1..] == [];
    assert Chars(b.dec, b.lines[1], 1) == 1 && ColAt(b.dec, b.lines[1], 1, 1) == 3;
    assert Column(b, 2, 0) < 2 < Column(b, 2, 0 + 1);
  }

  // ----- Sticky columns

  /** A vertical move by n lines. */
  datatype Step = Step(n: nat, down: bool)

  function Run(b: Buffer, c: Cursor, steps: seq<Step>): Cursor
    requires Sound(b)
    decreases |steps|
  {
    if steps == [] then c else Run(b, LineMoved(b, c, steps[0].n, steps[0].down), steps[1..])
  }

  /** No step of the run has to move the column off a wide character. */
  predicate NoRealignment(b: Buffer, c: Cursor, steps: seq<Step>)
    requires Sound(b)
    decreases |steps|
  {
    steps == [] ||
    var s := steps[0];
    Realigned(b, TargetLine(c.line, s.n, s.down), c.col) == c.col
        && NoRealignment(b, LineMoved(b, c, s.n, s.down), steps[1..])
  }

  /** The cursor belongs at column `want`: it is there, or remembers it; on a line of the buffer it is
      there whenever the line reaches that far, and never past the end. */
  ghost predicate Sticks(b: Buffer, c: Cursor, want: int)
    requires Sound(b)
  {
    && 1 <= c.col <= want
    && (if c.eolCol == 0 then c.col == want else c.eolCol == want && c.col < want)
    && (1 <= c.line <= |b.lines| ==> if want <= Eol(b, c.line) then c.col == want else c.col <= Eol(b, c.line))
  }

  lemma EolPositive(b: Buffer, line: int)
    requires Sound(b) && 1 <= line <= |b.lines|
    ensures 1 <= Eol(b, line)
  {
    var s := b.lines[line - 1];
    if Chars(b.dec, s, 1) > 0 { ColumnsGrow(b.dec, s, 1, 0, Chars(b.dec, s, 1)); }
  }

  lemma StepSticks(b: Buffer, c: Cursor, n: int, down: bool, want: int)
    requires Sound(b) && b.eolCursor && Sticks(b, c, want)
    requires Realigned(b, TargetLine(c.line, n, down), c.col) == c.col
    ensures Sticks(b, LineMoved(b, c, n, down), want)
  {
    var line := Clipped(b, TargetLine(c.line, n, down), false);
    if 1 <= line <= |b.lines| { EolPositive(b, line); }
  }

  /** Over any run of vertical moves the column comes back on every line that is long enough. */
  lemma {:induction false} StickyColumn(b: Buffer, c: Cursor, steps: seq<Step>)
    requires Sound(b) && b.eolCursor
    requires c.eolCol == 0 && 1 <= c.line <= |b.lines| && 1 <= c.col <= Eol(b, c.line)
    requires NoRealignment(b, c, steps)
    ensures Sticks(b, Run(b, c, steps), c.col)
  {
    StickyRun(b, c, steps, c.col);
  }

  lemma {:induction false} StickyRun(b: Buffer, c: Cursor, steps: seq<Step>, want: int)
    requires Sound(b) && b.eolCursor && Sticks(b, c, want) && NoRealignment(b, c, steps)
    ensures Sticks(b, Run(b, c, steps), want)
    decreases |steps|
  {
    if steps != [] {
      StepSticks(b, c, steps[0].n, steps[0].down, want);
      StickyRun(b, LineMoved(b, c, steps[0].n, steps[0].down), steps[1..], want);
    }
  }

  /** Lines that a run goes down, less those that it goes up. */
  function Net(steps: seq<Step>): int {
    if steps == [] then 0 else if steps[0].down then Net(steps[1..]) + steps[0].n else Net(steps[1..]) - steps[0].n
  }

  /** No step of a run from the given line has to stop short. */
  predicate StaysOn(b: Buffer, line: int, steps: seq<Step>)
    decreases |steps|
  {
    steps == [] ||
    var line' := if steps[0].down then line + steps[0].n else line - steps[0].n;
    0 < steps[0].n && 1 <= line' <= LastLine(b, false) && line' <= 0x7fff_ffff && StaysOn(b, line', steps[1..])
  }

  /** A run that never has to stop short ends where its steps add up to. */
  lemma {:induction false} RunAddsUp(b: Buffer, c: Cursor, steps: seq<Step>)
    requires Sound(b) && StaysOn(b, c.line, steps)
    ensures Run(b, c, steps).line == c.line + Net(steps)
    decreases |steps|
  {
    if steps != [] {
      VerticalLine(b, c, steps[0].n, steps[0].down);
      RunAddsUp(b, LineMoved(b, c, steps[0].n, steps[0].down), steps[1..]);
    }
  }

  /** Down and up again, in any number of steps, the cursor comes back to the very same place. */
  lemma ThereAndBack(b: Buffer, c: Cursor, steps: seq<Step>)
    requires Sound(b) && b.eolCursor
    requires c.eolCol == 0 && 1 <= c.line <= |b.lines| && 1 <= c.col <= Eol(b, c.line)
    requires StaysOn(b, c.line, steps) && Net(steps) == 0 && NoRealignment(b, c, steps)
    ensures Run(b, c, steps) == c
  {
    RunAddsUp(b, c, steps);
    StickyColumn(b, c, steps);
  }

  /** A move that does not obey the end of lines, or changes the column on its line, sets the column that
      later vertical moves come back to. */
  lemma MoveStartsColumn(b: Buffer, c: Cursor, nline: int, ncol: int, obey: bool, clip: bool)
    requires Sound(b) && b.eolCursor && (!obey || (nline == c.line && ncol != c.col))
    requires 1 <= nline <= |b.lines| && 1 <= ncol <= Eol(b, nline)
    ensures var r := Moved(b, c, nline, ncol, obey, clip);
            r == Cursor(nline, ncol, 0) && Sticks(b, r, ncol)
  {
  }

  /** Where every character is one column wide nothing is ever realigned. */
  lemma {:induction false} SingleWidthsNeverStraddle(dec: Decoder, s: Text, at: int, col: int)
    requires Decodes(dec) && forall c: int, u: Text :: u != [] ==> dec(c, u).0 == 1
    ensures Straddle(dec, s, at, col) == col
    decreases |s|
  {
    if at < col && s != [] {
      SingleWidthsNeverStraddle(dec, s[dec(at, s).1..], at + 1, col);
    }
  }

  /** The position of the cursor is flat offset o. */
  ghost predicate Stands(b: Buffer, line: int, col: int, o: int)
    requires Sound(b)
  {
    exists i: nat :: At(b, line, col, i) && Flat(b, line, i) == o
  }

  /** A cursor stands at one offset only. */
  lemma CursorAt(b: Buffer, line: int, col: int, i: nat)
    requires Sound(b) && At(b, line, col, i)
    ensures forall o :: Stands(b, line, col, o) <==> o == Flat(b, line, i)
  {
    forall o | Stands(b, line, col, o) ensures o == Flat(b, line, i) {
      var j: nat :| At(b, line, col, j) && Flat(b, line, j) == o;
      if line <= |b.lines| {
        if i < j { ColumnsGrow(b.dec, b.lines[line - 1], 1, i, j); }
        if j < i { ColumnsGrow(b.dec, b.lines[line - 1], 1, j, i); }
      }
    }
  }

  function BufferEnd(b: Buffer): nat
    requires Sound(b)
  {
    Flat(b, |b.lines|, LineChars(b, |b.lines|))
  }

  /** The cursor has to leave the buffer to get to flat offset o. In binary mode the end of the buffer is
      the start of the line past it, unless the last line is empty and starts there. */
  predicate PastEnd(b: Buffer, o: int)
    requires Sound(b)
  {
    if b.binary then BufferEnd(b) <= o && LineStart(b, |b.lines|) < o else BufferEnd(b) < o
  }

  /** Where the cursor ends up n characters on from offset o of a line: where the walk ends, or, if that
      is past a buffer which the cursor may not leave, at the start of the last line. */
  function NextOffset(b: Buffer, line: int, o: int, n: int): int
    requires Sound(b) && 1 <= line
  {
    var t := NextTarget(b, line, o, n);
    if line < BottomLine(b) && b.eofCursor && PastEnd(b, t) then LineStart(b, |b.lines|) else t
  }

  /** The cursor arrives n characters on if and only if it is above the bottom line, the walk ends by the
      start of that line, and it need not leave a buffer that it may not leave. */
  lemma NextArrives(b: Buffer, line: int, i: nat, n: int)
    requires Sound(b) && 1 <= line && i <= LineChars(b, line) && 0 < n
    ensures var o := Flat(b, line, i);
            NextOffset(b, line, o, n) == o + n <==>
            line < BottomLine(b) && o + n <= LineStart(b, BottomLine(b)) && (b.eofCursor ==> !PastEnd(b, o + n))
  {
    LineStartsGrow(b, |b.lines|, BottomLine(b));
  }

  /** The same for a walk that ends inside the buffer: lines must be allowed past the buffer, or the walk
      begin above the last line and end by its start; and under the end-of-file rule the end of a binary
      buffer is out of reach from its last line. */
  lemma NextInside(b: Buffer, line: int, i: nat, n: int)
    requires Sound(b) && 1 <= line <= |b.lines| && i <= LineChars(b, line) && 0 < n
    requires Flat(b, line, i) + n <= BufferEnd(b)
    ensures var o := Flat(b, line, i);
            NextOffset(b, line, o, n) == o + n <==>
            || (line < |b.lines| && o + n <= LineStart(b, |b.lines|))
            || (0 < b.ext && !(b.binary && b.eofCursor && o + n == BufferEnd(b)))
  {
    LineStartsGrow(b, |b.lines|, BottomLine(b));
    LineStartsGrow(b, line, |b.lines|);
    NextArrives(b, line, i, n);
  }

  /** What a walk on promises of its end in binary mode: never the end of a line, and a line no further
      on than needed. */
  ghost predicate Tight(b: Buffer, line: int, o: int, n: int, line': int, i': nat)
    requires Sound(b) && 1 <= line
  {
    b.binary ==>
      && (i' == 0 || i' < LineChars(b, line'))
      && line <= line' && (line < line' ==> LineStart(b, line' - 1) < o + n)
  }

  /** The walk on leaves the buffer exactly if it has to. */
  lemma LandsPast(b: Buffer, line: int, i: nat, n: int, line': int, i': nat)
    requires Sound(b) && 1 <= line < BottomLine(b) && i <= LineChars(b, line) && 0 < n && 1 <= line'
    requires i' <= LineChars(b, line') && Tight(b, line, Flat(b, line, i), n, line', i')
    requires Flat(b, line', i') == NextTarget(b, line, Flat(b, line, i), n)
    ensures PastEnd(b, Flat(b, line', i')) ==> |b.lines| < line'
    ensures |b.lines| < line' && !PastEnd(b, Flat(b, line', i')) ==> Flat(b, line', i') == LineStart(b, |b.lines|)
  {
    if |b.lines| < line' {
      LineStartsGrow(b, |b.lines|, line');
    } else {
      LineStartsGrow(b, line', |b.lines|);
      if line' < |b.lines| { LineStartsGrow(b, line' + 1, |b.lines|); }
    }
    if b.binary && |b.lines| < line' { EmptyLinesPast(b, |b.lines| + 1, line'); }
  }

  /** Where the cursor of a walk on is, from where the walk ended. */
  lemma CursorLands(b: Buffer, c: Cursor, i: nat, n: int, line': int, col': int, i': nat)
    requires Sound(b) && 1 <= c.line < BottomLine(b) && i <= LineChars(b, c.line) && 0 < n
    requires At(b, line', col', i') && 1 <= col' && line' <= BottomLine(b)
    requires |b.lines| < line' ==> c.line < line' && col' == 1
    requires Tight(b, c.line, Flat(b, c.line, i), n, line', i')
    requires Flat(b, line', i') == NextTarget(b, c.line, Flat(b, c.line, i), n)
    ensures var r := Arrived(b, c, line', col');
            forall o :: Stands(b, r.line, r.col, o) <==> o == NextOffset(b, c.line, Flat(b, c.line, i), n)
  {
    hide Stands, Chars, NextTarget, Tight;
    var r := Arrived(b, c, line', col');
    LandsPast(b, c.line, i, n, line', i');
    var j: nat := if r.line == line' then i' else 0;
    assert At(b, r.line, r.col, j);
    assert Flat(b, r.line, j) == NextOffset(b, c.line, Flat(b, c.line, i), n);
    CursorAt(b, r.line, r.col, j);
  }

  lemma CursorStays(b: Buffer, c: Cursor, i: nat, n: int)
    requires Sound(b) && BottomLine(b) <= c.line && At(b, c.line, c.col, i)
    ensures Flat(b, c.line, i) == NextTarget(b, c.line, Flat(b, c.line, i), n)
    ensures forall o :: Stands(b, c.line, c.col, o) <==> o == NextOffset(b, c.line, Flat(b, c.line, i), n)
  {
    hide Stands;
    CursorAt(b, c.line, c.col, i);
  }

  /** A cursor that arrives is where its walk ended. */
  lemma ArrivedThere(b: Buffer, c: Cursor, i: nat, n: int, line': int, col': int, i': nat)
    requires Sound(b) && 1 <= c.line <= |b.lines| && c.line < BottomLine(b) && i <= LineChars(b, c.line) && 0 < n
    requires At(b, line', col', i') && 1 <= col' && line' <= BottomLine(b)
    requires Tight(b, c.line, Flat(b, c.line, i), n, line', i')
    requires Flat(b, line', i') == NextTarget(b, c.line, Flat(b, c.line, i), n) == Flat(b, c.line, i) + n
    requires b.eofCursor ==> !PastEnd(b, Flat(b, c.line, i) + n)
    ensures Arrived(b, c, line', col').line == line' && Arrived(b, c, line', col').col == col'
  {
    hide Chars;
    LandsPast(b, c.line, i, n, line', i');
    if b.eofCursor && |b.lines| < line' {
      LineStartsGrow(b, c.line, |b.lines|);
      LineStartsGrow(b, |b.lines|, line' - 1);
    }
  }

  // ----- The window

  class Window {
    const b: Buffer
    var line: int
    var col: int
    var eolCol: int

    constructor (b: Buffer)
      ensures this.b == b && Cur() == Cursor(1, 1, 0)
    {
      this.b, line, col, eolCol := b, 1, 1, 0;
    }

    function Cur(): Cursor
      reads this
    {
      Cursor(line, col, eolCol)
    }

    /** The column past the end of a line, 0 past the buffer. */
    method LineColumnEol(line: int) returns (eol: int)
      requires Sound(b)
      ensures eol == Eol(b, line)
    {
      if line < 1 || |b.lines| < line {
        return 0;
      }
      var s := b.lines[line - 1];
      ghost var chars := Chars(b.dec, s, 1);
      RestOfLine(b.dec, s, 1, chars);
      eol := LineColumn(b.dec, s, |s|, chars);
    }

    /** Moves the cursor, keeping it near the buffer and, when told to obey, at the remembered column. */
    method Move(nline: int, ncol: int, obey: bool, clip: bool) returns (ret: bool)
      requires Sound(b)
      modifies this
      ensures Cur() == Moved(b, old(Cur()), nline, ncol, obey, clip)
      ensures ret <==> line != old(line) || col != old(col)
    {
      var nline, ncol, clip := nline, ncol, clip;
      var cline, ccol, numlines := line, col, |b.lines|;
      ret := false;
      if ncol < 1 {
        ncol := 1;
      }
      if nline < 1 {
        nline := 1;
      } else if nline > numlines {
        if clip || b.eofCursor {
          nline := numlines;
        } else if nline > numlines + b.ext {
          nline := numlines + b.ext;
        }
      }
      if b.eolCursor {
        if !obey {
          eolCol := 0;
        } else if ncol == ccol && nline != cline {
          var eol := LineColumnEol(nline);
          if ncol > eol {
            if eol > 0 {
              if eolCol == 0 {
                eolCol := ncol;
              }
              ncol := eol;
            }
          } else if eolCol != 0 && eol >= eolCol {
            ncol := eolCol;
            eolCol := 0;
          }
          clip := false;
        } else if nline == cline && ncol != ccol {
          eolCol := 0;
        }
      }
      if clip {
        if ncol != ccol {
          var eol := LineColumnEol(nline);
          if ncol > eol {
            ncol := eol;
          }
        }
      }
      if cline != nline || ccol != ncol {
        line, col := nline, ncol;
        ret := true;
      }
    }

    /** Moves to a line and column, either of which is kept when not positive; nothing happens when
        already there. */
    method Move2(nline: int, ncol: int)
      requires Sound(b)
      modifies this
      ensures Cur() == Arrived(b, old(Cur()),
                               if 0 < nline then nline else old(line), if 0 < ncol then ncol else old(col))
    {
      hide Moved;
      if 0 < nline && 0 < ncol {
        if line != nline || col != ncol {
          var _ := Move(nline, ncol, false, false);
        }
      } else if 0 < nline {
        if line != nline {
          var _ := Move(nline, col, false, false);
        }
      } else if 0 < ncol {
        if col != ncol {
          var _ := Move(line, ncol, false, false);
        }
      }
    }

    /** Moves n lines up or down. */
    method MovLine(n: int, down: bool)
      requires Sound(b) && 0 < n
      modifies this
      ensures Cur() == LineMoved(b, old(Cur()), n, down)
      ensures line == if down then Max(1, Min(Min(old(line) + n, 0x7fff_ffff), LastLine(b, false)))
                      else Max(1, Min(old(line) - n, LastLine(b, false)))
    {
      VerticalLine(b, Cur(), n, down);
      var nline, ncol;
      if down {
        nline := if line + n > LINEMAX then LINEMAX else line + n;
      } else {
        nline := if n >= line then 1 else line - n;
      }
      ncol := col;
      if !b.binary && 1 <= nline <= |b.lines| {
        var s := b.lines[nline - 1];
        var pos, cp := 1, 0;
        while pos < col && cp < |s|
          invariant cp <= |s| && ncol == col
          invariant Straddle(b.dec, s, 1, col) == Straddle(b.dec, s[cp..], pos, col)
          decreases |s| - cp
        {
          var (width, length) := b.dec(pos, s[cp..]);
          if pos + width > col {
            ncol := pos;
            break;
          }
          assert s[cp..][length..] == s[cp + length..];
          pos, cp := pos + width, cp + length;
        }
      }
      var _ := Move(nline, ncol, true, false);
    }

    /** Moves n characters on. The walk may end on a line past the buffer, up to the bottom line. */
    method MoveNextChar(n: int, ghost i: nat) returns (ghost line': int, ghost col': int, ghost i': nat)
      requires Sound(b) && 0 < n && At(b, line, col, i) && 1 <= col
      modifies this
      ensures At(b, line', col', i') && 1 <= col' && line' <= Max(old(line), BottomLine(b))
      ensures |b.lines| < line' && line' != old(line) ==> col' == 1
      ensures Flat(b, line', i') == NextTarget(b, old(line), Flat(b, old(line), i), n)
      ensures old(line) < BottomLine(b) ==> Tight(b, old(line), Flat(b, old(line), i), n, line', i')
      ensures Cur() == Arrived(b, old(Cur()), line', col')
      ensures forall o :: Stands(b, line, col, o) <==> o == NextOffset(b, old(line), Flat(b, old(line), i), n)
    {
      hide Stands, Chars, Flat, Tight, NextTarget;
      var bottom := |b.lines| + b.ext;
      if line >= bottom {
        CursorStays(b, Cur(), i, n);
        return line, col, i;
      }
      var l, c;
      if !b.binary {
        l, c, i' := NextText(n, i, bottom);
      } else {
        l, c, i' := NextBinary(n, i, bottom);
      }
      line', col' := l, c;
      if l <= |b.lines| { ColumnPositive(b, l, c, i'); }
      ghost var c0 := Cur();
      Move2(l, c);
      CursorLands(b, c0, i, n, l, c, i');
    }

    /** Text mode: skip whole lines, one unit for each line end, then step into the last one. */
    method NextText(n: int, ghost i: nat, bottom: int) returns (l: int, c: int, ghost i': nat)
      requires Sound(b) && !b.binary && 0 < n && At(b, line, col, i)
      requires line < bottom == BottomLine(b)
      ensures At(b, l, c, i') && l <= bottom && (|b.lines| < l ==> line < l && c == 1)
      ensures Flat(b, l, i') == NextTarget(b, line, Flat(b, line, i), n)
      ensures Tight(b, line, Flat(b, line, i), n, l, i')
    {
      hide Chars;
      var left := n;
      l, c, i' := line, col, i;
      LineStartsGrow(b, line, bottom);
      while left > 0 && l < bottom
        invariant line <= l <= bottom && At(b, l, c, i') && (line < l && |b.lines| < l ==> c == 1)
        invariant l == bottom ==> i' == 0
        invariant 0 <= left && Flat(b, l, i') + left == Flat(b, line, i) + n
        decreases bottom - l
      {
        var count := 0;
        if l <= |b.lines| {
          var s := b.lines[l - 1];
          var dot := 0;
          if c > 1 {
            dot := LineOffset(b.dec, s, c, i');
          } else if i' > 0 {
            ColumnsGrow(b.dec, s, 1, 0, i');
          }
          RestOfLine(b.dec, s, 1, i');
          if dot < |s| {
            count, c := SizeRegion(b.dec, s, c, dot, left, i');
          }
        }
        left := left - count;
        i' := i' + count;
        LineStartsGrow(b, l, bottom);
        if left <= 0 {
          LineStartsGrow(b, l + 1, bottom);
          return;
        }
        l, c, i' := l + 1, 1, 0;
        left := left - 1;
      }
      LineStartsGrow(b, l, bottom);
    }

    /** Byte offset of the cursor in a line of a binary buffer; offset and character are the same. */
    method DotOf(l: int, c: int, ghost i: nat) returns (dot: nat)
      requires Sound(b) && b.binary && At(b, l, c, i) && l <= |b.lines|
      ensures dot == i
    {
      var s := b.lines[l - 1];
      LineBytes(b, l);
      SingleByteBoundaries(b.dec, s, 1, i);
      dot := 0;
      if c > 1 {
        dot := LineOffset(b.dec, s, c, i);
      } else if i > 0 {
        ColumnsGrow(b.dec, s, 1, 0, i);
      }
    }

    /** The column of a byte offset. */
    method ColumnOf(l: int, dot: nat) returns (c: int)
      requires Sound(b) && b.binary && 1 <= l <= |b.lines| && dot <= |b.lines[l - 1]|
      ensures At(b, l, c, dot)
    {
      LineBytes(b, l);
      SingleByteBoundaries(b.dec, b.lines[l - 1], 1, dot);
      c := LineColumn(b.dec, b.lines[l - 1], dot, dot);
    }

    /** Binary mode: the same in bytes, with nothing between lines; the end of a line is the start of the next. */
    method NextBinary(n: int, ghost i: nat, bottom: int) returns (l: int, c: int, ghost i': nat)
      requires Sound(b) && b.binary && 0 < n && At(b, line, col, i)
      requires line < bottom == BottomLine(b)
      ensures At(b, l, c, i') && l <= bottom && (|b.lines| < l ==> line < l && c == 1)
      ensures Flat(b, l, i') == NextTarget(b, line, Flat(b, line, i), n)
      ensures Tight(b, line, Flat(b, line, i), n, l, i')
    {
      hide Chars;
      var left := n;
      l, c, i' := line, col, i;
      if |b.lines| < line { EmptyLinesPast(b, line, bottom); }
      while left > 0 && l < bottom
        invariant line <= l <= bottom && At(b, l, c, i') && (line < l && |b.lines| < l ==> c == 1)
        invariant 0 < left && (l == bottom ==> i' == 0)
        invariant l <= |b.lines| ==> Flat(b, l, i') + left == Flat(b, line, i) + n
        invariant |b.lines| < l ==> LineStart(b, bottom) < Flat(b, line, i) + n && i' == 0
        invariant line < l ==> LineStart(b, l - 1) < Flat(b, line, i) + n && i' == 0
        decreases bottom - l
      {
        LineStartsGrow(b, l + 1, bottom);
        if l <= |b.lines| {
          LineBytes(b, l);
          var dot := DotOf(l, c, i');
          var length := |b.lines[l - 1]|;
          if dot + left <= length {
            if dot + left == length {
              l, c, i' := l + 1, 1, 0;
            } else {
              c := ColumnOf(l, dot + left);
              i' := dot + left;
            }
            return;
          }
          left := left - (length - dot);
        }
        l, c, i' := l + 1, 1, 0;
        if l == |b.lines| + 1 { EmptyLinesPast(b, l, bottom); }
      }
    }

    /** Moves n characters back, as far as the top of the buffer. A column of 0 stands for the one the
        cursor has: so it does on a line past the buffer. */
    method MovePrevChar(n: int, ghost i: nat) returns (ghost line': int, ghost col': int, ghost i': nat)
      requires Sound(b) && At(b, line, col, i) && 1 <= col
      modifies this
      ensures At(b, line', col', i') && line' <= old(line) && (line' <= |b.lines| ==> 1 <= col')
      ensures b.binary && 0 < n ==> line' <= |b.lines|
      ensures Flat(b, line', i') == if n <= 0 then Flat(b, old(line), i) else Max(0, Flat(b, old(line), i) - n)
      ensures Cur() == Arrived(b, old(Cur()), line', if 0 < col' then col' else old(col))
      ensures old(line) <= LastLine(b, false) ==>
                forall o :: Stands(b, line, col, o) <==>
                  o == if n <= 0 then Flat(b, old(line), i) else Max(0, Flat(b, old(line), i) - n)
    {
      hide Stands, Chars;
      if n <= 0 || (col <= 1 && line <= 1) {
        if i > 0 && line <= 1 { ColumnsGrow(b.dec, b.lines[line - 1], 1, 0, i); }
        CursorAt(b, line, col, i);
        return line, col, i;
      }
      var l, c;
      if !b.binary {
        l, c, i' := PrevText(n, i);
      } else {
        l, c, i' := PrevBinary(n, i);
      }
      line', col' := l, c;
      if l <= |b.lines| { ColumnPositive(b, l, c, i'); }
      Move2(l, c);
      if old(line) <= LastLine(b, false) { CursorAt(b, line, col, i'); }
    }

    /** The text of a line; past the buffer the editor reads an empty one. */
    function TextOf(l: int): Text
      requires 1 <= l
    {
      if l <= |b.lines| then b.lines[l - 1] else []
    }

    /** Text mode: count the characters before the cursor, then whole lines, then walk into the last one. */
    method PrevText(n: int, ghost i: nat) returns (l: int, c: int, ghost i': nat)
      requires Sound(b) && !b.binary && 0 < n && At(b, line, col, i) && 1 <= col
      ensures At(b, l, c, i') && l <= line && 0 <= c
      ensures Flat(b, l, i') == PrevTarget(Flat(b, line, i), n)
    {
      var left := n;
      l, c, i' := line, col, i;
      while true
        invariant 1 <= l <= line && 0 < left && i' <= LineChars(b, l) && 0 <= c
        invariant if 0 < c then At(b, l, c, i') else i' == LineChars(b, l)
        invariant Flat(b, l, i') - left == Flat(b, line, i) - n
        decreases l
      {
        var count, hit := CharsBefore(TextOf(l), c, left, i');
        if hit > 0 {
          c, i' := hit, i' - 1;
          return;
        }
        if count >= left {
          c := ColumnAfter(TextOf(l), count - left);
          i' := count - left;
          ColumnPositive(b, l, c, i');
          return;
        }
        l := l - 1;
        if l < 1 {
          l, c, i' := 1, 1, 0;
          return;
        }
        left := left - (count + 1);
        i' := LineChars(b, l);
        if left <= 0 {
          c := LineColumnEol(l);
          if l <= |b.lines| { EolPositive(b, l); }
          return;
        }
        c := 0;
      }
    }

    /** Characters of the line before column col, or all of them when col is 0. When one character is
        all that is wanted, its column instead, in `hit`. */
    method CharsBefore(s: Text, col: int, n: int, ghost i: nat) returns (count: nat, hit: int)
      requires Sound(b) && 0 <= col && 0 < n && i <= Chars(b.dec, s, 1)
      requires if 0 < col && s != [] then col == ColAt(b.dec, s, 1, i) else i == Chars(b.dec, s, 1)
      ensures hit == 0 ==> count == i
      ensures hit != 0 ==> 0 < hit && n == 1 && 0 < i && hit == ColAt(b.dec, s, 1, i - 1)
    {
      var cp, column := 0, 1;
      count, hit := 0, 0;
      while cp < |s|
        invariant count <= i && 1 <= column
        invariant cp == OffAt(b.dec, s, 1, count) && column == ColAt(b.dec, s, 1, count)
        decreases i - count
      {
        RestOfLine(b.dec, s, 1, count);
        if col > 0 && column >= col {
          if count < i { ColumnsGrow(b.dec, s, 1, count, i); }
          return;
        }
        NextBoundary(b.dec, s, 1, count);
        var prev := column;
        var (width, length) := b.dec(column, s[cp..]);
        column := column + width;
        if n == 1 && col > 0 && column >= col {
          if count + 1 < i { ColumnsGrow(b.dec, s, 1, count + 1, i); }
          hit := prev;
          return;
        }
        count, cp := count + 1, cp + length;
      }
      RestOfLine(b.dec, s, 1, count);
    }

    /** The column after the first n characters of a line. */
    method ColumnAfter(s: Text, n: nat) returns (c: int)
      requires Sound(b) && n <= Chars(b.dec, s, 1)
      ensures c == ColAt(b.dec, s, 1, n)
    {
      var cp, left := 0, n;
      c := 1;
      while left > 0 && cp < |s|
        invariant 0 <= left <= n && cp == OffAt(b.dec, s, 1, n - left) && c == ColAt(b.dec, s, 1, n - left)
      {
        NextBoundary(b.dec, s, 1, n - left);
        var (width, length) := b.dec(c, s[cp..]);
        c, cp, left := c + width, cp + length, left - 1;
      }
      RestOfLine(b.dec, s, 1, n - left);
    }

    /** Binary mode: the same in bytes, with nothing between lines. */
    method PrevBinary(n: int, ghost i: nat) returns (l: int, c: int, ghost i': nat)
      requires Sound(b) && b.binary && 0 < n && At(b, line, col, i) && 1 <= col
      ensures At(b, l, c, i') && l <= line && l <= |b.lines|
      ensures Flat(b, l, i') == PrevTarget(Flat(b, line, i), n)
    {
      hide Chars;
      var left, dot := n, 0;
      l := line;
      LineBytes(b, l);
      if l <= |b.lines| {
        dot := LineOffset(b.dec, b.lines[l - 1], col, i);
        SingleByteBoundaries(b.dec, b.lines[l - 1], 1, i);
      }
      while left > 0
        invariant 1 <= l <= line && 0 <= left && 0 <= dot <= LineChars(b, l)
        invariant |b.lines| < l ==> left == n
        invariant LineStart(b, l) + dot - left == Flat(b, line, i) - n
        decreases l, left
      {
        if dot > left {
          dot := dot - left;
          left := 0;
        } else if dot > 0 {
          left := left - dot;
          dot := 0;
        } else {
          l := l - 1;
          if l < 1 {
            l := 1;
            break;
          }
          LineBytes(b, l);
          dot := |TextOf(l)|;
        }
      }
      LineBytes(b, l);
      SingleByteBoundaries(b.dec, b.lines[l - 1], 1, dot);
      c := LineColumn(b.dec, b.lines[l - 1], dot, dot);
      i' := dot;
    }

    /** Moving on, when the cursor arrives, and back again ends at the same flat offset; in text mode that
        is the very same character. In binary mode the end of a line is the start of the next. */
    method NextThenPrev(n: int, ghost i: nat)
      requires Sound(b) && 0 < n && line <= |b.lines| && At(b, line, col, i)
      requires line < BottomLine(b) && Flat(b, line, i) + n <= LineStart(b, BottomLine(b))
      requires b.eofCursor ==> !PastEnd(b, Flat(b, line, i) + n)
      modifies this
      ensures forall o :: Stands(b, line, col, o) <==> o == Flat(b, old(line), i)
      ensures !b.binary ==> line == old(line) && col == old(col)
    {
      hide Stands, Chars;
      ColumnPositive(b, line, col, i);
      ghost var c0 := Cur();
      ghost var line1, col1, i1 := MoveNextChar(n, i);
      NextArrives(b, c0.line, i, n);
      ArrivedThere(b, c0, i, n, line1, col1, i1);
      ghost var line2, col2, i2 := MovePrevChar(n, i1);
      if !b.binary { FlatIsPosition(b, line2, i2, c0.line, i); }
      CursorAt(b, line, col, i2);
    }
  }

  lemma LineBytes(b: Buffer, line: int)
    requires Sound(b) && b.binary && 1 <= line
    ensures LineChars(b, line) == if line <= |b.lines| then |b.lines[line - 1]| else 0
  {
    if line <= |b.lines| { SingleByteBoundaries(b.dec, b.lines[line - 1], 1, 0); }
  }

  /** One line of two bytes, each a character one column wide. */
  function TwoBytes(binary: bool, ext: nat): Buffer {
    Buffer([[0x61, 0x62]], (col, s) => (1, 1), binary, binary, false, ext)
  }

  lemma TwoBytesAre(binary: bool, ext: nat)
    ensures var b := TwoBytes(binary, ext);
            && Sound(b) && LineChars(b, 1) == 2 && Column(b, 1, 0) == 1 && Column(b, 1, 1) == 2
            && LineStart(b, 1) == 0 && (binary ==> LineStart(b, 2) == LineStart(b, 3) == 2)
  {
    var b := TwoBytes(binary, ext);
    SingleByteBoundaries(b.dec, b.lines[0], 1, 0);
    hide Chars;
    assert binary ==> LineStart(b, 2) == 2;
  }

  /** On a terminal of six rows no line past the buffer can be reached, and within the last line the
      cursor does not even move on by one character. */
  method StuckOnLastLine() returns (cur: Cursor)
    ensures cur == Cursor(1, 1, 0)
  {
    var w := new Window(TwoBytes(false, 0));
    TwoBytesAre(false, 0);
    hide Sound, Chars, ColAt, Stands;
    ghost var _, _, _ := w.MoveNextChar(1, 0);
    cur := w.Cur();
  }

  /** In a binary buffer under the end-of-file rule, moving on by one from the second of two bytes goes
      back to the first. */
  method ClippedBack() returns (cur: Cursor)
    ensures cur == Cursor(1, 1, 0)
  {
    var w := new Window(TwoBytes(true, 2));
    TwoBytesAre(true, 2);
    hide Sound, Chars, ColAt, Stands, LineStart;
    var _ := w.Move(1, 2, false, false);
    ghost var line', col', i' := w.MoveNextChar(1, 1);
    PastLine(w.b, line', i');
    cur := w.Cur();
  }

  /** A walk on to the end of the first line in binary mode ends past it. */
  lemma PastLine(b: Buffer, line': int, i': nat)
    requires Sound(b) && b.binary && BottomLine(b) == 3 && 1 <= line'
    requires LineChars(b, 1) == 2 && LineStart(b, 1) == 0 && LineStart(b, 3) == 2
    requires Tight(b, 1, Flat(b, 1, 1), 1, line', i') && Flat(b, line', i') == NextTarget(b, 1, Flat(b, 1, 1), 1)
    ensures 2 <= line'
  {
    hide LineChars, LineStart;
  }

  /** The last line that a walk through the characters reaches. */
  function BottomLine(b: Buffer): int { |b.lines| + b.ext }

  /** Where n characters on from offset o of a line is: never past the start of the bottom line, which
      is where the walk stops, and which it does not even start from. */
  function NextTarget(b: Buffer, line: int, o: int, n: int): int
    requires Sound(b) && 1 <= line
  {
    if line >= BottomLine(b) then o
    else if o + n <= LineStart(b, BottomLine(b)) then o + n else LineStart(b, BottomLine(b))
  }

  /** Where n characters back from offset o is. */
  function PrevTarget(o: int, n: int): int {
    if n <= 0 then o else if o - n < 0 then 0 else o - n
  }

  /** The cursor after moving to a position; nothing at all happens to one already there. */
  function Arrived(b: Buffer, c: Cursor, line: int, col: int): Cursor
    requires Sound(b)
  {
    if c.line == line && c.col == col then c else Moved(b, c, line, col, false, false)
  }

  lemma {:induction false} EmptyLinesPast(b: Buffer, line: int, line': int)
    requires Sound(b) && b.binary && |b.lines| < line <= line'
    ensures LineStart(b, line') == LineStart(b, line)
    decreases line'
  {
    if line < line' { EmptyLinesPast(b, line, line' - 1); }
  }
}

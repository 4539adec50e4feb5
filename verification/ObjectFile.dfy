/** The macro object file: what the writer lays out, and what the disassembler reads back. */
module ObjectFile {
  import opened MacroUnits

  const HEADER := 32

  // ----- Pieces of a file

  /** A 32-bit word takes up four units. */
  function Word(v: int): seq<Unit> { [Num(v), Fill, Fill, Fill] }

  function Words(vs: seq<int>): (us: seq<Unit>)
    ensures |us| == 4 * |vs|
  {
    if vs == [] then [] else Words(vs[..|vs| - 1]) + Word(vs[|vs| - 1])
  }

  function Chars(s: string): (us: seq<Unit>)
    ensures |us| == |s|
    ensures forall i :: 0 <= i < |s| ==> us[i] == Char(s[i])
  {
    seq(|s|, i requires 0 <= i < |s| => Char(s[i]))
  }

  /** The strings one after the other, each with its terminator. */
  function Blob(table: seq<string>): seq<Unit> {
    if table == [] then [] else Blob(table[..|table| - 1]) + Chars(table[|table| - 1] + ['\0'])
  }

  /** Offsets of the strings in the blob. */
  function Offsets(table: seq<string>): (vs: seq<int>)
    ensures |vs| == |table|
  {
    if table == [] then [] else Offsets(table[..|table| - 1]) + [|Blob(table[..|table| - 1])|]
  }

  /** Filler up to a multiple of four. */
  function Pad(pos: int): seq<Unit> {
    if pos % 4 != 0 then Chars("PAD"[..4 - pos % 4]) else []
  }

  /** part lies in s at offset p. */
  ghost predicate PartAt<T>(s: seq<T>, p: int, part: seq<T>) {
    0 <= p && p + |part| <= |s| && s[p..p + |part|] == part
  }

  lemma PartIndex<T>(s: seq<T>, p: int, part: seq<T>, i: int)
    requires PartAt(s, p, part) && 0 <= i < |part|
    ensures 0 <= p && p + |part| <= |s| && s[p + i] == part[i]
  {
    assert part[i] == s[p..p + |part|][i];
  }

  lemma PartOfPart<T>(s: seq<T>, p: int, part: seq<T>, i: int, sub: seq<T>)
    requires PartAt(s, p, part) && PartAt(part, i, sub)
    ensures PartAt(s, p + i, sub)
  {
    forall k: int | 0 <= k < |sub| ensures s[p + i + k] == sub[k] {
      assert sub[k] == part[i + k] == s[p + (i + k)];
    }
  }

  lemma {:induction false} WordAt(vs: seq<int>, i: int)
    requires 0 <= i < |vs|
    ensures Words(vs)[4 * i] == Num(vs[i])
    decreases vs
  {
    if i < |vs| - 1 { WordAt(vs[..|vs| - 1], i); }
  }

  /** String i lies in the blob at its offset, whole. */
  lemma {:induction false} StringAt(table: seq<string>, i: int)
    requires 0 <= i < |table|
    ensures PartAt(Blob(table), Offsets(table)[i], Chars(table[i] + ['\0']))
    decreases table
  {
    var init, last := table[..|table| - 1], Chars(table[|table| - 1] + ['\0']);
    assert Blob(table) == Blob(init) + last;
    hide Blob, Chars;
    assert PartAt(Blob(table), 0, Blob(init)) && PartAt(Blob(table), |Blob(init)|, last);
    if i < |table| - 1 {
      StringAt(init, i);
      PartOfPart(Blob(table), 0, Blob(init), Offsets(init)[i], Chars(table[i] + ['\0']));
    }
  }

  // ----- Files

  /** The header's counts, and everything after the header. */
  datatype File = File(numMacros: int, numAtoms: int, numStrings: int, globals: int, numGlobals: int, body: seq<Unit>)

  /** Everything after the header up to the end of the strings. */
  function Front(offsets: seq<int>, atoms: seq<Unit>, table: seq<string>): seq<Unit> {
    var code := atoms + Pad(HEADER + 4 * (|offsets| + 2) + |atoms|);
    Words(offsets + [|code|, |table|]) + code + Words(Offsets(table)) + Blob(table)
  }

  /** The file of these atoms, of macros beginning at the given offsets, this string table and these globals. */
  function Image(offsets: seq<int>, atoms: seq<Unit>, table: seq<string>, globals: seq<int>): File {
    var front := Front(offsets, atoms, table);
    var body := front + Pad(HEADER + |front|);
    File(|offsets|, |atoms|, |table|, HEADER + |body|, |globals|, body + Words(globals))
  }

  /** All units of the macros in order, and where each macro begins. */
  function Joined(lists: seq<seq<Unit>>): seq<Unit> {
    if lists == [] then [] else Joined(lists[..|lists| - 1]) + lists[|lists| - 1]
  }

  function Starts(lists: seq<seq<Unit>>): seq<int> {
    if lists == [] then [] else Starts(lists[..|lists| - 1]) + [|Joined(lists[..|lists| - 1])|]
  }

  // ----- The writer

  class Writer {
    const isGlobal: int -> bool
    var strings: seq<string>
    var offsets: seq<int>
    var globals: seq<int>

    constructor (isGlobal: int -> bool)
      ensures this.isGlobal == isGlobal && strings == [] && offsets == [] && globals == []
    {
      this.isGlobal := isGlobal;
      strings, offsets, globals := [], [], [];
    }

    /** Puts the string operand of the atom at lp into the table, unless it is there, and its place into the atom. */
    method PutString(list: array<Unit>, lp: nat)
      requires lp + 1 < list.Length && list[lp + 1].Text?
      modifies list, `strings
      ensures strings == Added(old(strings), old(list[lp + 1]).s)
      ensures list[..] == old(list[..])[lp + 1 := Num(Find(old(strings), old(list[lp + 1]).s))]
    {
      var str := list[lp + 1].s;
      var i := 0;
      while i < |strings|
        invariant i <= |strings|
        invariant Find(strings, str) == i + Find(strings[i..], str)
      {
        if strings[i] == str {
          list[lp + 1] := Num(i);
          return;
        }
        assert strings[i..][1..] == strings[i + 1..];
        i := i + 1;
      }
      strings := strings + [str];
      list[lp + 1] := Num(i);
    }

    /** Handles the atom at lp: a string goes into the table, a global statement into the globals. */
    method InternAtom(list: array<Unit>, base: int, lp: nat)
      requires lp < list.Length && Compiled(list[lp..])
      modifies list, `strings, `globals
      ensures strings == TableAfter(old(list[lp..]), old(strings))
      ensures globals == old(globals) + GlobalFirst(old(list[lp..]), base + lp, isGlobal)
      ensures list[..lp] == old(list[..lp])
      ensures var rest := old(list[lp..]);
              list[lp..] == if HasString(rest[0].op) then rest[1 := Num(Find(old(strings), rest[1].s))] else rest
    {
      hide Added, Find;
      ghost var rest := list[lp..];
      assert list[lp] == rest[0];
      var atom := list[lp].op;
      if atom == F_SYM || atom == F_LIT || atom == F_REG {
        assert list[lp + 1] == rest[1];
        PutString(list, lp);
      } else if atom == F_ID {
        assert list[lp + 1] == rest[1];
        if isGlobal(list[lp + 1].v) {
          globals := globals + [base + lp];
        }
      }
    }

    /** Walks the atoms of one macro. */
    method InternMacro(list: array<Unit>, base: int)
      requires Compiled(list[..])
      modifies list, `strings, `globals
      ensures list[..] == Intern(old(list[..]), old(strings)).0
      ensures strings == Intern(old(list[..]), old(strings)).1
      ensures globals == old(globals) + GlobalsOf(old(list[..]), base, isGlobal)
    {
      hide First, Others, Intern, GlobalsOf, Walked, InternFirst, TableAfter, GlobalFirst, SizeOf;
      ghost var us, t0, g0 := list[..], strings, globals;
      var lp := 0;
      WalkStarts(us, base, isGlobal, t0, g0);
      while lp < list.Length
        invariant 0 <= lp <= list.Length == |us| && list[lp..] == us[lp..] && Compiled(us[lp..])
        invariant Walked(us, base, isGlobal, t0, g0, lp, list[..lp], strings, globals)
      {
        ghost var t := strings;
        WalkStep(us, base, isGlobal, t0, g0, lp, list[..lp], strings, globals);
        InternAtom(list, base, lp);
        MacroStep(us, list[..], lp, t);
        lp := lp + SizeOf(list[lp].op);
      }
      assert list[..lp] == list[..];
      WalkEnds(us, base, isGlobal, t0, g0, list[..], strings, globals);
    }

    /** Interns all macros in order; what they hold, one after the other, and where each begins. */
    method InternMacros(macros: seq<array<Unit>>) returns (atoms: seq<Unit>)
      requires strings == [] && offsets == [] && globals == []
      requires forall i, j :: 0 <= i < j < |macros| ==> macros[i] != macros[j]
      requires forall i :: 0 <= i < |macros| ==> Compiled(macros[i][..])
      modifies this, set m | m in macros
      ensures var lists := old(Contents(macros));
              && Compiled(Joined(lists)) && offsets == Starts(lists)
              && (atoms, strings) == Intern(Joined(lists), [])
              && globals == GlobalsOf(Joined(lists), 0, isGlobal)
    {
      hide Intern, GlobalsOf, Compiled, Joined, Starts;
      ghost var lists := Contents(macros);
      atoms := [];
      NothingInterned(lists, isGlobal);
      var i := 0;
      while i < |macros|
        invariant 0 <= i <= |macros|
        invariant forall j :: i <= j < |macros| ==> macros[j][..] == lists[j]
        invariant Compiled(Joined(lists[..i])) && offsets == Starts(lists[..i]) && |atoms| == |Joined(lists[..i])|
        invariant (atoms, strings) == Intern(Joined(lists[..i]), [])
        invariant globals == GlobalsOf(Joined(lists[..i]), 0, isGlobal)
      {
        OneMoreMacro(lists, i, strings, isGlobal);
        offsets := offsets + [|atoms|];
        InternMacro(macros[i], |atoms|);
        atoms := atoms + macros[i][..];
        i := i + 1;
      }
      assert lists[..i] == lists;
    }

    /** Lays out the object file of the macros. */
    method WriteOutput(macros: seq<array<Unit>>) returns (f: File)
      requires offsets == [] && globals == []
      requires forall i, j :: 0 <= i < j < |macros| ==> macros[i] != macros[j]
      requires forall i :: 0 <= i < |macros| ==> Compiled(macros[i][..])
      modifies this, set m | m in macros
      ensures var lists := old(Contents(macros));
              && Compiled(Joined(lists))
              && strings == Intern(Joined(lists), []).1
              && offsets == Starts(lists) && globals == GlobalsOf(Joined(lists), 0, isGlobal)
              && f == Image(offsets, Intern(Joined(lists), []).0, strings, globals)
      ensures f.numMacros == |macros| && 4 * |macros| <= |f.body|
      ensures forall i :: 0 <= i < |macros| ==> f.body[4 * i] == Num(|Joined(old(Contents(macros))[..i])|)
      ensures f.numGlobals == |globals| && 32 <= f.globals && f.globals - 32 + 4 * |globals| == |f.body|
      ensures forall k :: 0 <= k < |globals| ==> f.body[f.globals - 32 + 4 * k] == Num(globals[k])
      ensures forall g :: g in globals <==> GlobalAt(Joined(old(Contents(macros))), g, isGlobal)
      ensures forall j, k :: 0 <= j < k < |globals| ==> globals[j] < globals[k]
    {
      hide Intern, GlobalsOf, Compiled, Blob, Offsets, Words, Joined, Starts, Pad, GlobalAt, Interned, Restore,
          NoDuplicates, CString;
      strings := [];
      var start := 4 * (|macros| + 2);
      var atoms := InternMacros(macros);
      StartsCount(old(Contents(macros)));
      var body := atoms + Pad(HEADER + start + |atoms|);
      var words := Words(offsets + [|body|, |strings|]);
      var soffsets, blob := StringTable();
      body := words + body + soffsets + blob;
      body := body + Pad(HEADER + |body|);
      f := File(|macros|, |atoms|, |strings|, HEADER + |body|, |globals|, body + Words(globals));
      HeadRead(f, offsets, atoms, strings, globals);
      GlobalsRead(f, offsets, atoms, strings, globals);
      RoundTrip(old(Contents(macros)), isGlobal);
    }

    /** The table of string offsets, and the strings themselves. */
    method StringTable() returns (soffsets: seq<Unit>, blob: seq<Unit>)
      ensures soffsets == Words(Offsets(strings)) && blob == Blob(strings)
    {
      var offset, i := 0, 0;
      soffsets, blob := [], [];
      while i < |strings|
        invariant i <= |strings| && offset == |Blob(strings[..i])|
        invariant soffsets == Words(Offsets(strings[..i]))
      {
        assert strings[..i + 1][..i] == strings[..i];
        soffsets := soffsets + Word(offset);
        offset := offset + |strings[i]| + 1;
        i := i + 1;
      }
      assert strings[..i] == strings;
      i := 0;
      while i < |strings|
        invariant i <= |strings|
        invariant blob == Blob(strings[..i])
      {
        assert strings[..i + 1][..i] == strings[..i];
        blob := blob + Chars(strings[i] + ['\0']);
        i := i + 1;
      }
      assert strings[..i] == strings;
    }
  }

  ghost function Contents(macros: seq<array<Unit>>): (lists: seq<seq<Unit>>)
    reads macros
    ensures |lists| == |macros| && forall i :: 0 <= i < |macros| ==> lists[i] == macros[i][..]
  {
    seq(|macros|, i requires 0 <= i < |macros| reads macros => macros[i][..])
  }

  lemma NothingInterned(lists: seq<seq<Unit>>, isGlobal: int -> bool)
    ensures Joined(lists[..0]) == [] && Starts(lists[..0]) == [] && Compiled([])
    ensures Intern([], []) == ([], []) && GlobalsOf([], 0, isGlobal) == []
  {
  }

  /** What one more macro adds. */
  lemma OneMoreMacro(lists: seq<seq<Unit>>, i: nat, table: seq<string>, isGlobal: int -> bool)
    requires i < |lists| && Compiled(Joined(lists[..i])) && Compiled(lists[i])
             && Intern(Joined(lists[..i]), []).1 == table
    ensures var (before, after) := (Joined(lists[..i]), Joined(lists[..i + 1]));
            && after == before + lists[i] && Compiled(after)
            && Starts(lists[..i + 1]) == Starts(lists[..i]) + [|before|]
            && Intern(after, []) == (Intern(before, []).0 + Intern(lists[i], table).0, Intern(lists[i], table).1)
            && GlobalsOf(after, 0, isGlobal) == GlobalsOf(before, 0, isGlobal) + GlobalsOf(lists[i], |before|, isGlobal)
            && |Intern(lists[i], table).0| == |lists[i]|
  {
    hide Intern, GlobalsOf, Compiled;
    var before := Joined(lists[..i]);
    assert lists[..i + 1][..i] == lists[..i];
    CompiledConcat(before, lists[i]);
    InternConcat(before, lists[i], []);
    GlobalsConcat(before, lists[i], 0, isGlobal);
    InternGrows(lists[i], table);
  }

  /** Macro i begins where all those before it end. */
  lemma {:induction false} StartsCount(lists: seq<seq<Unit>>)
    ensures |Starts(lists)| == |lists| && forall i :: 0 <= i < |lists| ==> Starts(lists)[i] == |Joined(lists[..i])|
    decreases lists
  {
    if lists != [] {
      var init := lists[..|lists| - 1];
      StartsCount(init);
      assert forall i :: 0 <= i < |init| ==> lists[..i] == init[..i];
      hide Joined;
    }
  }

  /** The first macro begins at the start, every other where the one before it ends, and from there on lies
      what it holds. */
  lemma {:induction false} MacroLies(lists: seq<seq<Unit>>, i: nat)
    requires i < |lists| == |Starts(lists)|
    ensures i == 0 ==> Starts(lists)[i] == 0
    ensures Starts(lists)[i] + |lists[i]| == if i + 1 < |lists| then Starts(lists)[i + 1] else |Joined(lists)|
    ensures PartAt(Joined(lists), Starts(lists)[i], lists[i])
    decreases lists
  {
    var init, last := lists[..|lists| - 1], lists[|lists| - 1];
    StartsCount(init);
    StartsCount(lists);
    assert Joined(lists) == Joined(init) + last && Starts(lists) == Starts(init) + [|Joined(init)|];
    hide Joined, Starts;
    if i < |init| {
      MacroLies(init, i);
      assert PartAt(Joined(lists), 0, Joined(init));
      PartOfPart(Joined(lists), 0, Joined(init), Starts(init)[i], lists[i]);
    } else {
      assert lists[..0] == [] && init == lists[..i];
      if i == 0 { NothingJoined(); }
    }
  }

  lemma NothingJoined()
    ensures Joined([]) == []
  {
  }

  /** How far a walk over us has come at offset lp: `done` is what it made of the part before. */
  ghost predicate Walked(us: seq<Unit>, base: int, isGlobal: int -> bool, t0: seq<string>, g0: seq<int>,
                         lp: int, done: seq<Unit>, strings: seq<string>, globals: seq<int>)
    requires Compiled(us)
  {
    && 0 <= lp <= |us| && |done| == lp && Compiled(us[lp..])
    && Intern(us, t0) == (done + Intern(us[lp..], strings).0, Intern(us[lp..], strings).1)
    && g0 + GlobalsOf(us, base, isGlobal) == globals + GlobalsOf(us[lp..], base + lp, isGlobal)
  }

  lemma WalkStarts(us: seq<Unit>, base: int, isGlobal: int -> bool, t0: seq<string>, g0: seq<int>)
    requires Compiled(us)
    ensures Walked(us, base, isGlobal, t0, g0, 0, [], t0, g0)
  {
    assert us[0..] == us;
    assert [] + Intern(us, t0).0 == Intern(us, t0).0;
  }

  lemma WalkStep(us: seq<Unit>, base: int, isGlobal: int -> bool, t0: seq<string>, g0: seq<int>,
                 lp: int, done: seq<Unit>, strings: seq<string>, globals: seq<int>)
    requires Compiled(us) && Walked(us, base, isGlobal, t0, g0, lp, done, strings, globals) && lp < |us|
    ensures AtomFirst(us[lp..]) && Compiled(us[lp + SizeOf(us[lp..][0].op)..])
    ensures var rest := us[lp..];
            Walked(us, base, isGlobal, t0, g0, lp + SizeOf(rest[0].op), done + InternFirst(rest, strings),
                   TableAfter(rest, strings), globals + GlobalFirst(rest, base + lp, isGlobal))
  {
    hide Intern, GlobalsOf, InternFirst, GlobalFirst, TableAfter, First, Others, Compiled, SizeOf;
    var rest := us[lp..];
    CompiledOthers(rest);
    var lp' := lp + SizeOf(rest[0].op);
    OthersOfRest(us, lp);
    InternUnfolds(rest, strings);
    GlobalsUnfold(rest, base + lp, isGlobal);
    assert base + lp + SizeOf(rest[0].op) == base + lp';
    Regroup(done, InternFirst(rest, strings), Intern(us[lp'..], TableAfter(rest, strings)).0);
    Regroup(globals, GlobalFirst(rest, base + lp, isGlobal), GlobalsOf(us[lp'..], base + lp', isGlobal));
  }

  lemma CompiledOthers(us: seq<Unit>)
    requires us != [] && Compiled(us)
    ensures AtomFirst(us) && Compiled(Others(us))
  {
  }

  lemma OthersOfRest(us: seq<Unit>, lp: int)
    requires 0 <= lp <= |us| && AtomFirst(us[lp..])
    ensures lp + SizeOf(us[lp..][0].op) <= |us| && Others(us[lp..]) == us[lp + SizeOf(us[lp..][0].op)..]
  {
  }

  lemma WalkEnds(us: seq<Unit>, base: int, isGlobal: int -> bool, t0: seq<string>, g0: seq<int>,
                 done: seq<Unit>, strings: seq<string>, globals: seq<int>)
    requires Compiled(us) && Walked(us, base, isGlobal, t0, g0, |us|, done, strings, globals)
    ensures Intern(us, t0) == (done, strings) && globals == g0 + GlobalsOf(us, base, isGlobal)
  {
    assert us[|us|..] == [];
    assert done + [] == done && globals + [] == globals;
  }

  /** What the loop body did to the list is what interning does to the first atom of the rest. */
  lemma MacroStep(us: seq<Unit>, now: seq<Unit>, lp: nat, t: seq<string>)
    requires |now| == |us| && lp < |us| && Compiled(us[lp..])
    requires var rest := us[lp..];
             now[lp..] == if HasString(rest[0].op) then rest[1 := Num(Find(t, rest[1].s))] else rest
    ensures var k := SizeOf(us[lp].op);
            && now[lp] == us[lp] && lp + k <= |us|
            && now[..lp + k] == now[..lp] + InternFirst(us[lp..], t) && now[lp + k..] == us[lp + k..]
  {
    hide Find;
    var rest := us[lp..];
    var k := SizeOf(us[lp].op);
    assert rest[0] == us[lp];
    assert now[lp..][..k] == InternFirst(rest, t);
    assert now[lp + k..] == now[lp..][k..];
    assert us[lp + k..] == rest[k..];
  }

  // ----- The disassembler

  /** The tables of strings are in the file, their offsets at soffsets and the strings after them. */
  ghost predicate TablesAt(body: seq<Unit>, soffsets: int, table: seq<string>) {
    && PartAt(body, soffsets, Words(Offsets(table)))
    && PartAt(body, soffsets + 4 * |table|, Blob(table))
  }

  /** Where the pieces of a file are. */
  lemma Layout(f: File, offsets: seq<int>, atoms: seq<Unit>, table: seq<string>, globals: seq<int>)
    requires f == Image(offsets, atoms, table, globals)
    ensures var n, start := |offsets|, 4 * (|offsets| + 2);
            && PartAt(f.body, start, atoms)
            && start <= |f.body| && f.body[4 * n].Num?
            && TablesAt(f.body, start + f.body[4 * n].v, table)
    ensures f.numMacros == |offsets| && f.numAtoms == |atoms| && f.numStrings == |table|
  {
    hide Image, Front, Words, Blob, Offsets, Pad;
    var head, pad, last := BodyParts(f, offsets, atoms, table, globals);
    WordAt(head, |offsets|);
    Parts(Words(head), atoms, pad, Words(Offsets(table)), Blob(table), last, Words(globals));
    hide PartAt;
  }

  /** The table behind a header of 32 bytes, word by word: where each macro begins, the length of the atoms
      up to the next multiple of four, and the number of strings. */
  lemma HeadRead(f: File, offsets: seq<int>, atoms: seq<Unit>, table: seq<string>, globals: seq<int>)
    requires f == Image(offsets, atoms, table, globals)
    ensures var n := |offsets|;
            && 4 * (n + 2) <= |f.body|
            && (forall i :: 0 <= i < n ==> f.body[4 * i] == Num(offsets[i]))
            && f.body[4 * (n + 1)] == Num(|table|)
            && f.body[4 * n].Num? && 0 <= f.body[4 * n].v - |atoms| < 4
            && (32 + 4 * (n + 2) + f.body[4 * n].v) % 4 == 0
  {
    hide Image, Front, Words, Blob, Offsets, Pad;
    var head, pad, last := BodyParts(f, offsets, atoms, table, globals);
    PadAligns(HEADER + 4 * (|offsets| + 2) + |atoms|);
    Parts(Words(head), atoms, pad, Words(Offsets(table)), Blob(table), last, Words(globals));
    hide PartAt;
    assert f.body[..4 * |head|] == Words(head);
    WordsFirst(f.body, head);
    var n := |offsets|;
    assert f.body[4 * n] == Num(head[n]) && f.body[4 * (n + 1)] == Num(head[n + 1]);
  }

  /** A table of words, entry by entry, before anything else. */
  lemma WordsFirst(s: seq<Unit>, vs: seq<int>)
    requires 4 * |vs| <= |s| && s[..4 * |vs|] == Words(vs)
    ensures forall i :: 0 <= i < |vs| ==> s[4 * i] == Num(vs[i])
  {
    hide Words;
    forall i | 0 <= i < |vs| ensures s[4 * i] == Num(vs[i]) {
      WordAt(vs, i);
      assert s[4 * i] == s[..4 * |vs|][4 * i];
    }
  }

  /** The globals, word by word, from the place that the header tells up to the end of the file. */
  lemma GlobalsRead(f: File, offsets: seq<int>, atoms: seq<Unit>, table: seq<string>, globals: seq<int>)
    requires f == Image(offsets, atoms, table, globals)
    ensures f.numGlobals == |globals| && f.globals % 4 == 0
    ensures 0 <= f.globals - 32 && f.globals - 32 + 4 * |globals| == |f.body|
    ensures forall k :: 0 <= k < |globals| ==> f.body[f.globals - 32 + 4 * k] == Num(globals[k])
  {
    hide Image, Front, Words, Pad;
    var head, pad, last := BodyParts(f, offsets, atoms, table, globals);
    PadAligns(HEADER + |Front(offsets, atoms, table)|);
    WordsBehind(f.body, Front(offsets, atoms, table) + last, globals);
  }

  lemma PadAligns(pos: int)
    ensures |Pad(pos)| < 4 && (pos + |Pad(pos)|) % 4 == 0
  {
  }

  /** A table of words, entry by entry, behind anything else. */
  lemma WordsBehind(s: seq<Unit>, before: seq<Unit>, vs: seq<int>)
    requires s == before + Words(vs)
    ensures forall k :: 0 <= k < |vs| ==> s[|before| + 4 * k] == Num(vs[k])
  {
    hide Words;
    forall k | 0 <= k < |vs| ensures s[|before| + 4 * k] == Num(vs[k]) { WordAt(vs, k); }
  }

  /** The body of a file as its pieces one after the other. */
  lemma BodyParts(f: File, offsets: seq<int>, atoms: seq<Unit>, table: seq<string>, globals: seq<int>)
    returns (head: seq<int>, pad: seq<Unit>, last: seq<Unit>)
    requires f == Image(offsets, atoms, table, globals)
    ensures pad == Pad(HEADER + 4 * (|offsets| + 2) + |atoms|) && last == Pad(HEADER + |Front(offsets, atoms, table)|)
    ensures head == offsets + [|atoms + pad|, |table|]
    ensures f.body == Front(offsets, atoms, table) + last + Words(globals)
    ensures f.globals == HEADER + |Front(offsets, atoms, table) + last| && f.numGlobals == |globals|
    ensures f.numMacros == |offsets| && f.numAtoms == |atoms| && f.numStrings == |table|
    ensures f.body == Words(head) + (atoms + pad) + Words(Offsets(table)) + Blob(table) + last + Words(globals)
  {
    hide Words, Blob, Offsets, Pad;
    pad := Pad(HEADER + 4 * (|offsets| + 2) + |atoms|);
    head := offsets + [|atoms + pad|, |table|];
    last := Pad(HEADER + |Front(offsets, atoms, table)|);
  }

  lemma Parts<T>(a: seq<T>, b: seq<T>, c: seq<T>, d: seq<T>, e: seq<T>, p: seq<T>, q: seq<T>)
    ensures var s := a + (b + c) + d + e + p + q;
            && |a| <= |s| && (forall i :: 0 <= i < |a| ==> s[i] == a[i])
            && PartAt(s, |a|, b)
            && PartAt(s, |a| + |b + c|, d)
            && PartAt(s, |a| + |b + c| + |d|, e)
  {
  }

  /** Reads a string up to its terminator. */
  method ReadString(body: seq<Unit>, at: nat, ghost s: string) returns (r: string)
    requires CString(s) && PartAt(body, at, Chars(s + ['\0']))
    ensures r == s
  {
    ghost var us := Chars(s + ['\0']);
    r := [];
    var i := at;
    assert forall k :: 0 <= k <= |s| ==> body[at + k] == us[k];
    while body[i] != Char('\0')
      invariant at <= i <= at + |s| && r == s[..i - at]
      decreases at + |s| - i
    {
      assert body[i] == us[i - at];
      r := r + [body[i].c];
      i := i + 1;
    }
    assert body[i] == us[i - at];
  }

  /** Walks all atoms of a file, restoring the strings from its table. */
  method Disassemble(f: File, ghost offsets: seq<int>, ghost atoms: seq<Unit>, ghost table: seq<string>,
                     ghost globals: seq<int>)
    returns (us: seq<Unit>)
    requires f == Image(offsets, atoms, table, globals)
    requires Interned(atoms, |table|) && forall s <- table :: CString(s)
    ensures us == Restore(atoms, table)
  {
    hide Image, Restore, Blob, Words, Offsets, First, Others, Interned, SizeOf, Front, RestoreFirst, PartAt, TablesAt;
    Layout(f, offsets, atoms, table, globals);
    var base := 4 * (f.numMacros + 2);
    var soffsets := base + f.body[4 * f.numMacros].v;
    var strTable := soffsets + 4 * f.numStrings;
    var lp := base;
    ghost var rest := atoms;
    us := [];
    while lp < base + f.numAtoms
      invariant base <= lp && lp + |rest| == base + |atoms| && PartAt(f.body, lp, rest)
      invariant Interned(rest, |table|) && Restore(atoms, table) == us + Restore(rest, table)
    {
      var atom := ReadAtom(f.body, lp, soffsets, strTable, rest, table);
      RestoreUnfolds(rest, table);
      us := us + atom;
      lp := lp + |atom|;
      rest := Others(rest);
    }
    RestoreNothing(rest, table);
  }

  /** Reads the atom at lp, the string of a string atom in place of its number. */
  method ReadAtom(body: seq<Unit>, lp: nat, soffsets: int, strTable: int, ghost rest: seq<Unit>,
                  ghost table: seq<string>)
    returns (atom: seq<Unit>)
    requires PartAt(body, lp, rest) && rest != []
    requires Interned(rest, |table|) && forall s <- table :: CString(s)
    requires strTable == soffsets + 4 * |table| && TablesAt(body, soffsets, table)
    ensures AtomFirst(rest) && atom == RestoreFirst(rest, table) && |atom| == |First(rest)|
    ensures PartAt(body, lp + |atom|, Others(rest))
  {
    FirstUnits(body, lp, rest);
    hide TablesAt, PartAt, Others;
    var op := body[lp].op;
    atom := body[lp..lp + SizeOf(op)];
    if HasString(op) {
      var str := FindString(body, soffsets, strTable, body[lp + 1].v, table);
      atom := atom[1 := Text(str)];
    }
  }

  lemma FirstUnits(body: seq<Unit>, lp: int, rest: seq<Unit>)
    requires PartAt(body, lp, rest) && AtomFirst(rest)
    ensures var k := SizeOf(rest[0].op);
            && 0 <= lp && lp + |rest| <= |body|
            && body[lp] == rest[0] && body[lp..lp + k] == First(rest) && PartAt(body, lp + k, Others(rest))
    ensures 1 < |rest| ==> body[lp + 1] == rest[1]
  {
    hide SizeOf;
    var k := SizeOf(rest[0].op);
    PartIndex(body, lp, rest, 0);
    PartOfPart(body, lp, rest, 0, First(rest));
    PartOfPart(body, lp, rest, k, Others(rest));
    if 1 < |rest| { PartIndex(body, lp, rest, 1); }
  }

  lemma RestoreNothing(us: seq<Unit>, table: seq<string>)
    requires Interned(us, |table|)
    ensures us == [] ==> Restore(us, table) == []
  {
  }

  lemma RestoreUnfolds(us: seq<Unit>, table: seq<string>)
    requires us != [] && Interned(us, |table|)
    ensures AtomFirst(us) && Interned(Others(us), |table|)
    ensures Restore(us, table) == RestoreFirst(us, table) + Restore(Others(us), table)
  {
  }

  /** String i of a file, found through its table of offsets. */
  method FindString(body: seq<Unit>, soffsets: int, strTable: int, i: int, ghost table: seq<string>) returns (s: string)
    requires 0 <= i < |table| && forall s <- table :: CString(s)
    requires strTable == soffsets + 4 * |table| && TablesAt(body, soffsets, table)
    ensures s == table[i]
  {
    StringLies(body, soffsets, i, table);
    hide TablesAt, PartAt, Chars, CString;
    assert table[i] in table;
    s := ReadString(body, strTable + body[soffsets + 4 * i].v, table[i]);
  }

  /** Where string i of a file is. */
  lemma StringLies(body: seq<Unit>, soffsets: int, i: int, table: seq<string>)
    requires 0 <= i < |table| && TablesAt(body, soffsets, table)
    ensures 0 <= soffsets + 4 * i < |body| && body[soffsets + 4 * i].Num?
    ensures var at := soffsets + 4 * |table| + body[soffsets + 4 * i].v;
            0 <= at && PartAt(body, at, Chars(table[i] + ['\0']))
  {
    WordAt(Offsets(table), i);
    StringAt(table, i);
    hide Blob, Words, Offsets, Chars;
    PartIndex(body, soffsets, Words(Offsets(table)), 4 * i);
    PartOfPart(body, soffsets + 4 * |table|, Blob(table), Offsets(table)[i], Chars(table[i] + ['\0']));
    assert PartAt(body, soffsets + 4 * |table| + Offsets(table)[i], Chars(table[i] + ['\0']));
    hide PartAt;
  }

  // ----- The round trip

  /** A file of compiled macros disassembles to their atoms with every string in place; its string
      table has no duplicates; its globals are exactly the global statements, in order. */
  lemma RoundTrip(lists: seq<seq<Unit>>, isGlobal: int -> bool)
    requires Compiled(Joined(lists))
    ensures var (atoms, table) := Intern(Joined(lists), []);
            && Interned(atoms, |table|) && (forall s <- table :: CString(s)) && NoDuplicates(table)
            && Restore(atoms, table) == Joined(lists)
    ensures var globals := GlobalsOf(Joined(lists), 0, isGlobal);
            && (forall g :: g in globals <==> GlobalAt(Joined(lists), g, isGlobal))
            && (forall i, j :: 0 <= i < j < |globals| ==> globals[i] < globals[j])
  {
    var us := Joined(lists);
    InternRestores(us, [], Intern(us, []).1);
    InternGrows(us, []);
    GlobalsExact(us, 0, isGlobal);
  }

  /** Writing the macros of a source file and disassembling the object file gives back the atoms written. */
  method WriteAndDisassemble(macros: seq<array<Unit>>, isGlobal: int -> bool) returns (us: seq<Unit>)
    requires forall i, j :: 0 <= i < j < |macros| ==> macros[i] != macros[j]
    requires forall i :: 0 <= i < |macros| ==> Compiled(macros[i][..])
    modifies set m | m in macros
    ensures us == Joined(old(Contents(macros)))
  {
    hide Joined, Intern, GlobalsOf, Compiled, Interned, Restore, Image, CString, Starts, NoDuplicates, GlobalAt;
    ghost var lists := Contents(macros);
    var w := new Writer(isGlobal);
    var f := w.WriteOutput(macros);
    RoundTrip(lists, isGlobal);
    us := Disassemble(f, w.offsets, Intern(Joined(lists), []).0, w.strings, w.globals);
  }
}

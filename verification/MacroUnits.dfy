/** Compiled macros as streams of units, and the interning of their strings.

    An atom is an operation code followed by its operands. Multi-byte operands are modelled as one
    unit followed by filler, so that sizes and offsets are those of the byte stream. */
module MacroUnits {

  const ATOMSIZE := 8

  const F_HALT := 0
  const F_INT := 1
  const F_FLOAT := 2
  const F_STR := 3
  const F_LIT := 4
  const F_LIST := 5
  const F_ARRAY := 6
  const F_NULL := 7
  const F_RSTR := 8
  const F_RLIST := 9
  const F_RARRAY := 10
  const F_ID := 11
  const F_SYM := 12
  const F_REG := 13
  const F_MAX := 14

  datatype Unit = Op(op: nat) | Text(s: string) | Num(v: int) | Char(c: char) | Fill

  /** Units an atom takes up. */
  function SizeOf(op: nat): nat
    requires op < F_MAX
  {
    if op == F_HALT || op == F_NULL then 1
    else if op == F_FLOAT then 1 + 8
    else if op == F_LIST || op == F_ID then 1 + 2
    else if op == F_REG then ATOMSIZE + 2
    else ATOMSIZE + 1
  }

  /** Atoms whose operand is a string. */
  predicate HasString(op: nat) { op == F_SYM || op == F_LIT || op == F_REG }

  /** us starts with a whole atom. */
  predicate AtomFirst(us: seq<Unit>) {
    us != [] && us[0].Op? && us[0].op < F_MAX && SizeOf(us[0].op) <= |us|
  }

  /** The first atom of a stream. */
  function First(us: seq<Unit>): (a: seq<Unit>)
    requires AtomFirst(us)
    ensures |a| == SizeOf(us[0].op) && a[0] == us[0] && (1 < |a| ==> a[1] == us[1])
  {
    us[..SizeOf(us[0].op)]
  }

  function Others(us: seq<Unit>): (r: seq<Unit>)
    requires AtomFirst(us)
    ensures |r| == |us| - SizeOf(us[0].op) && |r| < |us|
  {
    us[SizeOf(us[0].op)..]
  }

  predicate CString(s: string) { forall i :: 0 <= i < |s| ==> s[i] != '\0' }

  /** us is a stream of atoms, the operands of string atoms being strings. */
  predicate Compiled(us: seq<Unit>) {
    us == [] ||
    (AtomFirst(us) && (HasString(us[0].op) ==> us[1].Text? && CString(us[1].s)) && (us[0].op == F_ID ==> us[1].Num?) &&
     Compiled(Others(us)))
  }

  /** us is a stream of atoms, the operands of string atoms being places in a table of n strings. */
  predicate Interned(us: seq<Unit>, n: nat) {
    us == [] ||
    (AtomFirst(us) && (HasString(us[0].op) ==> us[1].Num? && 0 <= us[1].v < n) && (us[0].op == F_ID ==> us[1].Num?) &&
     Interned(Others(us), n))
  }

  lemma Regroup<T>(a: seq<T>, b: seq<T>, c: seq<T>)
    ensures a + (b + c) == (a + b) + c
  {
  }

  // ----- The string table

  /** Place of s in the table, or the length of the table. */
  function Find(table: seq<string>, s: string): (i: nat)
    ensures i <= |table| && (i < |table| ==> table[i] == s) && (i == |table| ==> s !in table)
  {
    if table == [] then 0 else if table[0] == s then 0 else 1 + Find(table[1..], s)
  }

  function Added(table: seq<string>, s: string): seq<string> {
    if Find(table, s) < |table| then table else table + [s]
  }

  ghost predicate NoDuplicates(table: seq<string>) {
    forall i, j :: 0 <= i < j < |table| ==> table[i] != table[j]
  }

  lemma FirstAndOthers(us: seq<Unit>, a: seq<Unit>, rest: seq<Unit>)
    requires AtomFirst(us)
    ensures us == First(us) + Others(us)
    ensures |a| == SizeOf(us[0].op) && a[0] == us[0] ==>
              AtomFirst(a + rest) && First(a + rest) == a && Others(a + rest) == rest
  {
  }

  /** The table once the first atom's string, if it has one, is in it. */
  function TableAfter(us: seq<Unit>, table: seq<string>): seq<string>
    requires us != [] && Compiled(us)
  {
    if HasString(us[0].op) then Added(table, us[1].s) else table
  }

  function InternFirst(us: seq<Unit>, table: seq<string>): (a: seq<Unit>)
    requires us != [] && Compiled(us)
    ensures |a| == SizeOf(us[0].op) && a[0] == us[0]
  {
    if HasString(us[0].op) then First(us)[1 := Num(Find(table, us[1].s))] else First(us)
  }

  /** The stream with strings replaced by their places, and the table they are in. */
  function Intern(us: seq<Unit>, table: seq<string>): (seq<Unit>, seq<string>)
    requires Compiled(us)
    decreases |us|
  {
    if us == [] then ([], table)
    else
      var (rest, all) := Intern(Others(us), TableAfter(us, table));
      (InternFirst(us, table) + rest, all)
  }

  lemma InternUnfolds(us: seq<Unit>, table: seq<string>)
    requires us != [] && Compiled(us)
    ensures Intern(us, table) ==
            (InternFirst(us, table) + Intern(Others(us), TableAfter(us, table)).0,
                Intern(Others(us), TableAfter(us, table)).1)
  {
  }

  function RestoreFirst(us: seq<Unit>, table: seq<string>): seq<Unit>
    requires us != [] && Interned(us, |table|)
  {
    if HasString(us[0].op) then First(us)[1 := Text(table[us[1].v])] else First(us)
  }

  /** The stream with places replaced by the strings there. */
  function Restore(us: seq<Unit>, table: seq<string>): seq<Unit>
    requires Interned(us, |table|)
    decreases |us|
  {
    if us == [] then [] else RestoreFirst(us, table) + Restore(Others(us), table)
  }

  lemma {:induction false} InternGrows(us: seq<Unit>, table: seq<string>)
    requires Compiled(us)
    ensures table <= Intern(us, table).1
    ensures |Intern(us, table).0| == |us|
    ensures NoDuplicates(table) ==> NoDuplicates(Intern(us, table).1)
    ensures (forall s <- table :: CString(s)) ==> forall s <- Intern(us, table).1 :: CString(s)
    decreases |us|
  {
    if us != [] {
      InternGrows(Others(us), TableAfter(us, table));
    }
  }

  /** Interned streams refer to nothing outside the table, and restoring them gives back the original. */
  lemma {:induction false} InternRestores(us: seq<Unit>, table: seq<string>, all: seq<string>)
    requires Compiled(us) && Intern(us, table).1 <= all
    ensures Interned(Intern(us, table).0, |all|)
    ensures Restore(Intern(us, table).0, all) == us
    decreases |us|
  {
    if us != [] {
      InternRestores(Others(us), TableAfter(us, table), all);
      InternGrows(Others(us), TableAfter(us, table));
      FirstRestores(us, table, Intern(Others(us), TableAfter(us, table)).0, all);
    }
  }

  lemma FirstRestores(us: seq<Unit>, table: seq<string>, rest: seq<Unit>, all: seq<string>)
    requires us != [] && Compiled(us) && TableAfter(us, table) <= all
    requires Interned(rest, |all|) && Restore(rest, all) == Others(us)
    ensures Interned(InternFirst(us, table) + rest, |all|)
    ensures Restore(InternFirst(us, table) + rest, all) == us
  {
    var a := InternFirst(us, table);
    FirstAndOthers(us, a, rest);
    assert Interned(a + rest, |all|);
    assert RestoreFirst(a + rest, all) == First(us);
  }

  lemma ConcatFirst(us: seq<Unit>, vs: seq<Unit>)
    requires AtomFirst(us)
    ensures AtomFirst(us + vs) && First(us + vs) == First(us) && Others(us + vs) == Others(us) + vs
    ensures us + vs != [] && (us + vs)[0] == us[0] && (1 < SizeOf(us[0].op) ==> (us + vs)[1] == us[1])
  {
  }

  lemma {:induction false} CompiledConcat(us: seq<Unit>, vs: seq<Unit>)
    requires Compiled(us) && Compiled(vs)
    ensures Compiled(us + vs)
    decreases |us|
  {
    if us == [] {
      assert us + vs == vs;
    } else {
      CompiledConcat(Others(us), vs);
      ConcatFirst(us, vs);
    }
  }

  /** What a stream says about its first atom does not depend on what follows. */
  lemma ConcatUnfolds(us: seq<Unit>, vs: seq<Unit>)
    requires us != [] && Compiled(us) && Compiled(vs)
    ensures us + vs != [] && (us + vs)[0] == us[0] && AtomFirst(us) && AtomFirst(us + vs)
    ensures Compiled(us + vs) && Compiled(Others(us)) && Compiled(Others(us) + vs)
    ensures Others(us + vs) == Others(us) + vs
  {
    ConcatFirst(us, vs);
    hide First, Others;
    CompiledConcat(us, vs);
    CompiledConcat(Others(us), vs);
  }

  lemma InternFirstConcat(us: seq<Unit>, vs: seq<Unit>, table: seq<string>)
    requires us != [] && Compiled(us) && Compiled(us + vs) && AtomFirst(us)
    ensures TableAfter(us + vs, table) == TableAfter(us, table) && InternFirst(us + vs, table) == InternFirst(us, table)
  {
    hide Compiled, Added, Find, First, Others;
    ConcatFirst(us, vs);
    assert HasString(us[0].op) ==> 1 < SizeOf(us[0].op) <= |us| && (us + vs)[1] == us[1];
  }

  lemma {:induction false} InternConcat(us: seq<Unit>, vs: seq<Unit>, table: seq<string>)
    requires Compiled(us) && Compiled(vs) && Compiled(us + vs)
    ensures Intern(us + vs, table).0 == Intern(us, table).0 + Intern(vs, Intern(us, table).1).0
    ensures Intern(us + vs, table).1 == Intern(vs, Intern(us, table).1).1
    decreases |us|
  {
    hide Compiled, AtomFirst, First, Others, TableAfter, InternFirst;
    if us == [] {
      assert us + vs == vs;
    } else {
      ConcatUnfolds(us, vs);
      InternFirstConcat(us, vs, table);
      OthersShorter(us);
      InternConcat(Others(us), vs, TableAfter(us, table));
    }
  }

  lemma OthersShorter(us: seq<Unit>)
    requires AtomFirst(us)
    ensures |Others(us)| < |us|
  {
  }

  // ----- Atoms by their numbers

  /** An atom begins at offset i. */
  ghost predicate AtomAt(us: seq<Unit>, i: int)
    requires Compiled(us)
    decreases |us|
  {
    us != [] && (i == 0 || AtomAt(Others(us), i - SizeOf(us[0].op)))
  }

  /** Size of an atom in the byte stream, with operands of eight bytes. */
  function NumberedSize(op: nat): nat {
    if op == 0 || op == 7 then 1 else if op == 5 || op == 11 then 3 else if op == 13 then 10 else 9
  }

  /** The atom at the head of `now` is that of `was`, the place of its string in place of the string if it is
      a literal, a symbol or a register, which are atoms 4, 12 and 13. */
  ghost predicate SameAtom(was: seq<Unit>, now: seq<Unit>, all: seq<string>) {
    && was != [] && was[0].Op? && was[0].op < 14 && NumberedSize(was[0].op) <= |was| && |now| == |was|
    && var op, size := was[0].op, NumberedSize(was[0].op);
       if op == 4 || op == 12 || op == 13 then
         && was[1].Text? && now[1].Num? && 0 <= now[1].v < |all| && all[now[1].v] == was[1].s
         && now[..size] == was[..size][1 := now[1]]
       else now[..size] == was[..size]
  }

  /** Interning keeps every atom but for its string. */
  lemma {:induction false} InternedAtom(us: seq<Unit>, table: seq<string>, all: seq<string>, i: int)
    requires Compiled(us) && Intern(us, table).1 <= all && AtomAt(us, i)
    ensures 0 <= i < |us| == |Intern(us, table).0| && SameAtom(us[i..], Intern(us, table).0[i..], all)
    decreases |us|
  {
    hide Intern, InternFirst, TableAfter, SameAtom;
    InternUnfolds(us, table);
    InternGrows(us, table);
    var rest, after := Others(us), TableAfter(us, table);
    InternGrows(rest, after);
    var first, others := InternFirst(us, table), Intern(rest, after).0;
    if i == 0 {
      FirstInterned(us, table, others, all);
      assert us[0..] == us && (first + others)[0..] == first + others;
    } else {
      InternedAtom(rest, after, all, i - SizeOf(us[0].op));
      LaterUnits(us, first, others, i);
    }
  }

  lemma LaterUnits(us: seq<Unit>, first: seq<Unit>, others: seq<Unit>, i: int)
    requires AtomFirst(us) && |first| == SizeOf(us[0].op) <= i < |us| && |others| == |Others(us)|
    ensures us[i..] == Others(us)[i - |first|..] && (first + others)[i..] == others[i - |first|..]
  {
  }

  lemma FirstInterned(us: seq<Unit>, table: seq<string>, others: seq<Unit>, all: seq<string>)
    requires Compiled(us) && us != [] && TableAfter(us, table) <= all && |others| == |Others(us)|
    ensures NumberedSize(us[0].op) == SizeOf(us[0].op) && SameAtom(us, InternFirst(us, table) + others, all)
  {
    var a := InternFirst(us, table);
    assert (a + others)[..|a|] == a;
  }

  /** Atoms follow each other without a gap. */
  lemma {:induction false} AtomsFollow(us: seq<Unit>, i: int)
    requires Compiled(us) && AtomAt(us, i)
    ensures 0 <= i < |us| && us[i].Op?
    ensures var next := i + NumberedSize(us[i].op); next == |us| || AtomAt(us, next)
    decreases |us|
  {
    if i != 0 { AtomsFollow(Others(us), i - SizeOf(us[0].op)); }
  }

  // ----- Global statements

  /** Offsets, counted from base, of the atoms that name a builtin of the given kind. */
  function GlobalsOf(us: seq<Unit>, base: int, isGlobal: int -> bool): seq<int>
    requires Compiled(us)
    decreases |us|
  {
    if us == [] then [] else GlobalFirst(us, base, isGlobal) + GlobalsOf(Others(us), base + SizeOf(us[0].op), isGlobal)
  }

  function GlobalFirst(us: seq<Unit>, base: int, isGlobal: int -> bool): seq<int>
    requires us != [] && Compiled(us)
  {
    if us[0].op == F_ID && isGlobal(us[1].v) then [base] else []
  }

  lemma GlobalsUnfold(us: seq<Unit>, base: int, isGlobal: int -> bool)
    requires us != [] && Compiled(us)
    ensures GlobalsOf(us, base, isGlobal) == GlobalFirst(us, base, isGlobal)
            + GlobalsOf(Others(us), base + SizeOf(us[0].op), isGlobal)
  {
  }

  lemma NoGlobals(us: seq<Unit>, base: int, isGlobal: int -> bool)
    requires Compiled(us)
    ensures us == [] ==> GlobalsOf(us, base, isGlobal) == []
  {
  }

  /** An atom that is a global statement begins at offset i. */
  ghost predicate GlobalAt(us: seq<Unit>, i: int, isGlobal: int -> bool)
    requires Compiled(us)
    decreases |us|
  {
    us != [] &&
    if i == 0 then us[0].op == F_ID && isGlobal(us[1].v)
    else GlobalAt(Others(us), i - SizeOf(us[0].op), isGlobal)
  }

  lemma {:induction false} GlobalInRange(us: seq<Unit>, i: int, isGlobal: int -> bool)
    requires Compiled(us) && GlobalAt(us, i, isGlobal)
    ensures 0 <= i < |us| - 1 && us[i] == Op(11) && us[i + 1].Num? && isGlobal(us[i + 1].v)
    decreases |us|
  {
    if i != 0 { GlobalInRange(Others(us), i - SizeOf(us[0].op), isGlobal); }
  }

  /** The globals table is exactly the global statements, in order. */
  lemma {:induction false} GlobalsExact(us: seq<Unit>, base: int, isGlobal: int -> bool)
    requires Compiled(us)
    ensures forall g :: g in GlobalsOf(us, base, isGlobal) <==> GlobalAt(us, g - base, isGlobal)
    ensures forall i, j :: 0 <= i < j < |GlobalsOf(us, base, isGlobal)| ==>
            GlobalsOf(us, base, isGlobal)[i] < GlobalsOf(us, base, isGlobal)[j]
    decreases |us|
  {
    if us != [] {
      var k := SizeOf(us[0].op);
      var rest := GlobalsOf(Others(us), base + k, isGlobal);
      GlobalsExact(Others(us), base + k, isGlobal);
      forall i | 0 <= i < |rest| ensures base < rest[i] {
        assert rest[i] in rest;
        GlobalInRange(Others(us), rest[i] - (base + k), isGlobal);
      }
      forall g ensures g in GlobalsOf(us, base, isGlobal) <==> GlobalAt(us, g - base, isGlobal) {
        assert g - (base + k) == (g - base) - k;
        assert g in rest <==> GlobalAt(Others(us), g - base - k, isGlobal);
      }
    }
  }

  lemma GlobalFirstConcat(us: seq<Unit>, vs: seq<Unit>, base: int, isGlobal: int -> bool)
    requires us != [] && Compiled(us) && Compiled(us + vs)
    ensures GlobalFirst(us + vs, base, isGlobal) == GlobalFirst(us, base, isGlobal)
  {
    ConcatFirst(us, vs);
  }

  lemma {:induction false} GlobalsConcat(us: seq<Unit>, vs: seq<Unit>, base: int, isGlobal: int -> bool)
    requires Compiled(us) && Compiled(vs) && Compiled(us + vs)
    ensures GlobalsOf(us + vs, base, isGlobal) == GlobalsOf(us, base, isGlobal) + GlobalsOf(vs, base + |us|, isGlobal)
    decreases |us|
  {
    hide GlobalsOf, Compiled, First, Others, GlobalFirst, SizeOf, HasString;
    if us == [] {
      assert us + vs == vs;
      NoGlobals(us, base, isGlobal);
    } else {
      ConcatUnfolds(us, vs);
      GlobalFirstConcat(us, vs, base, isGlobal);
      GlobalsUnfold(us, base, isGlobal);
      GlobalsUnfold(us + vs, base, isGlobal);
      GlobalsConcat(Others(us), vs, base + SizeOf(us[0].op), isGlobal);
    }
  }
}

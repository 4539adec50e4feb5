/** Edit scripts: what a list of edits means, what it costs, and how edits coalesce. */
module DiffScript {
  import opened EditDistance
  import opened FurthestReaching

  const NONE := 0
  const MATCH := 1
  const DELETE := 2
  const INSERT := 3

  /** off counts in the first sequence for MATCH and DELETE, in the second for INSERT. */
  datatype Edit = Edit(op: int, off: int, len: int)

  /** The edit leads from (x, y) to (x', y'). */
  ghost predicate EditStep(s: Match, e: Edit, x: int, y: int, x': int, y': int) {
    && 0 < e.len
    && if e.op == MATCH then
         e.off == x && x' == x + e.len && y' == y + e.len && Snake(s, x - y, x, x')
       else if e.op == DELETE then
         e.off == x && x' == x + e.len && y' == y
       else
         e.op == INSERT && e.off == y && x' == x && y' == y + e.len
  }

  /** Where an edit that ends at (x', y') began. */
  function FromX(e: Edit, x': int): int { if e.op == INSERT then x' else x' - e.len }

  function FromY(e: Edit, y': int): int { if e.op == DELETE then y' else y' - e.len }

  /** Read left to right, es leads from (x0, y0) to (x1, y1): every edit starts where the one before
      it ended, and every MATCH pairs matching elements. */
  ghost predicate Walks(s: Match, es: seq<Edit>, x0: int, y0: int, x1: int, y1: int) {
    if es == [] then x0 == x1 && y0 == y1
    else
      var e, rest := es[|es| - 1], es[..|es| - 1];
      EditStep(s, e, FromX(e, x1), FromY(e, y1), x1, y1) && Walks(s, rest, x0, y0, FromX(e, x1), FromY(e, y1))
  }

  /** Number of elements deleted or inserted. */
  function Cost(es: seq<Edit>): int {
    if es == [] then 0
    else Cost(es[..|es| - 1]) + (if es[|es| - 1].op == MATCH then 0 else es[|es| - 1].len)
  }

  /** No two neighbouring edits have the same operation. */
  ghost predicate Coalesced(es: seq<Edit>) {
    forall i :: 0 < i < |es| ==> es[i - 1].op != es[i].op
  }

  /** The script after one more edit. */
  function Push(es: seq<Edit>, op: int, off: int, len: int): seq<Edit> {
    if len == 0 then es
    else if es != [] && es[|es| - 1].op == op then
      es[..|es| - 1] + [es[|es| - 1].(len := es[|es| - 1].len + len)]
    else es + [Edit(op, off, len)]
  }

  lemma PushCost(es: seq<Edit>, op: int, off: int, len: int)
    requires 0 <= len
    ensures Cost(Push(es, op, off, len)) == Cost(es) + if op == MATCH then 0 else len
    ensures Coalesced(es) ==> Coalesced(Push(es, op, off, len))
  {
    var r := Push(es, op, off, len);
    if len > 0 {
      assert r[..|r| - 1] == if es != [] && es[|es| - 1].op == op then es[..|es| - 1] else es;
    }
  }

  lemma WalksThen(s: Match, rest: seq<Edit>, e: Edit, x0: int, y0: int, x: int, y: int, x': int, y': int)
    requires Walks(s, rest, x0, y0, x, y) && EditStep(s, e, x, y, x', y')
    ensures Walks(s, rest + [e], x0, y0, x', y')
  {
    assert (rest + [e])[..|rest|] == rest;
  }

  lemma SnakeJoin(s: Match, k: int, x: int, x': int, x'': int)
    requires Snake(s, k, x, x') && Snake(s, k, x', x'')
    ensures Snake(s, k, x, x'')
  {
  }

  lemma PushMatch(s: Match, es: seq<Edit>, x0: int, y0: int, x: int, y: int, x': int, y': int)
    requires Walks(s, es, x0, y0, x, y)
    requires Snake(s, x - y, x, x') && x' - x == y' - y
    ensures Walks(s, Push(es, MATCH, x, x' - x), x0, y0, x', y')
  {
    if x < x' {
      if es != [] && es[|es| - 1].op == MATCH {
        var rest, e := es[..|es| - 1], es[|es| - 1];
        assert (x - e.len) - (y - e.len) == x - y;
        SnakeJoin(s, x - y, x - e.len, x, x');
        WalksThen(s, rest, e.(len := e.len + (x' - x)), x0, y0, x - e.len, y - e.len, x', y');
      } else {
        WalksThen(s, es, Edit(MATCH, x, x' - x), x0, y0, x, y, x', y');
      }
    }
  }

  lemma PushDelete(s: Match, es: seq<Edit>, x0: int, y0: int, x: int, y: int, x': int)
    requires Walks(s, es, x0, y0, x, y) && x <= x'
    ensures Walks(s, Push(es, DELETE, x, x' - x), x0, y0, x', y)
  {
    if x < x' {
      if es != [] && es[|es| - 1].op == DELETE {
        var rest, e := es[..|es| - 1], es[|es| - 1];
        WalksThen(s, rest, e.(len := e.len + (x' - x)), x0, y0, x - e.len, y, x', y);
      } else {
        WalksThen(s, es, Edit(DELETE, x, x' - x), x0, y0, x, y, x', y);
      }
    }
  }

  lemma PushInsert(s: Match, es: seq<Edit>, x0: int, y0: int, x: int, y: int, y': int)
    requires Walks(s, es, x0, y0, x, y) && y <= y'
    ensures Walks(s, Push(es, INSERT, y, y' - y), x0, y0, x, y')
  {
    if y < y' {
      if es != [] && es[|es| - 1].op == INSERT {
        var rest, e := es[..|es| - 1], es[|es| - 1];
        WalksThen(s, rest, e.(len := e.len + (y' - y)), x0, y0, x, y - e.len, x, y');
      } else {
        WalksThen(s, es, Edit(INSERT, y, y' - y), x0, y0, x, y, x, y');
      }
    }
  }

  lemma {:induction false} WalksForward(s: Match, es: seq<Edit>, x0: int, y0: int, x1: int, y1: int)
    requires Walks(s, es, x0, y0, x1, y1)
    ensures x0 <= x1 && y0 <= y1 && 0 <= Cost(es)
    decreases |es|
  {
    if es != [] {
      var e, rest := es[|es| - 1], es[..|es| - 1];
      WalksForward(s, rest, x0, y0, FromX(e, x1), FromY(e, y1));
    }
  }

  /** The script grew from was to now by a walk from (x, y) to (x', y') of the given cost, however
      it got to (x, y). */
  ghost predicate Emitted(s: Match, was: seq<Edit>, now: seq<Edit>, x: int, y: int, x': int, y': int, cost: int) {
    && Cost(now) == Cost(was) + cost
    && (Coalesced(was) ==> Coalesced(now))
    && forall x0: int, y0: int :: Walks(s, was, x0, y0, x, y) ==> Walks(s, now, x0, y0, x', y')
  }

  lemma EmittedMatch(s: Match, es: seq<Edit>, x: int, y: int, x': int, y': int)
    requires Snake(s, x - y, x, x') && x' - x == y' - y
    ensures Emitted(s, es, Push(es, MATCH, x, x' - x), x, y, x', y', 0)
  {
    hide Walks;
    var now := Push(es, MATCH, x, x' - x);
    PushCost(es, MATCH, x, x' - x);
    forall x0: int, y0: int | Walks(s, es, x0, y0, x, y) ensures Walks(s, now, x0, y0, x', y') {
      PushMatch(s, es, x0, y0, x, y, x', y');
    }
  }

  lemma EmittedDelete(s: Match, es: seq<Edit>, x: int, y: int, x': int)
    requires x <= x'
    ensures Emitted(s, es, Push(es, DELETE, x, x' - x), x, y, x', y, x' - x)
  {
    hide Walks;
    var now := Push(es, DELETE, x, x' - x);
    PushCost(es, DELETE, x, x' - x);
    forall x0: int, y0: int | Walks(s, es, x0, y0, x, y) ensures Walks(s, now, x0, y0, x', y) {
      PushDelete(s, es, x0, y0, x, y, x');
    }
  }

  lemma EmittedInsert(s: Match, es: seq<Edit>, x: int, y: int, y': int)
    requires y <= y'
    ensures Emitted(s, es, Push(es, INSERT, y, y' - y), x, y, x, y', y' - y)
  {
    hide Walks;
    var now := Push(es, INSERT, y, y' - y);
    PushCost(es, INSERT, y, y' - y);
    forall x0: int, y0: int | Walks(s, es, x0, y0, x, y) ensures Walks(s, now, x0, y0, x, y') {
      PushInsert(s, es, x0, y0, x, y, y');
    }
  }

  lemma EmittedThen(s: Match, es: seq<Edit>, es': seq<Edit>, es'': seq<Edit>, x: int, y: int, x': int, y': int,
                    x'': int, y'': int, c: int, c': int)
    requires Emitted(s, es, es', x, y, x', y', c) && Emitted(s, es', es'', x', y', x'', y'', c')
    ensures Emitted(s, es, es'', x, y, x'', y'', c + c')
  {
  }

  /** A script that grew from nothing. */
  lemma FromNothing(s: Match, es: seq<Edit>, x: int, y: int, x': int, y': int, cost: int)
    requires Emitted(s, [], es, x, y, x', y', cost)
    ensures Walks(s, es, x, y, x', y') && Coalesced(es) && Cost(es) == cost
  {
    assert Walks(s, [], x, y, x, y);
  }

  /** A walk to (x, y), a run of matches to (u, v), and a walk on from there. */
  lemma EmittedAround(s: Match, es: seq<Edit>, es': seq<Edit>, es'': seq<Edit>,
                      x0: int, y0: int, x: int, y: int, u: int, v: int, x1: int, y1: int, c: int, c': int)
    requires Emitted(s, es, es', x0, y0, x, y, c)
    requires Snake(s, x - y, x, u) && u - x == v - y
    requires Emitted(s, Push(es', MATCH, x, u - x), es'', u, v, x1, y1, c')
    ensures Emitted(s, es, es'', x0, y0, x1, y1, c + c')
  {
    hide Emitted, Push;
    var mid := Push(es', MATCH, x, u - x);
    EmittedMatch(s, es', x, y, u, v);
    EmittedThen(s, es, es', mid, x0, y0, x, y, u, v, c, 0);
    EmittedThen(s, es, mid, es'', x0, y0, u, v, x1, y1, c, c');
  }

  // ----- The distance is the least cost of any script

  /** No script between two points costs less than their distance. */
  lemma {:induction false} NoCheaperScript(s: Match, es: seq<Edit>, x0: int, y0: int, x1: int, y1: int, n: int, m: int)
    requires Walks(s, es, x0, y0, x1, y1)
    requires x1 - x0 <= n && y1 - y0 <= m
    ensures x0 <= x1 && y0 <= y1
    ensures Dist(Window(s, x0, y0, n, m), x1 - x0, y1 - y0) <= Cost(es)
    decreases |es|
  {
    WalksForward(s, es, x0, y0, x1, y1);
    if es != [] {
      var e, rest := es[|es| - 1], es[..|es| - 1];
      var x, y := FromX(e, x1), FromY(e, y1);
      NoCheaperScript(s, rest, x0, y0, x, y, n, m);
      EditNotCheaper(s, e, x0, y0, x, y, x1, y1, n, m);
    }
  }

  lemma EditNotCheaper(s: Match, e: Edit, x0: int, y0: int, x: int, y: int, x1: int, y1: int, n: int, m: int)
    requires EditStep(s, e, x, y, x1, y1)
    requires x0 <= x && x1 - x0 <= n && y0 <= y && y1 - y0 <= m
    ensures Dist(Window(s, x0, y0, n, m), x1 - x0, y1 - y0) <=
            Dist(Window(s, x0, y0, n, m), x - x0, y - y0) + if e.op == MATCH then 0 else e.len
  {
    hide Dist;
    var w := Window(s, x0, y0, n, m);
    if e.op == MATCH {
      WindowSnake(s, x0, y0, n, m, x - y, x, x1);
      DistAlongSnake(w, (x - x0) - (y - y0), x - x0, x1 - x0);
    } else {
      DistOneWay(w, x - x0, y - y0, x1 - x0, y1 - y0);
    }
  }

  lemma WindowSnake(s: Match, x0: int, y0: int, n: int, m: int, k: int, x: int, u: int)
    requires Snake(s, k, x, u)
    requires x0 <= x && u <= x0 + n && y0 <= x - k && u - k <= y0 + m
    ensures Snake(Window(s, x0, y0, n, m), k - x0 + y0, x - x0, u - x0)
  {
    var w, kw := Window(s, x0, y0, n, m), k - x0 + y0;
    forall i | x - x0 <= i < u - x0 ensures Matched(w, kw, i) {
      assert Matched(s, k, x0 + i);
    }
  }

  lemma {:induction false} DistOneWay(s: Match, x: nat, y: nat, x': nat, y': nat)
    requires x <= x' && y <= y'
    ensures Dist(s, x', y') <= Dist(s, x, y) + (x' - x) + (y' - y)
    decreases x' - x + y' - y
  {
    if x < x' {
      DistOneWay(s, x, y, x' - 1, y');
      DistLipschitz(s, x' - 1, y');
    } else if y < y' {
      DistOneWay(s, x, y, x', y' - 1);
      DistLipschitz(s, x', y' - 1);
    }
  }

  // ----- Scripts as transformations

  function Slice<T>(a: seq<T>, off: int, len: int): seq<T> {
    if 0 <= off && 0 <= len && off + len <= |a| then a[off..off + len] else []
  }

  /** What an edit reads, by the numbers that callers know: 1 keeps, 2 deletes, 3 inserts. */
  function EditConsumes<T>(e: Edit, a: seq<T>): seq<T> {
    if e.op == 1 || e.op == 2 then Slice(a, e.off, e.len) else []
  }

  function EditYields<T>(e: Edit, a: seq<T>, b: seq<T>): seq<T> {
    if e.op == 1 then Slice(a, e.off, e.len) else if e.op == 3 then Slice(b, e.off, e.len) else []
  }

  /** What the script reads from a: the elements it keeps or deletes. */
  function Consumed<T>(es: seq<Edit>, a: seq<T>): seq<T> {
    if es == [] then [] else Consumed(es[..|es| - 1], a) + EditConsumes(es[|es| - 1], a)
  }

  /** What the script yields: the elements it keeps from a or takes from b. */
  function Yielded<T>(es: seq<Edit>, a: seq<T>, b: seq<T>): seq<T> {
    if es == [] then [] else Yielded(es[..|es| - 1], a, b) + EditYields(es[|es| - 1], a, b)
  }

  /** Elements of two sequences match, position by position. */
  function Pairs<T>(a: seq<T>, b: seq<T>, same: (T, T) -> bool): Match {
    (i, j) => 0 <= i < |a| && 0 <= j < |b| && same(a[i], b[j])
  }

  ghost predicate Alike<T(!new)>(p: seq<T>, q: seq<T>, same: (T, T) -> bool) {
    |p| == |q| && forall i :: 0 <= i < |p| ==> p[i] == q[i] || same(p[i], q[i])
  }

  /** A script that walks from (x0, y0) to (x1, y1) reads exactly a[x0..x1] and yields b[y0..y1],
      up to elements the comparison takes for the same. */
  lemma {:induction false} WalksTransforms<T(!new)>(a: seq<T>, b: seq<T>, same: (T, T) -> bool, es: seq<Edit>,
                                                            x0: int, y0: int, x1: int, y1: int)
    requires Walks(Pairs(a, b, same), es, x0, y0, x1, y1)
    requires 0 <= x0 <= x1 <= |a| && 0 <= y0 <= y1 <= |b|
    ensures Consumed(es, a) == a[x0..x1]
    ensures Alike(Yielded(es, a, b), b[y0..y1], same)
    decreases |es|
  {
    hide EditConsumes, EditYields, EditStep, Pairs;
    if es != [] {
      var e, rest := es[|es| - 1], es[..|es| - 1];
      var x, y := FromX(e, x1), FromY(e, y1);
      assert x <= x1 && y <= y1 by { EditAdvances(Pairs(a, b, same), e, x, y, x1, y1); }
      WalksForward(Pairs(a, b, same), rest, x0, y0, x, y);
      WalksTransforms(a, b, same, rest, x0, y0, x, y);
      EditTransforms(a, b, same, e, x, y, x1, y1);
      assert a[x0..x1] == a[x0..x] + a[x..x1];
      assert b[y0..y1] == b[y0..y] + b[y..y1];
      AlikeConcat(Yielded(rest, a, b), b[y0..y], EditYields(e, a, b), b[y..y1], same);
    }
  }

  lemma EditAdvances(s: Match, e: Edit, x: int, y: int, x1: int, y1: int)
    requires EditStep(s, e, x, y, x1, y1)
    ensures x <= x1 && y <= y1
  {
  }

  lemma EditTransforms<T(!new)>(a: seq<T>, b: seq<T>, same: (T, T) -> bool, e: Edit, x: int, y: int, x1: int, y1: int)
    requires EditStep(Pairs(a, b, same), e, x, y, x1, y1)
    requires 0 <= x <= x1 <= |a| && 0 <= y <= y1 <= |b|
    ensures EditConsumes(e, a) == a[x..x1]
    ensures Alike(EditYields(e, a, b), b[y..y1], same)
  {
    if e.op == MATCH {
      MatchedAlike(a, b, same, x, y, e.len);
    }
  }

  lemma MatchedAlike<T(!new)>(a: seq<T>, b: seq<T>, same: (T, T) -> bool, x: int, y: int, len: nat)
    requires 0 <= x && x + len <= |a| && 0 <= y && y + len <= |b|
    requires Snake(Pairs(a, b, same), x - y, x, x + len)
    ensures Alike(a[x..x + len], b[y..y + len], same)
  {
    var p, q := a[x..x + len], b[y..y + len];
    forall i | 0 <= i < len ensures same(p[i], q[i]) {
      assert Matched(Pairs(a, b, same), x - y, x + i);
    }
  }

  lemma AlikeConcat<T(!new)>(p: seq<T>, q: seq<T>, p': seq<T>, q': seq<T>, same: (T, T) -> bool)
    requires Alike(p, q, same) && Alike(p', q', same)
    ensures Alike(p + p', q + q', same)
  {
  }
}

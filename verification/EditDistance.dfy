/** Edit distance over an arbitrary match predicate.

    A point (x, y) of the edit graph stands for "x elements of the first sequence and y elements of
    the second have been dealt with". Moving right deletes, moving down inserts (cost 1 each); a
    diagonal step from (x, y) to (x+1, y+1) is free and needs a match at (x, y).

    The search of gr/diff_engine.c does not clip its diagonals to the n by m grid, so distances are
    defined on the whole quadrant; a bounded problem simply has no match outside its grid. */
module EditDistance {
  import opened Basics

  type Match = (int, int) -> bool

  /** Least number of insertions and deletions from the origin to (x, y). */
  function Dist(s: Match, x: nat, y: nat): nat
    decreases x + y
  {
    if x == 0 then y
    else if y == 0 then x
    else if s(x - 1, y - 1) then Dist(s, x - 1, y - 1)
    else 1 + Min(Dist(s, x - 1, y), Dist(s, x, y - 1))
  }

  /** The same problem read from the far corner (n, m) backwards. */
  function Reverse(s: Match, n: int, m: int): Match {
    (i, j) => s(n - 1 - i, m - 1 - j)
  }

  /** Distance from (x, y) to (n, m), for any x <= n and y <= m. */
  function DistTo(s: Match, n: int, m: int, x: int, y: int): nat
    requires x <= n && y <= m
  {
    Dist(Reverse(s, n, m), n - x, m - y)
  }

  /** The problem seen from (u, v), cut off to n by m. */
  function Window(s: Match, u: int, v: int, n: int, m: int): Match {
    (i, j) => 0 <= i < n && 0 <= j < m && s(u + i, v + j)
  }

  /** Every match lies in the n by m grid. */
  ghost predicate Bounded(s: Match, n: int, m: int) {
    forall i, j :: s(i, j) ==> 0 <= i < n && 0 <= j < m
  }

  ghost predicate AgreeBelow(s: Match, t: Match, x: int, y: int) {
    forall i, j :: 0 <= i < x && 0 <= j < y ==> s(i, j) == t(i, j)
  }

  // ----- Elementary facts about Dist

  lemma {:induction false} DistExt(s: Match, t: Match, x: nat, y: nat)
    requires AgreeBelow(s, t, x, y)
    ensures Dist(s, x, y) == Dist(t, x, y)
    decreases x + y
  {
    if x == 0 || y == 0 {
    } else {
      assert s(x - 1, y - 1) == t(x - 1, y - 1);
      DistExt(s, t, x - 1, y - 1);
      DistExt(s, t, x - 1, y);
      DistExt(s, t, x, y - 1);
    }
  }

  /** One step right or down changes the distance by at most one. */
  lemma {:induction false} DistLipschitz(s: Match, x: nat, y: nat)
    ensures Dist(s, x, y) - 1 <= Dist(s, x + 1, y) <= Dist(s, x, y) + 1
    ensures Dist(s, x, y) - 1 <= Dist(s, x, y + 1) <= Dist(s, x, y) + 1
    decreases x + y
  {
    if y > 0 {
      DistLipschitz(s, x, y - 1);
    }
    if x > 0 {
      DistLipschitz(s, x - 1, y);
    }
  }

  lemma SameParity(a: int, b: int, c: int, z: int)
    ensures (a - z) % 2 == (a - (z - 2)) % 2
    ensures (1 + b - z) % 2 == (b - (z - 1)) % 2 && (1 + c - z) % 2 == (c - (z - 1)) % 2
  {
  }

  lemma {:induction false} DistParity(s: Match, x: nat, y: nat)
    ensures (Dist(s, x, y) - (x + y)) % 2 == 0
    decreases x + y
  {
    if x > 0 && y > 0 {
      DistParity(s, x - 1, y - 1);
      DistParity(s, x - 1, y);
      DistParity(s, x, y - 1);
      var a, b, c := Dist(s, x - 1, y - 1), Dist(s, x - 1, y), Dist(s, x, y - 1);
      assert Dist(s, x, y) == a || Dist(s, x, y) == 1 + b || Dist(s, x, y) == 1 + c;
      hide Dist;
      SameParity(a, b, c, x + y);
    }
  }

  lemma {:induction false} DistParityBounds(s: Match, x: nat, y: nat)
    ensures Abs(x - y) <= Dist(s, x, y) <= x + y
    ensures (Dist(s, x, y) - (x + y)) % 2 == 0
    decreases x + y
  {
    DistParity(s, x, y);
    if x > 0 && y > 0 {
      DistParityBounds(s, x - 1, y - 1);
      DistParityBounds(s, x - 1, y);
      DistParityBounds(s, x, y - 1);
    }
  }

  /** Distance never decreases along a diagonal. */
  lemma {:induction false} DistDiagonal(s: Match, x: nat, y: nat, t: nat)
    ensures Dist(s, x, y) <= Dist(s, x + t, y + t)
    decreases t
  {
    if t > 0 {
      DistDiagonal(s, x, y, t - 1);
      DistLipschitz(s, x + t - 1, y + t - 1);
    }
  }

  /** Past the grid every step right costs one. */
  lemma {:induction false} DistBeyondRight(s: Match, n: nat, m: nat, j: nat, y: nat)
    requires Bounded(s, n, m)
    ensures Dist(s, n + j, y) == Dist(s, n, y) + j
    decreases j + y
  {
    if j == 0 || y == 0 {
    } else {
      DistBeyondRight(s, n, m, j - 1, y);
      DistBeyondRight(s, n, m, j, y - 1);
      DistLipschitz(s, n, y - 1);
    }
  }

  /** Past the grid every step down costs one. */
  lemma {:induction false} DistBeyondDown(s: Match, n: nat, m: nat, x: nat, i: nat)
    requires Bounded(s, n, m)
    ensures Dist(s, x, m + i) == Dist(s, x, m) + i
    decreases x + i
  {
    if i == 0 || x == 0 {
    } else {
      DistBeyondDown(s, n, m, x, i - 1);
      DistBeyondDown(s, n, m, x - 1, i);
      DistLipschitz(s, x - 1, m);
    }
  }

  /** Distance zero means the whole diagonal matches. */
  lemma {:induction false} DistZero(s: Match, x: nat, y: nat)
    requires Dist(s, x, y) == 0
    ensures x == y && forall i :: 0 <= i < x ==> s(i, i)
    decreases x + y
  {
    DistParityBounds(s, x, y);
    if x > 0 {
      DistZero(s, x - 1, y - 1);
    }
  }

  // ----- Distances from both ends

  lemma DistToStep(s: Match, n: int, m: int, x: int, y: int)
    requires x <= n && y <= m
    ensures DistTo(s, n, m, x, y) ==
            if x == n then m - y
            else if y == m then n - x
            else if s(x, y) then DistTo(s, n, m, x + 1, y + 1)
            else 1 + Min(DistTo(s, n, m, x + 1, y), DistTo(s, n, m, x, y + 1))
  {
    assert Reverse(s, n, m)(n - x - 1, m - y - 1) == s(x, y);
  }

  /** Splitting a path at any grid point never beats the best path. */
  lemma {:induction false} Triangle(s: Match, n: nat, m: nat, x: nat, y: nat)
    requires x <= n && y <= m
    ensures Dist(s, n, m) <= Dist(s, x, y) + DistTo(s, n, m, x, y)
    decreases n - x + m - y
  {
    DistToStep(s, n, m, x, y);
    DistLipschitz(s, x, y);
    if x < n {
      Triangle(s, n, m, x + 1, y);
    }
    if y < m {
      Triangle(s, n, m, x, y + 1);
    }
    if x < n && y < m {
      Triangle(s, n, m, x + 1, y + 1);
    }
  }

  /** Reading both sequences backwards leaves the distance unchanged. */
  lemma DistReverse(s: Match, n: nat, m: nat)
    ensures Dist(Reverse(s, n, m), n, m) == Dist(s, n, m)
  {
    var r := Reverse(s, n, m);
    Triangle(s, n, m, 0, 0);
    Triangle(r, n, m, 0, 0);
    DistExt(Reverse(r, n, m), s, n, m);
  }

  /** Some optimal path passes through a point at every intermediate cost. */
  lemma OptimalPoint(s: Match, n: nat, m: nat, d: nat) returns (x: nat, y: nat)
    requires d <= Dist(s, n, m)
    ensures x <= n && y <= m
    ensures Dist(s, x, y) == d
    ensures DistTo(s, n, m, x, y) == Dist(s, n, m) - d
  {
    DistReverse(s, n, m);
    x, y := OptimalPointFrom(s, n, m, d, 0, 0);
  }

  /** The point lies on some path of least cost. */
  ghost predicate OnBestPath(s: Match, n: nat, m: nat, x: nat, y: nat) {
    x <= n && y <= m && Dist(s, x, y) + DistTo(s, n, m, x, y) == Dist(s, n, m)
  }

  /** A best path not yet at its end goes on through one more point, at most one edit later. */
  lemma NextOnBestPath(s: Match, n: nat, m: nat, x: nat, y: nat) returns (x': nat, y': nat)
    requires OnBestPath(s, n, m, x, y)
    requires DistTo(s, n, m, x, y) > 0
    ensures OnBestPath(s, n, m, x', y')
    ensures x + y < x' + y' && Dist(s, x', y') <= Dist(s, x, y) + 1
  {
    DistToStep(s, n, m, x, y);
    DistLipschitz(s, x, y);
    if x < n && y < m && s(x, y) {
      x', y' := x + 1, y + 1;
    } else if x < n && (y == m || DistTo(s, n, m, x + 1, y) <= DistTo(s, n, m, x, y + 1)) {
      x', y' := x + 1, y;
      DistToStep(s, n, m, x', y');
    } else {
      x', y' := x, y + 1;
      DistToStep(s, n, m, x', y');
    }
    Triangle(s, n, m, x', y');
  }

  lemma {:induction false} OptimalPointFrom(s: Match, n: nat, m: nat, d: nat, x0: nat, y0: nat) returns (x: nat, y: nat)
    requires OnBestPath(s, n, m, x0, y0)
    requires Dist(s, x0, y0) <= d <= Dist(s, n, m)
    ensures OnBestPath(s, n, m, x, y) && Dist(s, x, y) == d
    decreases n + m - x0 - y0
  {
    x, y := x0, y0;
    if Dist(s, x, y) < d {
      x, y := NextOnBestPath(s, n, m, x, y);
      x, y := OptimalPointFrom(s, n, m, d, x, y);
    }
  }

  /** The far half of a split problem is a problem of its own, at the same distance. */
  lemma DistWindow(s: Match, n: nat, m: nat, u: nat, v: nat)
    requires u <= n && v <= m
    ensures Dist(Window(s, u, v, n - u, m - v), n - u, m - v) == DistTo(s, n, m, u, v)
  {
    var w := Window(s, u, v, n - u, m - v);
    DistReverse(w, n - u, m - v);
    DistExt(Reverse(w, n - u, m - v), Reverse(s, n, m), n - u, m - v);
  }
}

/** The recursion of the diff engine splits a problem only into problems its base case can handle. */
module Recursion {
  import opened Basics
  import opened EditDistance
  import opened FurthestReaching
  import opened DiffScript

  /** A best path of one edit has it at its very end, or at its very beginning. */
  ghost predicate EditAtEnd(s: Match, n: int, m: int) {
    Snake(s, 0, 0, Min(n, m))
  }

  ghost predicate EditAtStart(s: Match, n: int, m: int) {
    if n < m then Snake(s, -1, 0, n) else Snake(s, 1, 1, n)
  }

  /** What a recursive call with elements on both sides may rely on. */
  ghost predicate Disciplined(s: Match, n: nat, m: nat) {
    0 < n && 0 < m ==>
      && 1 <= Dist(s, n, m)
      && (Dist(s, n, m) == 1 ==> EditAtEnd(s, n, m) || EditAtStart(s, n, m))
  }

  lemma ZeroFromStart(s: Match, x: nat, y: nat)
    requires Dist(s, x, y) == 0
    ensures x == y && Snake(s, 0, 0, x)
  {
    DistZero(s, x, y);
    forall i | 0 <= i < x ensures Matched(s, 0, i) {
      assert s(i, i);
    }
  }

  lemma ZeroToEnd(s: Match, n: nat, m: nat, x: nat, y: nat)
    requires x <= n && y <= m && DistTo(s, n, m, x, y) == 0
    ensures n - x == m - y && Snake(s, x - y, x, n)
  {
    ZeroFromStart(Reverse(s, n, m), n - x, m - y);
    SnakeReverse(s, n, m, x - y, x, n);
  }

  /** A problem whose first pair does not match is disciplined. */
  lemma StrippedDisciplined(s: Match, n: nat, m: nat)
    requires !s(0, 0)
    ensures Disciplined(s, n, m)
  {
    if 0 < n && 0 < m {
      DistReverse(s, n, m);
      DistToStep(s, n, m, 0, 0);
      if Dist(s, n, m) == 1 {
        if DistTo(s, n, m, 1, 0) == 0 {
          ZeroToEnd(s, n, m, 1, 0);
        } else {
          ZeroToEnd(s, n, m, 0, 1);
        }
      }
    }
  }

  /** So is one whose last pair does not match. */
  lemma EndStrippedDisciplined(s: Match, n: nat, m: nat)
    requires !s(n - 1, m - 1)
    ensures Disciplined(s, n, m)
  {
    if 0 < n && 0 < m && Dist(s, n, m) == 1 {
      if Dist(s, n - 1, m) == 0 {
        ZeroFromStart(s, n - 1, m);
      } else {
        ZeroFromStart(s, n, m - 1);
      }
    }
  }

  lemma DisciplinedExt(s: Match, t: Match, n: nat, m: nat)
    requires AgreeBelow(s, t, n, m) && Disciplined(s, n, m)
    ensures Disciplined(t, n, m)
  {
    DistExt(s, t, n, m);
    hide Dist;
    DistParityBounds(s, n, m);
    forall i | 0 <= i < Min(n, m) && Matched(s, 0, i) ensures Matched(t, 0, i) {}
    forall i | 0 <= i < n && i + 1 < m && Matched(s, -1, i) ensures Matched(t, -1, i) {}
    forall i | 1 <= i < n && i - 1 < m && Matched(s, 1, i) ensures Matched(t, 1, i) {}
  }

  /** The near half of a split takes the rounded-up half of the distance. */
  lemma NearHalf(s: Match, n: nat, m: nat, x: nat, y: nat, u: nat, v: nat, near: Match)
    requires MiddleSnake(s, n, m, x, y, u, v) && 2 <= Dist(s, n, m)
    requires AgreeBelow(s, near, x, y)
    ensures Dist(near, x, y) == (Dist(s, n, m) + 1) / 2
    ensures Disciplined(near, x, y)
    ensures x <= u <= n && y <= v <= m && u - x == v - y && Snake(s, x - y, x, u)
    ensures x + y < n + m
  {
    DistExt(s, near, x, y);
    if Dist(s, n, m) == 2 {
      EndStrippedDisciplined(s, x, y);
      DisciplinedExt(s, near, x, y);
    }
    if x == n && y == m {
      assert false;
    }
  }

  /** The far half of a split takes the rounded-down half of the distance. */
  lemma FarHalf(s: Match, n: nat, m: nat, x: nat, y: nat, u: nat, v: nat, far: Match)
    requires MiddleSnake(s, n, m, x, y, u, v) && 2 <= Dist(s, n, m)
    requires u <= n && v <= m && AgreeBelow(Window(s, u, v, n - u, m - v), far, n - u, m - v)
    ensures Dist(far, n - u, m - v) == Dist(s, n, m) / 2
    ensures Disciplined(far, n - u, m - v)
    ensures 0 < u + v
  {
    var w := Window(s, u, v, n - u, m - v);
    DistWindow(s, n, m, u, v);
    DistExt(w, far, n - u, m - v);
    if Dist(s, n, m) == 2 {
      EnteredBackDisciplined(s, n, m, u, v);
      DisciplinedExt(w, far, n - u, m - v);
    } else if Dist(s, n, m) == 3 {
      StrippedDisciplined(w, n - u, m - v);
      DisciplinedExt(w, far, n - u, m - v);
    }
  }

  /** A far half of one edit, entered by the reverse search through that edit, starts with it. */
  lemma EnteredBackDisciplined(s: Match, n: nat, m: nat, u: nat, v: nat)
    requires u <= n && v <= m && DistTo(s, n, m, u, v) == 1
    requires EnteredByEdit(Reverse(s, n, m), n - u, m - v, 1)
    ensures Disciplined(Window(s, u, v, n - u, m - v), n - u, m - v)
  {
    var w := Window(s, u, v, n - u, m - v);
    DistWindow(s, n, m, u, v);
    if u < n && DistTo(s, n, m, u + 1, v) == 0 {
      ZeroToEnd(s, n, m, u + 1, v);
      WindowSnake(s, u, v, n - u, m - v, u + 1 - v, u + 1, n);
    } else {
      ZeroToEnd(s, n, m, u, v + 1);
      WindowSnake(s, u, v, n - u, m - v, u - v - 1, u, n);
    }
  }

  /** The base case: one edit, whose place the comparison of x and u gives away. */
  lemma BaseCase(s: Match, n: nat, m: nat, x: nat, y: nat, u: nat, v: nat)
    requires Bounded(s, n, m)
    requires MiddleSnake(s, n, m, x, y, u, v) && Dist(s, n, m) == 1 && Disciplined(s, n, m)
    requires 0 < n && 0 < m
    ensures n == m + 1 || m == n + 1
    ensures if x == u then EditAtEnd(s, n, m) else EditAtStart(s, n, m)
  {
    hide Dist;
    DistParityBounds(s, n, m);
    ZeroToEnd(s, n, m, u, v);
    assert u < n ==> Matched(s, u - v, u);
    LastStep(s, n, m, x, y);
  }

  lemma LastStep(s: Match, n: nat, m: nat, x: nat, y: nat)
    requires x <= n && y <= m && x - y == n - m && (n == m + 1 || m == n + 1)
    requires EnteredByEdit(s, x, y, 1)
    ensures x == n ==> EditAtEnd(s, n, m)
    ensures EditAtEnd(s, n, m) ==> x == n
  {
    DistParityBounds(s, x, y);
    if Furthest(s, x - 1 - y, 0, x - 1) {
      DistParityBounds(s, x - 1, y);
      ZeroFromStart(s, x - 1, y);
      if EditAtEnd(s, n, m) && x < n {
        DistAlongSnake(s, 0, 0, x);
      }
    } else {
      ZeroFromStart(s, x, y - 1);
      if EditAtEnd(s, n, m) && x < n {
        DistAlongSnake(s, 0, 0, x + 1);
      }
    }
  }
}

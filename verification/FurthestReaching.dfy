/** Furthest reaching points: what the V array of the greedy search holds, and what it means for the
    forward and the reverse search to meet. Diagonal k holds the points (x, x - k). */
module FurthestReaching {
  import opened EditDistance

  /** x is the last point of diagonal k that d edits reach. */
  ghost predicate Furthest(s: Match, k: int, d: int, x: int) {
    && 0 <= x && 0 <= x - k
    && Dist(s, x, x - k) <= d < Dist(s, x + 1, x + 1 - k)
  }

  lemma FurthestIsGreatest(s: Match, k: int, d: int, x: int, p: int)
    requires Furthest(s, k, d, x)
    requires 0 <= p && 0 <= p - k
    ensures Dist(s, p, p - k) <= d <==> p <= x
  {
    if p <= x {
      DistDiagonal(s, p, p - k, x - p);
    } else {
      DistDiagonal(s, x + 1, x + 1 - k, p - x - 1);
    }
  }

  predicate Matched(s: Match, k: int, i: int) { s(i, i - k) }

  /** Every step from (x, x - k) to (u, u - k) is a match. */
  ghost predicate Snake(s: Match, k: int, x: int, u: int) {
    x <= u && forall i :: x <= i < u ==> Matched(s, k, i)
  }

  lemma {:induction false} DistAlongSnake(s: Match, k: int, x: int, u: int)
    requires 0 <= x && 0 <= x - k && Snake(s, k, x, u)
    ensures Dist(s, u, u - k) == Dist(s, x, x - k)
    decreases u - x
  {
    if x < u {
      DistAlongSnake(s, k, x, u - 1);
      assert Matched(s, k, u - 1);
    }
  }

  /** Where the search enters diagonal k in round d, from the neighbours' values of round d - 1. */
  function Start(k: int, d: int, below: int, above: int): int {
    if k == -d || (k != d && below < above) then above else below + 1
  }

  /** What is known of the neighbours of diagonal k when round d visits it. */
  ghost predicate NeighboursReady(s: Match, k: int, d: int, below: int, above: int) {
    && 0 <= d && -d <= k <= d && (d - k) % 2 == 0
    && (d == 0 ==> above == 0)
    && (d > 0 && k != -d ==> Furthest(s, k - 1, d - 1, below))
    && (d > 0 && k != d ==> Furthest(s, k + 1, d - 1, above))
  }

  /** (x, y) is entered by an edit from a furthest reaching point of the round before. */
  ghost predicate EnteredByEdit(s: Match, x: int, y: int, d: int) {
    Furthest(s, x - 1 - y, d - 1, x - 1) || Furthest(s, x - y + 1, d - 1, x)
  }

  lemma StartReached(s: Match, k: int, d: int, below: int, above: int)
    requires NeighboursReady(s, k, d, below, above)
    ensures var x := Start(k, d, below, above);
            0 <= x && 0 <= x - k && Dist(s, x, x - k) <= d && (d > 0 ==> EnteredByEdit(s, x, x - k, d))
  {
    if d > 0 {
      if k == -d || (k != d && below < above) {
        DistLipschitz(s, above, above - k - 1);
      } else {
        DistLipschitz(s, below, below - k + 1);
      }
    }
  }

  /** One step of the greedy search: the end of the snake is furthest reaching. */
  lemma FurthestStep(s: Match, k: int, d: int, below: int, above: int, x: int)
    requires NeighboursReady(s, k, d, below, above)
    requires Snake(s, k, Start(k, d, below, above), x)
    requires !Matched(s, k, x)
    ensures Furthest(s, k, d, x)
  {
    StartReached(s, k, d, below, above);
    DistAlongSnake(s, k, Start(k, d, below, above), x);
    PastStart(s, k, d, below, above, x);
  }

  lemma PastStart(s: Match, k: int, d: int, below: int, above: int, x: int)
    requires NeighboursReady(s, k, d, below, above)
    requires Start(k, d, below, above) <= x && 0 <= x - k && 0 <= x
    requires !Matched(s, k, x)
    ensures d < Dist(s, x + 1, x + 1 - k)
  {
    if Dist(s, x, x - k + 1) <= d - 1 {
      DistParityBounds(s, x, x - k + 1);
      FurthestIsGreatest(s, k - 1, d - 1, below, x);
      assert false;
    }
    if Dist(s, x + 1, x - k) <= d - 1 {
      DistParityBounds(s, x + 1, x - k);
      FurthestIsGreatest(s, k + 1, d - 1, above, x + 1);
      assert false;
    }
  }

  /** The first meeting of the two searches lies in the grid and splits a best path exactly. */
  lemma MeetingSplits(s: Match, n: nat, m: nat, k: int, d: int, e: int, x: int, y: int, x': int)
    requires Bounded(s, n, m)
    requires Furthest(s, k, d, x) && y == x - k
    requires Furthest(Reverse(s, n, m), n - m - k, e, n - x')
    requires x' <= x
    requires -e <= k - (n - m) <= e
    requires d + e <= Dist(s, n, m)
    ensures 0 <= x <= n && 0 <= y <= m
    ensures Dist(s, n, m) == d + e
    ensures Dist(s, x, y) == d && DistTo(s, n, m, x, y) == e
  {
    hide Dist;
    MeetingInGrid(s, n, m, k, d, e, x);
    DistDiagonal(Reverse(s, n, m), n - x, m - y, x - x');
    Triangle(s, n, m, x, y);
  }

  /** A meeting outside the grid would make the total distance smaller than it is. */
  lemma MeetingInGrid(s: Match, n: nat, m: nat, k: int, d: int, e: int, x: int)
    requires Bounded(s, n, m)
    requires Furthest(s, k, d, x)
    requires -e <= k - (n - m) <= e
    requires d + e <= Dist(s, n, m)
    ensures x <= n && x - k <= m
  {
    var y := x - k;
    if x > n {
      DistBeyondRight(s, n, m, x - n, y);
      if y > m {
        DistBeyondDown(s, n, m, n, y - m);
      } else {
        Triangle(s, n, m, n, y);
      }
    } else if y > m {
      DistBeyondDown(s, n, m, x, y - m);
      Triangle(s, n, m, x, m);
    }
  }

  /** The diagonals that round d of a search visits. */
  predicate InRound(k: int, d: int) {
    -d <= k <= d && (d - k) % 2 == 0
  }

  /** f holds the furthest reaching points of round d. */
  ghost predicate RoundDone(s: Match, d: int, f: int -> int) {
    forall k: int :: InRound(k, d) ==> Furthest(s, k, d, f(k))
  }

  /** The searches meet on diagonal k when the forward point is not before the reverse one.
      f holds forward points, g reverse points, each in the coordinates of its own search. */
  predicate MeetOn(n: int, m: int, k: int, f: int -> int, g: int -> int) {
    n - g(n - m - k) <= f(k)
  }

  /** If d forward and e reverse rounds meet nowhere, the distance is not d + e. */
  lemma NoMeetingNotThere(s: Match, n: nat, m: nat, d: int, e: int, f: int -> int, g: int -> int)
    requires 0 <= d && 0 <= e
    requires RoundDone(s, d, f) && RoundDone(Reverse(s, n, m), e, g)
    requires forall k: int :: InRound(k, d) && InRound(n - m - k, e) ==> !MeetOn(n, m, k, f, g)
    ensures Dist(s, n, m) != d + e
  {
    if Dist(s, n, m) == d + e {
      var x, y := OptimalPoint(s, n, m, d);
      OptimalPointMeets(s, n, m, d, e, f, g, x, y);
    }
  }

  lemma OptimalPointMeets(s: Match, n: nat, m: nat, d: int, e: int, f: int -> int, g: int -> int, x: nat, y: nat)
    requires 0 <= d && 0 <= e && x <= n && y <= m
    requires RoundDone(s, d, f) && RoundDone(Reverse(s, n, m), e, g)
    requires Dist(s, x, y) == d && DistTo(s, n, m, x, y) == e
    ensures InRound(x - y, d) && InRound(n - m - (x - y), e) && MeetOn(n, m, x - y, f, g)
  {
    ReachedInRound(s, d, f, x, y);
    ReachedInRound(Reverse(s, n, m), e, g, n - x, m - y);
    assert (n - x) - (m - y) == n - m - (x - y);
  }

  lemma ReachedInRound(s: Match, d: int, f: int -> int, x: nat, y: nat)
    requires RoundDone(s, d, f) && Dist(s, x, y) == d
    ensures InRound(x - y, d) && x <= f(x - y)
  {
    hide Dist, Furthest;
    DistParityBounds(s, x, y);
    assert InRound(x - y, d);
    assert x - (x - y) == y;
    FurthestIsGreatest(s, x - y, d, f(x - y), x);
  }

  // ----- The reverse search is the forward search of the reversed problem

  lemma SnakeReverse(s: Match, n: int, m: int, k: int, x: int, u: int)
    requires Snake(Reverse(s, n, m), n - m - k, n - u, n - x)
    ensures Snake(s, k, x, u)
  {
    forall i | x <= i < u ensures Matched(s, k, i) {
      assert Matched(Reverse(s, n, m), n - m - k, n - 1 - i);
    }
  }

  lemma FurthestExt(s: Match, t: Match, k: int, d: int, x: int)
    requires Furthest(s, k, d, x)
    requires forall i, j :: s(i, j) == t(i, j)
    ensures Furthest(t, k, d, x)
  {
    DistExt(s, t, x, x - k);
    DistExt(s, t, x + 1, x + 1 - k);
  }

  lemma DistToReverse(s: Match, n: nat, m: nat, x: nat, y: nat)
    requires x <= n && y <= m
    ensures DistTo(Reverse(s, n, m), n, m, n - x, m - y) == Dist(s, x, y)
  {
    DistExt(s, Reverse(Reverse(s, n, m), n, m), x, y);
  }

  /** MeetingSplits for a meeting that the reverse search finds. */
  lemma MeetingSplitsReverse(s: Match, n: nat, m: nat, k: int, d: int, x: int, y: int, x': int)
    requires Bounded(s, n, m)
    requires Furthest(Reverse(s, n, m), n - m - k, d, n - x) && y == x - k
    requires Furthest(s, k, d, x')
    requires x <= x'
    requires -d <= k <= d
    requires 2 * d <= Dist(s, n, m)
    ensures 0 <= x <= n && 0 <= y <= m
    ensures Dist(s, n, m) == 2 * d
    ensures Dist(s, x, y) == d && DistTo(s, n, m, x, y) == d
  {
    hide Dist;
    var r := Reverse(s, n, m);
    DistReverse(s, n, m);
    FurthestExt(s, Reverse(r, n, m), k, d, x');
    MeetingSplits(r, n, m, n - m - k, d, d, n - x, m - y, n - x');
    DistToReverse(s, n, m, x, y);
  }

  /** What a middle snake from (x, y) to (u, v) promises of the n by m problem. */
  ghost predicate MiddleSnake(s: Match, n: nat, m: nat, x: int, y: int, u: int, v: int) {
    && 0 <= x <= u <= n && 0 <= y <= v <= m
    && u - x == v - y && Snake(s, x - y, x, u)
    && var total := Dist(s, n, m);
    && Dist(s, x, y) == Dist(s, u, v) == (total + 1) / 2
    && DistTo(s, n, m, x, y) == DistTo(s, n, m, u, v) == total / 2
    && (total % 2 == 1 ==> EnteredByEdit(s, x, y, (total + 1) / 2) && !s(u, v))
    && (total % 2 == 0 && total > 0 ==> EnteredByEdit(Reverse(s, n, m), n - u, m - v, total / 2) && !s(x - 1, y - 1))
  }

  lemma {:induction false} DistToAlongSnake(s: Match, n: int, m: int, k: int, x: int, u: int)
    requires 0 <= x <= u <= n && 0 <= x - k && u - k <= m
    requires Snake(s, k, x, u)
    ensures DistTo(s, n, m, x, x - k) == DistTo(s, n, m, u, u - k)
    decreases u - x
  {
    if x < u {
      assert Matched(s, k, x);
      DistToStep(s, n, m, x, x - k);
      DistToAlongSnake(s, n, m, k, x + 1, u);
    }
  }

  /** Round d of a search entered diagonal k at (x, y) and followed matches to (u, v). */
  ghost predicate Stepped(s: Match, k: int, d: int, x: int, y: int, u: int, v: int) {
    && 0 <= x && 0 <= y == x - k && v == u - k
    && Snake(s, k, x, u) && !Matched(s, k, u)
    && Furthest(s, k, d, u)
    && (d > 0 ==> EnteredByEdit(s, x, y, d))
  }

  /** The same for the reverse search, which enters at (u, v) and goes back to (x, y). */
  ghost predicate SteppedBack(s: Match, n: int, m: int, k: int, d: int, x: int, y: int, u: int, v: int) {
    y == x - k && v == u - k && Stepped(Reverse(s, n, m), n - m - k, d, n - u, m - v, n - x, m - y)
  }

  /** A forward snake that reaches the reverse value of its diagonal is a middle snake. */
  lemma ForwardMeets(s: Match, n: nat, m: nat, k: int, d: int, x: int, y: int, u: int, v: int, x': int)
    requires Bounded(s, n, m) && 0 < d
    requires Stepped(s, k, d, x, y, u, v)
    requires InRound(n - m - k, d - 1) && Furthest(Reverse(s, n, m), n - m - k, d - 1, n - x')
    requires x' <= u
    requires 2 * d - 1 <= Dist(s, n, m)
    ensures Dist(s, n, m) == 2 * d - 1
    ensures MiddleSnake(s, n, m, x, y, u, v)
  {
    hide Dist;
    MeetingSplits(s, n, m, k, d, d - 1, u, v, x');
    DistAlongSnake(s, k, x, u);
    DistToAlongSnake(s, n, m, k, x, u);
  }

  /** A reverse snake that reaches the forward value of its diagonal is a middle snake. */
  lemma ReverseMeets(s: Match, n: nat, m: nat, k: int, d: int, x: int, y: int, u: int, v: int, x': int)
    requires Bounded(s, n, m) && 0 <= d
    requires SteppedBack(s, n, m, k, d, x, y, u, v)
    requires InRound(k, d) && Furthest(s, k, d, x')
    requires x <= x'
    requires 2 * d <= Dist(s, n, m)
    ensures Dist(s, n, m) == 2 * d
    ensures MiddleSnake(s, n, m, x, y, u, v)
  {
    hide Dist;
    SnakeReverse(s, n, m, k, x, u);
    MeetingSplitsReverse(s, n, m, k, d, x, y, x');
    DistAlongSnake(s, k, x, u);
    DistToAlongSnake(s, n, m, k, x, u);
  }
}

/** The Myers diff engine with its linear-space refinement: middle snake search, recursion, and the
    growing edit script. */
module DiffEngine {
  import opened Basics
  import opened EditDistance
  import opened FurthestReaching
  import opened DiffScript
  import opened Recursion
  import opened SparseArray

  const INT_MAX := 0x7fff_ffff

  /** Round d of a search has a place in the V buffer for every diagonal it touches. */
  predicate RoundFits(n: int, m: int, d: int) {
    0 <= d && Abs(n - m) + d + 1 < CAPACITY / 4
  }

  /** So has every round of an n by m problem at the given distance and cap, and of every problem that it
      is split into. */
  predicate Fits(n: int, m: int, dist: int, cap: int) {
    if cap <= dist then RoundFits(n, m, (Max(cap, 0) + 1) / 2)
    else Min(Max(n, m), dist) + (dist + 1) / 2 + 1 < CAPACITY / 4
  }

  /** How many edits at most an n by m problem adds to the script. */
  function Room(n: nat, m: nat, dist: nat): nat { if n == 0 || m == 0 || dist == 0 then 1 else 3 * dist - 1 }

  /** The problem of turning a[aoff..aoff+n) into b[boff..boff+m). */
  ghost function Problem<T>(a: seq<T>, aoff: int, n: int, b: seq<T>, boff: int, m: int, same: (T, T) -> bool): Match {
    Window(Pairs(a, b, same), aoff, boff, n, m)
  }

  /** V value of diagonal k: forward for r == 0, reverse for r == 1. */
  ghost function V(cells: seq<int>, k: int, r: int): int {
    if 0 <= Pack(k, r) < |cells| then cells[Pack(k, r)] else 0
  }

  /** The forward values, and the reverse values in the coordinates of the reversed problem. */
  ghost function Forward(cells: seq<int>): int -> int { k => V(cells, k, 0) }

  ghost function Backward(cells: seq<int>, n: int, m: int): int -> int { k => n - V(cells, n - m - k, 1) }

  // ----- What the V buffer holds between the steps of the search

  /** What round d finds: the seeds, or the furthest reaching points of the round before. */
  ghost predicate ForwardReady(s: Match, d: int, cells: seq<int>) {
    if d == 0 then V(cells, 1, 0) == 0 else RoundDone(s, d - 1, Forward(cells))
  }

  ghost predicate ReverseReady(s: Match, n: int, m: int, d: int, cells: seq<int>) {
    if d == 0 then V(cells, n - m - 1, 1) == n else RoundDone(Reverse(s, n, m), d - 1, Backward(cells, n, m))
  }

  /** The forward loop of round d, with the diagonals above k done and no meeting yet. */
  ghost predicate InForward(s: Match, n: int, m: int, d: int, k: int, cells: seq<int>) {
    && ForwardReady(s, d, cells) && ReverseReady(s, n, m, d, cells)
    && (forall j: int :: InRound(j, d) && k < j ==> Furthest(s, j, d, V(cells, j, 0)))
    && (forall j: int :: InRound(j, d) && k < j && InRound(n - m - j, d - 1) ==> V(cells, j, 0) < V(cells, j, 1))
  }

  /** The reverse loop of round d, with the diagonals above k done and no meeting yet; its diagonals
      are counted from n - m. */
  ghost predicate InReverse(s: Match, n: int, m: int, d: int, k: int, cells: seq<int>) {
    && RoundDone(s, d, Forward(cells)) && ReverseReady(s, n, m, d, cells)
    && (forall j: int :: InRound(j, d) && j < -k ==> Furthest(Reverse(s, n, m), j, d, Backward(cells, n, m)(j)))
    && (forall j: int :: InRound(j, d) && InRound(n - m - j, d) && j < -k ==>
          V(cells, n - m - j, 0) < V(cells, n - m - j, 1))
  }

  lemma VUpdate(cells: seq<int>, k: int, r: int, val: int)
    requires 0 <= r <= 1 && Pack(k, r) < |cells|
    ensures var now := cells[Pack(k, r) := val];
            && V(now, k, r) == val
            && (forall j: int :: j != k ==> V(now, j, r) == V(cells, j, r))
            && (forall j: int, q: int :: 0 <= q <= 1 && q != r ==> V(now, j, q) == V(cells, j, q))
  {
    var now := cells[Pack(k, r) := val];
    forall j: int, q: int | 0 <= q <= 1 && (j, q) != (k, r) ensures V(now, j, q) == V(cells, j, q) {
      PackBijection(j, q, 0);
      PackBijection(k, r, 0);
    }
  }

  lemma RoundDoneExt(s: Match, d: int, f: int -> int, g: int -> int)
    requires RoundDone(s, d, f)
    requires forall j: int :: InRound(j, d) ==> f(j) == g(j)
    ensures RoundDone(s, d, g)
  {
    hide Dist, Furthest;
  }

  lemma ForwardNeighbours(s: Match, n: int, m: int, d: int, k: int, cells: seq<int>)
    requires InForward(s, n, m, d, k, cells) && InRound(k, d)
    ensures NeighboursReady(s, k, d, V(cells, k - 1, 0), V(cells, k + 1, 0))
  {
    assert Forward(cells)(k - 1) == V(cells, k - 1, 0) && Forward(cells)(k + 1) == V(cells, k + 1, 0);
    assert d > 0 && k != -d ==> InRound(k - 1, d - 1);
    assert d > 0 && k != d ==> InRound(k + 1, d - 1);
  }

  lemma ReverseNeighbours(s: Match, n: int, m: int, d: int, k: int, cells: seq<int>)
    requires InReverse(s, n, m, d, k, cells) && InRound(k, d)
    ensures NeighboursReady(Reverse(s, n, m), -k, d, n - V(cells, n - m + k + 1, 1), n - V(cells, n - m + k - 1, 1))
  {
    var g := Backward(cells, n, m);
    assert g(-k - 1) == n - V(cells, n - m + k + 1, 1) && g(-k + 1) == n - V(cells, n - m + k - 1, 1);
    assert d > 0 && k != d ==> InRound(-k - 1, d - 1);
    assert d > 0 && k != -d ==> InRound(-k + 1, d - 1);
  }

  lemma ForwardKeeps(s: Match, n: int, m: int, d: int, k: int, cells: seq<int>, x: int, y: int, u: int, v: int)
    requires InForward(s, n, m, d, k, cells) && InRound(k, d) && Pack(k, 0) < |cells|
    requires Stepped(s, k, d, x, y, u, v)
    requires InRound(n - m - k, d - 1) ==> u < V(cells, k, 1)
    ensures InForward(s, n, m, d, k - 2, cells[Pack(k, 0) := u])
  {
    hide Dist, Furthest, Snake, Matched, EnteredByEdit;
    var now := cells[Pack(k, 0) := u];
    VUpdate(cells, k, 0, u);
    if d > 0 {
      forall j: int | InRound(j, d - 1) ensures Forward(now)(j) == Forward(cells)(j) {
        assert j != k;
      }
      RoundDoneExt(s, d - 1, Forward(cells), Forward(now));
      RoundDoneExt(Reverse(s, n, m), d - 1, Backward(cells, n, m), Backward(now, n, m));
    }
    forall j: int | InRound(j, d) && k - 2 < j
      ensures Furthest(s, j, d, V(now, j, 0))
      ensures InRound(n - m - j, d - 1) ==> V(now, j, 0) < V(now, j, 1)
    {
      assert j == k || k < j;
    }
  }

  lemma ReverseKeeps(s: Match, n: int, m: int, d: int, k: int, cells: seq<int>, x: int, y: int, u: int, v: int)
    requires InReverse(s, n, m, d, k, cells) && InRound(k, d) && Pack(n - m + k, 1) < |cells|
    requires SteppedBack(s, n, m, n - m + k, d, x, y, u, v)
    requires InRound(n - m + k, d) ==> V(cells, n - m + k, 0) < x
    ensures InReverse(s, n, m, d, k - 2, cells[Pack(n - m + k, 1) := x])
  {
    hide Dist, Furthest, Snake, Matched, EnteredByEdit;
    var now := cells[Pack(n - m + k, 1) := x];
    VUpdate(cells, n - m + k, 1, x);
    ReverseKeepsRounds(s, n, m, d, k, cells, now);
    hide RoundDone;
    assert Backward(now, n, m)(-k) == n - x;
    forall j: int | InRound(j, d) && j < -(k - 2)
      ensures Furthest(Reverse(s, n, m), j, d, Backward(now, n, m)(j))
      ensures InRound(n - m - j, d) ==> V(now, n - m - j, 0) < V(now, n - m - j, 1)
    {
      if j != -k {
        assert j < -k;
        assert Backward(now, n, m)(j) == Backward(cells, n, m)(j);
      }
    }
  }

  /** Writing a reverse value of round d leaves the rounds before and the forward values alone. */
  lemma ReverseKeepsRounds(s: Match, n: int, m: int, d: int, k: int, cells: seq<int>, now: seq<int>)
    requires RoundDone(s, d, Forward(cells)) && ReverseReady(s, n, m, d, cells) && InRound(k, d)
    requires forall j: int :: j != n - m + k ==> V(now, j, 1) == V(cells, j, 1)
    requires forall j: int :: V(now, j, 0) == V(cells, j, 0)
    ensures RoundDone(s, d, Forward(now)) && ReverseReady(s, n, m, d, now)
  {
    hide Dist, Furthest, V;
    RoundDoneExt(s, d, Forward(cells), Forward(now));
    if d > 0 {
      RoundDoneExt(Reverse(s, n, m), d - 1, Backward(cells, n, m), Backward(now, n, m));
    }
  }

  /** The test of the forward loop, on a diagonal the reverse search has visited. */
  lemma ForwardFound(s: Match, n: nat, m: nat, d: int, k: int, cells: seq<int>, x: int, y: int, u: int, v: int)
    requires Bounded(s, n, m)
    requires InForward(s, n, m, d, k, cells) && InRound(k, d)
    requires Stepped(s, k, d, x, y, u, v)
    requires InRound(n - m - k, d - 1) && V(cells, k, 1) <= u
    requires 2 * d - 1 <= Dist(s, n, m)
    ensures Dist(s, n, m) == 2 * d - 1 && MiddleSnake(s, n, m, x, y, u, v)
  {
    hide Dist, MiddleSnake, Stepped, SteppedBack, Furthest;
    assert Backward(cells, n, m)(n - m - k) == n - V(cells, k, 1);
    ForwardMeets(s, n, m, k, d, x, y, u, v, V(cells, k, 1));
  }

  /** The test of the reverse loop, on a diagonal the forward search has visited. */
  lemma ReverseFound(s: Match, n: nat, m: nat, d: int, k: int, cells: seq<int>, x: int, y: int, u: int, v: int)
    requires Bounded(s, n, m) && 0 <= d
    requires InReverse(s, n, m, d, k, cells) && InRound(n - m + k, d)
    requires SteppedBack(s, n, m, n - m + k, d, x, y, u, v)
    requires x <= V(cells, n - m + k, 0)
    requires 2 * d <= Dist(s, n, m)
    ensures Dist(s, n, m) == 2 * d && MiddleSnake(s, n, m, x, y, u, v)
  {
    hide Dist, MiddleSnake, Stepped, SteppedBack, Furthest;
    var kr := n - m + k;
    assert Forward(cells)(kr) == V(cells, kr, 0);
    ReverseMeets(s, n, m, kr, d, x, y, u, v, V(cells, kr, 0));
  }

  lemma SnakeInGrid(s: Match, n: nat, m: nat, x: int, y: int, u: int, v: int)
    requires MiddleSnake(s, n, m, x, y, u, v)
    ensures 0 <= x <= u <= n && 0 <= y <= v <= m
  {
  }

  /** The seeds of the search, whatever the buffer held before. */
  lemma Seeded(s: Match, n: nat, m: nat, cells: seq<int>)
    requires Pack(1, 0) < |cells| && Pack(n - m - 1, 1) < |cells|
    ensures InForward(s, n, m, 0, 0, cells[Pack(1, 0) := 0][Pack(n - m - 1, 1) := n])
  {
    hide Dist, Furthest;
    VUpdate(cells, 1, 0, 0);
    VUpdate(cells[Pack(1, 0) := 0], n - m - 1, 1, n);
  }

  /** The guards of the two meeting tests pick out the diagonals the other search has visited. */
  lemma MeetingTests(n: int, m: int, d: int, k: int)
    requires InRound(k, d)
    ensures (n - m) % 2 == 1 && n - m - (d - 1) <= k <= n - m + (d - 1) <==> InRound(n - m - k, d - 1)
    ensures (n - m) % 2 == 0 && -d <= n - m + k <= d <==> InRound(n - m + k, d)
  {
  }

  /** Both values of the diagonal have a place in the buffer. */
  ghost predicate HasPlace(k: int) {
    0 <= Pack(k, 0) < CAPACITY && 0 <= Pack(k, 1) < CAPACITY
  }

  lemma DiagonalFits(n: int, m: int, d: int, k: int)
    requires RoundFits(n, m, d) && -d <= k <= d
    ensures HasPlace(k - 1) && HasPlace(k) && HasPlace(k + 1)
    ensures HasPlace(n - m + k - 1) && HasPlace(n - m + k) && HasPlace(n - m + k + 1)
  {
    var most := Abs(n - m) + d + 1;
    assert -most <= k - 1 && k + 1 <= most;
    assert -most <= n - m + k - 1 && n - m + k + 1 <= most;
  }

  /** The search gets no further than the rounds that fit. */
  lemma RoundsFit(s: Match, n: nat, m: nat, cap: int, d: nat)
    requires Fits(n, m, Dist(s, n, m), cap)
    requires 2 * d - 1 <= Dist(s, n, m) && (d == 0 || 2 * d - 1 < cap)
    ensures RoundFits(n, m, d)
  {
    DistParityBounds(s, n, m);
  }

  /** A smaller problem at a smaller distance fits if the distance does not reach the cap. */
  lemma SmallerFits(n: nat, m: nat, dist: nat, cap: int, n': nat, m': nat, dist': nat)
    requires Fits(n, m, dist, cap) && dist < cap && n' <= n && m' <= m && dist' <= dist
    ensures Fits(n', m', dist', cap)
  {
  }

  /** The script of a problem that fits has room in its array. */
  lemma RoomSuffices(s: Match, n: nat, m: nat, cap: int)
    requires 0 < n && 0 < m ==> Fits(n, m, Dist(s, n, m), cap) && Dist(s, n, m) < cap
    ensures 1 + Room(n, m, Dist(s, n, m)) < CAPACITY
  {
    DistParityBounds(s, n, m);
  }

  /** A forward loop without a meeting pushes the distance past 2d - 1. */
  lemma ForwardDone(s: Match, n: nat, m: nat, d: int, cells: seq<int>)
    requires 0 <= d && InForward(s, n, m, d, -d - 2, cells)
    requires 2 * d - 1 <= Dist(s, n, m)
    ensures InReverse(s, n, m, d, d, cells) && 2 * d <= Dist(s, n, m)
  {
    hide Dist, RoundDone, MeetOn;
    ForwardAllDone(s, n, m, d, cells);
    if d > 0 { NoMeetingNotThere(s, n, m, d, d - 1, Forward(cells), Backward(cells, n, m)); }
  }

  lemma ForwardAllDone(s: Match, n: nat, m: nat, d: int, cells: seq<int>)
    requires 0 <= d && InForward(s, n, m, d, -d - 2, cells)
    ensures RoundDone(s, d, Forward(cells))
    ensures forall k: int :: InRound(k, d) && InRound(n - m - k, d - 1) ==>
              !MeetOn(n, m, k, Forward(cells), Backward(cells, n, m))
  {
    hide Dist, Furthest;
    forall k: int | InRound(k, d) && InRound(n - m - k, d - 1)
      ensures !MeetOn(n, m, k, Forward(cells), Backward(cells, n, m))
    {
      assert Backward(cells, n, m)(n - m - k) == n - V(cells, k, 1);
    }
  }

  /** A reverse loop without a meeting pushes the distance past 2d. */
  lemma ReverseDone(s: Match, n: nat, m: nat, d: int, cells: seq<int>)
    requires 0 <= d && InReverse(s, n, m, d, -d - 2, cells)
    requires 2 * d <= Dist(s, n, m)
    ensures InForward(s, n, m, d + 1, d + 1, cells) && 2 * d + 1 <= Dist(s, n, m)
  {
    hide Dist, Furthest;
    var f, g := Forward(cells), Backward(cells, n, m);
    assert forall j: int :: f(j) == V(cells, j, 0) && g(n - m - j) == n - V(cells, j, 1);
    forall k: int | InRound(k, d) && InRound(n - m - k, d) ensures !MeetOn(n, m, k, f, g) {
      assert InRound(n - m - k, d) && n - m - (n - m - k) == k;
    }
    NoMeetingNotThere(s, n, m, d, d, f, g);
  }

  class Context<T> {
    const same: (T, T) -> bool
    const buf: VArray<int>
    const ses: VArray?<Edit>
    const dmax: int
    var si: nat

    constructor (same: (T, T) -> bool, buf: VArray<int>, ses: VArray?<Edit>, dmax: int)
      ensures this.same == same && this.buf == buf && this.ses == ses && this.dmax == dmax && si == 0
    {
      this.same, this.buf, this.ses, this.dmax, si := same, buf, ses, dmax, 0;
    }

    ghost predicate BufReady()
      reads buf, buf.Repr
    {
      buf.Valid() && this !in buf.Repr
    }

    method SetV(k: int, r: int, val: int)
      requires BufReady() && 0 <= r <= 1 && HasPlace(k)
      modifies buf.Repr
      ensures BufReady() && fresh(buf.Repr - old(buf.Repr))
      ensures buf.cells == old(buf.cells)[Pack(k, r) := val]
    {
      var j := if k <= 0 then -k * 4 + r else k * 4 + (r - 2);
      buf.Put(j, val);
    }

    method GetV(k: int, r: int) returns (val: int)
      requires BufReady() && 0 <= r <= 1 && HasPlace(k)
      modifies buf.Repr
      ensures BufReady() && fresh(buf.Repr - old(buf.Repr))
      ensures buf.cells == old(buf.cells) && val == V(buf.cells, k, r)
    {
      var j := if k <= 0 then -k * 4 + r else k * 4 + (r - 2);
      val := buf.Get(j);
    }

    /** Where the forward search enters diagonal k in round d. */
    method ForwardStart(k: int, d: int) returns (x: int)
      requires BufReady()
      requires HasPlace(k - 1) && HasPlace(k + 1)
      modifies buf.Repr
      ensures BufReady() && fresh(buf.Repr - old(buf.Repr)) && buf.cells == old(buf.cells)
      ensures x == Start(k, d, V(buf.cells, k - 1, 0), V(buf.cells, k + 1, 0))
    {
      var fromAbove := k == -d;
      if k != -d && k != d {
        var below := GetV(k - 1, 0);
        var above := GetV(k + 1, 0);
        fromAbove := below < above;
      }
      if fromAbove {
        x := GetV(k + 1, 0);
      } else {
        x := GetV(k - 1, 0);
        x := x + 1;
      }
    }

    /** Where the reverse search enters diagonal k in round d; it set out from (n, m). */
    method ReverseStart(k: int, d: int, n: int, m: int) returns (x: int)
      requires BufReady()
      requires HasPlace(k - 1) && HasPlace(k + 1)
      modifies buf.Repr
      ensures BufReady() && fresh(buf.Repr - old(buf.Repr)) && buf.cells == old(buf.cells)
      ensures n - x == Start(n - m - k, d, n - V(buf.cells, k + 1, 1), n - V(buf.cells, k - 1, 1))
    {
      var fromBelow := k == (n - m) + d;
      if k != (n - m) + d && k != (n - m) - d {
        var below := GetV(k - 1, 1);
        var above := GetV(k + 1, 1);
        fromBelow := below < above;
      }
      if fromBelow {
        x := GetV(k - 1, 1);
      } else {
        x := GetV(k + 1, 1);
        x := x - 1;
      }
    }

    /** Follows matches down diagonal x - y as far as they go. */
    method FollowDown(a: seq<T>, aoff: nat, n: nat, b: seq<T>, boff: nat, m: nat, x: int, y: int)
      returns (u: int, v: int)
      requires aoff + n <= |a| && boff + m <= |b| && 0 <= x && 0 <= y
      ensures v == u - (x - y)
      ensures Snake(Problem(a, aoff, n, b, boff, m, same), x - y, x, u)
      ensures !Matched(Problem(a, aoff, n, b, boff, m, same), x - y, u)
    {
      u, v := x, y;
      while u < n && v < m && same(a[aoff + u], b[boff + v])
        invariant x <= u && v == u - (x - y)
        invariant Snake(Problem(a, aoff, n, b, boff, m, same), x - y, x, u)
      {
        assert Matched(Problem(a, aoff, n, b, boff, m, same), x - y, u);
        u, v := u + 1, v + 1;
      }
    }

    /** Follows matches up diagonal u - v as far as they go. */
    method FollowUp(a: seq<T>, aoff: nat, n: nat, b: seq<T>, boff: nat, m: nat, u: int, v: int) returns (x: int, y: int)
      requires aoff + n <= |a| && boff + m <= |b| && u <= n && v <= m
      ensures y == x - (u - v)
      ensures Snake(Reverse(Problem(a, aoff, n, b, boff, m, same), n, m), n - m - (u - v), n - u, n - x)
      ensures !Matched(Reverse(Problem(a, aoff, n, b, boff, m, same), n, m), n - m - (u - v), n - x)
    {
      ghost var r, rk := Reverse(Problem(a, aoff, n, b, boff, m, same), n, m), n - m - (u - v);
      x, y := u, v;
      while x > 0 && y > 0 && same(a[aoff + (x - 1)], b[boff + (y - 1)])
        invariant x <= u && y == x - (u - v)
        invariant Snake(r, rk, n - u, n - x)
      {
        assert Matched(r, rk, n - x);
        x, y := x - 1, y - 1;
      }
    }

    /** One step of the forward search, on diagonal k in round d: from (x, y) the snake runs to (u, v). */
    method ForwardStep(a: seq<T>, aoff: nat, n: nat, b: seq<T>, boff: nat, m: nat, k: int, d: int)
      returns (x: int, y: int, u: int, v: int)
      requires aoff + n <= |a| && boff + m <= |b| && BufReady()
      requires HasPlace(k - 1) && HasPlace(k) && HasPlace(k + 1)
      requires NeighboursReady(Problem(a, aoff, n, b, boff, m, same), k, d, V(buf.cells, k - 1, 0),
               V(buf.cells, k + 1, 0))
      modifies buf.Repr
      ensures BufReady() && fresh(buf.Repr - old(buf.Repr))
      ensures buf.cells == old(buf.cells)[Pack(k, 0) := u]
      ensures Stepped(Problem(a, aoff, n, b, boff, m, same), k, d, x, y, u, v)
    {
      hide Dist, VArray.Valid;
      ghost var s, below, above := Problem(a, aoff, n, b, boff, m, same), V(buf.cells, k - 1, 0),
          V(buf.cells, k + 1, 0);
      x := ForwardStart(k, d);
      y := x - k;
      StartReached(s, k, d, below, above);
      u, v := FollowDown(a, aoff, n, b, boff, m, x, y);
      FurthestStep(s, k, d, below, above, u);
      SetV(k, 0, u);
    }

    /** One step of the reverse search, on diagonal k in round d: back from (u, v) the snake runs to (x, y). */
    method ReverseStep(a: seq<T>, aoff: nat, n: nat, b: seq<T>, boff: nat, m: nat, k: int, d: int)
      returns (x: int, y: int, u: int, v: int)
      requires aoff + n <= |a| && boff + m <= |b| && BufReady()
      requires HasPlace(k - 1) && HasPlace(k) && HasPlace(k + 1)
      requires NeighboursReady(Reverse(Problem(a, aoff, n, b, boff, m, same), n, m), n - m - k, d,
                               n - V(buf.cells, k + 1, 1), n - V(buf.cells, k - 1, 1))
      modifies buf.Repr
      ensures BufReady() && fresh(buf.Repr - old(buf.Repr))
      ensures buf.cells == old(buf.cells)[Pack(k, 1) := x]
      ensures SteppedBack(Problem(a, aoff, n, b, boff, m, same), n, m, k, d, x, y, u, v)
    {
      hide Dist, VArray.Valid;
      ghost var s := Problem(a, aoff, n, b, boff, m, same);
      ghost var r, rk := Reverse(s, n, m), n - m - k;
      ghost var below, above := n - V(buf.cells, k + 1, 1), n - V(buf.cells, k - 1, 1);
      u := ReverseStart(k, d, n, m);
      v := u - k;
      StartReached(r, rk, d, below, above);
      x, y := FollowUp(a, aoff, n, b, boff, m, u, v);
      FurthestStep(r, rk, d, below, above, n - x);
      SetV(k, 1, x);
    }

    /** The forward loop body: the step on diagonal k, then the test whether the searches meet there. */
    method ForwardVisit(a: seq<T>, aoff: nat, n: nat, b: seq<T>, boff: nat, m: nat, k: int, d: int)
      returns (met: bool, x: int, y: int, u: int, v: int)
      requires aoff + n <= |a| && boff + m <= |b| && RoundFits(n, m, d)
      requires BufReady() && InRound(k, d)
      requires InForward(Problem(a, aoff, n, b, boff, m, same), n, m, d, k, buf.cells)
      requires 2 * d - 1 <= Dist(Problem(a, aoff, n, b, boff, m, same), n, m)
      modifies buf.Repr
      ensures BufReady() && fresh(buf.Repr - old(buf.Repr))
      ensures met ==> Dist(Problem(a, aoff, n, b, boff, m, same), n, m) == 2 * d - 1
      ensures met ==> MiddleSnake(Problem(a, aoff, n, b, boff, m, same), n, m, x, y, u, v)
      ensures !met ==> InForward(Problem(a, aoff, n, b, boff, m, same), n, m, d, k - 2, buf.cells)
    {
      hide Dist, MiddleSnake, InForward, Stepped, VArray.Valid;
      ghost var s, was := Problem(a, aoff, n, b, boff, m, same), buf.cells;
      DiagonalFits(n, m, d, k);
      MeetingTests(n, m, d, k);
      ForwardNeighbours(s, n, m, d, k, was);
      x, y, u, v := ForwardStep(a, aoff, n, b, boff, m, k, d);
      VUpdate(was, k, 0, u);
      var delta := n - m;
      if delta % 2 == 1 && delta - (d - 1) <= k <= delta + (d - 1) {
        var rv := GetV(k, 1);
        if u >= rv {
          ForwardFound(s, n, m, d, k, was, x, y, u, v);
          return true, x, y, u, v;
        }
      }
      ForwardKeeps(s, n, m, d, k, was, x, y, u, v);
      met := false;
    }

    /** The reverse loop body; its diagonals are counted from n - m. */
    method ReverseVisit(a: seq<T>, aoff: nat, n: nat, b: seq<T>, boff: nat, m: nat, k: int, d: int)
      returns (met: bool, x: int, y: int, u: int, v: int)
      requires aoff + n <= |a| && boff + m <= |b| && RoundFits(n, m, d)
      requires BufReady() && InRound(k, d)
      requires InReverse(Problem(a, aoff, n, b, boff, m, same), n, m, d, k, buf.cells)
      requires 2 * d <= Dist(Problem(a, aoff, n, b, boff, m, same), n, m)
      modifies buf.Repr
      ensures BufReady() && fresh(buf.Repr - old(buf.Repr))
      ensures met ==> Dist(Problem(a, aoff, n, b, boff, m, same), n, m) == 2 * d
      ensures met ==> MiddleSnake(Problem(a, aoff, n, b, boff, m, same), n, m, x, y, u, v)
      ensures !met ==> InReverse(Problem(a, aoff, n, b, boff, m, same), n, m, d, k - 2, buf.cells)
    {
      hide Dist, MiddleSnake, InReverse, SteppedBack, VArray.Valid;
      ghost var s, was := Problem(a, aoff, n, b, boff, m, same), buf.cells;
      DiagonalFits(n, m, d, k);
      MeetingTests(n, m, d, k);
      ReverseNeighbours(s, n, m, d, k, was);
      var kr := (n - m) + k;
      x, y, u, v := ReverseStep(a, aoff, n, b, boff, m, kr, d);
      VUpdate(was, kr, 1, x);
      if (n - m) % 2 == 0 && -d <= kr <= d {
        var fv := GetV(kr, 0);
        if x <= fv {
          ReverseFound(s, n, m, d, k, was, x, y, u, v);
          return true, x, y, u, v;
        }
      }
      ReverseKeeps(s, n, m, d, k, was, x, y, u, v);
      met := false;
    }

    /** The forward loop of round d: either every diagonal is done, or the searches meet. */
    method ForwardRound(a: seq<T>, aoff: nat, n: nat, b: seq<T>, boff: nat, m: nat, d: int)
      returns (met: bool, x: int, y: int, u: int, v: int)
      requires aoff + n <= |a| && boff + m <= |b| && RoundFits(n, m, d)
      requires BufReady()
      requires InForward(Problem(a, aoff, n, b, boff, m, same), n, m, d, d, buf.cells)
      requires 2 * d - 1 <= Dist(Problem(a, aoff, n, b, boff, m, same), n, m)
      modifies buf.Repr
      ensures BufReady() && fresh(buf.Repr - old(buf.Repr))
      ensures met ==> Dist(Problem(a, aoff, n, b, boff, m, same), n, m) == 2 * d - 1
      ensures met ==> MiddleSnake(Problem(a, aoff, n, b, boff, m, same), n, m, x, y, u, v)
      ensures !met ==> InForward(Problem(a, aoff, n, b, boff, m, same), n, m, d, -d - 2, buf.cells)
    {
      hide Dist, VArray.Valid;
      met, x, y, u, v := false, 0, 0, 0, 0;
      var k := d;
      while k >= -d
        invariant -d - 2 <= k <= d && (d - k) % 2 == 0
        invariant BufReady() && fresh(buf.Repr - old(buf.Repr))
        invariant InForward(Problem(a, aoff, n, b, boff, m, same), n, m, d, k, buf.cells)
      {
        met, x, y, u, v := ForwardVisit(a, aoff, n, b, boff, m, k, d);
        if met {
          return;
        }
        k := k - 2;
      }
    }

    /** The reverse loop of round d. */
    method ReverseRound(a: seq<T>, aoff: nat, n: nat, b: seq<T>, boff: nat, m: nat, d: int)
      returns (met: bool, x: int, y: int, u: int, v: int)
      requires aoff + n <= |a| && boff + m <= |b| && RoundFits(n, m, d)
      requires BufReady()
      requires InReverse(Problem(a, aoff, n, b, boff, m, same), n, m, d, d, buf.cells)
      requires 2 * d <= Dist(Problem(a, aoff, n, b, boff, m, same), n, m)
      modifies buf.Repr
      ensures BufReady() && fresh(buf.Repr - old(buf.Repr))
      ensures met ==> Dist(Problem(a, aoff, n, b, boff, m, same), n, m) == 2 * d
      ensures met ==> MiddleSnake(Problem(a, aoff, n, b, boff, m, same), n, m, x, y, u, v)
      ensures !met ==> InReverse(Problem(a, aoff, n, b, boff, m, same), n, m, d, -d - 2, buf.cells)
    {
      hide Dist, VArray.Valid;
      met, x, y, u, v := false, 0, 0, 0, 0;
      var k := d;
      while k >= -d
        invariant -d - 2 <= k <= d && (d - k) % 2 == 0
        invariant BufReady() && fresh(buf.Repr - old(buf.Repr))
        invariant InReverse(Problem(a, aoff, n, b, boff, m, same), n, m, d, k, buf.cells)
      {
        met, x, y, u, v := ReverseVisit(a, aoff, n, b, boff, m, k, d);
        if met {
          return;
        }
        k := k - 2;
      }
    }

    /** Sets the two values that the first round starts from. */
    method Seed(n: nat, m: nat, ghost s: Match)
      requires BufReady() && RoundFits(n, m, 0)
      modifies buf.Repr
      ensures BufReady() && fresh(buf.Repr - old(buf.Repr))
      ensures InForward(s, n, m, 0, 0, buf.cells)
    {
      hide Dist, VArray.Valid, InForward;
      DiagonalFits(n, m, 0, 0);
      SetV(1, 0, 0);
      SetV(n - m - 1, 1, n);
      Seeded(s, n, m, old(buf.cells));
    }

    /** Finds the middle snake of the problem and its distance, both searches sharing one buffer. */
    method FindMiddleSnake(a: seq<T>, aoff: nat, n: nat, b: seq<T>, boff: nat, m: nat)
      returns (r: int, x: int, y: int, u: int, v: int)
      requires aoff + n <= |a| && boff + m <= |b| && 0 < n && 0 < m
      requires Fits(n, m, Dist(Problem(a, aoff, n, b, boff, m, same), n, m), dmax)
      requires BufReady()
      modifies buf.Repr
      ensures BufReady() && fresh(buf.Repr - old(buf.Repr))
      ensures r == Min(Dist(Problem(a, aoff, n, b, boff, m, same), n, m), dmax)
      ensures r < dmax ==> 0 <= x <= u <= n && 0 <= y <= v <= m
      ensures r < dmax ==> MiddleSnake(Problem(a, aoff, n, b, boff, m, same), n, m, x, y, u, v)
    {
      hide Dist, VArray.Valid, BufReady, InForward, InReverse, MiddleSnake, Fits, RoundFits, Problem;
      ghost var s := Problem(a, aoff, n, b, boff, m, same);
      x, y, u, v := 0, 0, 0, 0;
      var delta := n - m;
      var mid := (n + m) / 2 + delta % 2;
      DistParityBounds(s, n, m);
      RoundsFit(s, n, m, dmax, 0);
      Seed(n, m, s);
      var d := 0;
      while d <= mid
        invariant 0 <= d <= mid + 1
        invariant BufReady() && fresh(buf.Repr - old(buf.Repr))
        invariant 2 * d - 1 <= Dist(s, n, m)
        invariant InForward(s, n, m, d, d, buf.cells)
      {
        if 2 * d - 1 >= dmax {
          return dmax, x, y, u, v;
        }
        RoundsFit(s, n, m, dmax, d);
        var met;
        met, x, y, u, v := ForwardRound(a, aoff, n, b, boff, m, d);
        if met {
          SnakeInGrid(s, n, m, x, y, u, v);
          return 2 * d - 1, x, y, u, v;
        }
        ForwardDone(s, n, m, d, buf.cells);
        met, x, y, u, v := ReverseRound(a, aoff, n, b, boff, m, d);
        if met {
          SnakeInGrid(s, n, m, x, y, u, v);
          return 2 * d, x, y, u, v;
        }
        ReverseDone(s, n, m, d, buf.cells);
        d := d + 1;
      }
      assert false;
      r := -1;
    }

    // ----- The growing script

    ghost function SesRepr(): set<object>
      reads ses
    {
      if ses == null then {} else ses.Repr
    }

    ghost predicate SesReady()
      reads this, ses, SesRepr()
    {
      ses != null ==>
        && ses.Valid() && this !in ses.Repr && si < CAPACITY
        && (0 < si ==> ses.cells[0].op != NONE)
        && (ses.cells[0].op != NONE ==> ses.cells[si].op != NONE)
    }

    /** The edits emitted so far. */
    ghost function Script(): seq<Edit>
      requires SesReady()
      reads this, ses, SesRepr()
    {
      if ses == null || ses.cells[0].op == NONE then [] else ses.cells[..si + 1]
    }

    /** Adds an edit, or coalesces it with the last one. */
    method Emit(op: int, off: int, len: nat)
      requires SesReady() && (ses != null && len > 0 ==> si + 1 < CAPACITY) && op != NONE
      modifies `si, SesRepr()
      ensures SesReady() && fresh(SesRepr() - old(SesRepr()))
      ensures Script() == if ses == null then [] else Push(old(Script()), op, off, len)
      ensures old(si) <= si <= old(si) + if len == 0 then 0 else 1
    {
      if len == 0 || ses == null {
        return;
      }
      var e := ses.Get(si);
      if e.op != op {
        if e.op != NONE {
          si := si + 1;
        }
        ses.Put(si, Edit(op, off, len));
      } else {
        ses.Put(si, e.(len := e.len + len));
      }
    }

    ghost predicate Ready()
      reads this, buf, buf.Repr, ses, SesRepr()
    {
      BufReady() && SesReady() && buf.Repr !! SesRepr()
    }

    /** Solves a[aoff..aoff+n) against b[boff..boff+m), emitting its script. */
    method Ses(a: seq<T>, aoff: nat, n: nat, b: seq<T>, boff: nat, m: nat) returns (d: int)
      requires aoff + n <= |a| && boff + m <= |b| && Ready()
      requires Disciplined(Problem(a, aoff, n, b, boff, m, same), n, m)
      requires 0 < n && 0 < m ==> Fits(n, m, Dist(Problem(a, aoff, n, b, boff, m, same), n, m), dmax)
      requires !Capped(a, aoff, n, b, boff, m) ==>
                 si + Room(n, m, Dist(Problem(a, aoff, n, b, boff, m, same), n, m)) < CAPACITY
      modifies `si, buf.Repr, SesRepr()
      ensures Ready() && fresh(buf.Repr - old(buf.Repr)) && fresh(SesRepr() - old(SesRepr()))
      ensures si <= old(si) + Room(n, m, Dist(Problem(a, aoff, n, b, boff, m, same), n, m))
      ensures d == if Capped(a, aoff, n, b, boff, m) then dmax else Dist(Problem(a, aoff, n, b, boff, m, same), n, m)
      ensures Capped(a, aoff, n, b, boff, m) ==> Script() == old(Script())
      ensures ses != null && !Capped(a, aoff, n, b, boff, m) ==>
                Emitted(Pairs(a, b, same), old(Script()), Script(), aoff, boff, aoff + n, boff + m, d)
      decreases n + m
    {
      hide Dist, Emitted, Push, MiddleSnake, VArray.Valid;
      ghost var s := Problem(a, aoff, n, b, boff, m, same);
      ghost var was := Script();
      if n == 0 {
        Emit(INSERT, boff, m);
        EmittedInsert(Pairs(a, b, same), was, aoff, boff, boff + m);
        d := m;
        DistOnEdge(s, n, m);
      } else if m == 0 {
        Emit(DELETE, aoff, n);
        EmittedDelete(Pairs(a, b, same), was, aoff, boff, aoff + n);
        d := n;
        DistOnEdge(s, n, m);
      } else {
        var x, y, u, v;
        d, x, y, u, v := FindMiddleSnake(a, aoff, n, b, boff, m);
        if d == -1 {
          return -1;
        } else if d >= dmax {
          return dmax;
        } else if ses == null {
          return d;
        } else if d > 1 {
          SesSplit(a, aoff, n, b, boff, m, x, y, u, v);
        } else {
          SesBase(a, aoff, n, b, boff, m, x, y, u, v);
        }
      }
    }

    /** A cap reached while both sides have elements. */
    ghost predicate Capped(a: seq<T>, aoff: int, n: nat, b: seq<T>, boff: int, m: nat) {
      0 < n && 0 < m && dmax <= Dist(Problem(a, aoff, n, b, boff, m, same), n, m)
    }

    /** Solves the problems before and after the middle snake. */
    method SesSplit(a: seq<T>, aoff: nat, n: nat, b: seq<T>, boff: nat, m: nat, x: nat, y: nat, u: nat, v: nat)
      requires aoff + n <= |a| && boff + m <= |b| && Ready() && ses != null
      requires Fits(n, m, Dist(Problem(a, aoff, n, b, boff, m, same), n, m), dmax)
      requires si + 3 * Dist(Problem(a, aoff, n, b, boff, m, same), n, m) - 1 < CAPACITY
      requires x <= u <= n && y <= v <= m
      requires MiddleSnake(Problem(a, aoff, n, b, boff, m, same), n, m, x, y, u, v)
      requires 2 <= Dist(Problem(a, aoff, n, b, boff, m, same), n, m) < dmax
      modifies `si, buf.Repr, SesRepr()
      ensures Ready() && fresh(buf.Repr - old(buf.Repr)) && fresh(SesRepr() - old(SesRepr()))
      ensures si <= old(si) + 3 * Dist(Problem(a, aoff, n, b, boff, m, same), n, m) - 1
      ensures Emitted(Pairs(a, b, same), old(Script()), Script(), aoff, boff, aoff + n, boff + m,
                      Dist(Problem(a, aoff, n, b, boff, m, same), n, m))
      decreases n + m, 0
    {
      hide Dist, Emitted, Push, MiddleSnake, Disciplined, Fits, Snake, Problem, VArray.Valid;
      ghost var s, p := Problem(a, aoff, n, b, boff, m, same), Pairs(a, b, same);
      ghost var es0 := Script();
      Halves(a, aoff, n, b, boff, m, same, x, y, u, v, dmax);
      var d := Ses(a, aoff, x, b, boff, y);
      ghost var es1, d1 := Script(), d;
      Emit(MATCH, aoff + x, u - x);
      d := Ses(a, aoff + u, n - u, b, boff + v, m - v);
      EmittedAround(p, es0, es1, Script(), aoff, boff, aoff + x, boff + y, aoff + u, boff + v, aoff + n, boff + m,
          d1, d);
    }

    /** The four ways to place a single edit. */
    method SesBase(a: seq<T>, aoff: nat, n: nat, b: seq<T>, boff: nat, m: nat, x: nat, y: nat, u: nat, v: nat)
      requires aoff + n <= |a| && boff + m <= |b| && 0 < n && 0 < m && SesReady() && ses != null
      requires si + 2 < CAPACITY
      requires MiddleSnake(Problem(a, aoff, n, b, boff, m, same), n, m, x, y, u, v)
      requires Dist(Problem(a, aoff, n, b, boff, m, same), n, m) == 1
      requires Disciplined(Problem(a, aoff, n, b, boff, m, same), n, m)
      modifies `si, SesRepr()
      ensures SesReady() && fresh(SesRepr() - old(SesRepr()))
      ensures si <= old(si) + 2
      ensures Emitted(Pairs(a, b, same), old(Script()), Script(), aoff, boff, aoff + n, boff + m, 1)
    {
      hide Dist, Emitted, Push, MiddleSnake, Disciplined, VArray.Valid;
      ghost var s, p := Problem(a, aoff, n, b, boff, m, same), Pairs(a, b, same);
      ghost var es0 := Script();
      BaseCase(s, n, m, x, y, u, v);
      if m > n {
        if x == u {
          SnakeInPairs(a, aoff, n, b, boff, m, same, 0, 0, n);
          Emit(MATCH, aoff, n);
          Emit(INSERT, boff + (m - 1), 1);
          MatchThenInsert(p, es0, aoff, boff, n);
        } else {
          SnakeInPairs(a, aoff, n, b, boff, m, same, 0, 1, n);
          Emit(INSERT, boff, 1);
          Emit(MATCH, aoff, n);
          InsertThenMatch(p, es0, aoff, boff, n);
        }
      } else {
        if x == u {
          SnakeInPairs(a, aoff, n, b, boff, m, same, 0, 0, m);
          Emit(MATCH, aoff, m);
          Emit(DELETE, aoff + (n - 1), 1);
          MatchThenDelete(p, es0, aoff, boff, m);
        } else {
          SnakeInPairs(a, aoff, n, b, boff, m, same, 1, 0, n);
          Emit(DELETE, aoff, 1);
          Emit(MATCH, aoff + 1, m);
          DeleteThenMatch(p, es0, aoff, boff, m);
        }
      }
    }

    /** Eats the common prefix, so that the recursion starts from a disciplined problem, and solves the rest. */
    method Solve(a: seq<T>, aoff: nat, n: nat, b: seq<T>, boff: nat, m: nat) returns (d: int)
      requires aoff + n <= |a| && boff + m <= |b| && Ready() && si == 0
      requires SearchFits(Problem(a, aoff, n, b, boff, m, same), n, m, dmax)
      modifies `si, buf.Repr, SesRepr()
      ensures Ready() && fresh(buf.Repr - old(buf.Repr)) && fresh(SesRepr() - old(SesRepr()))
      ensures d == if Stopped(a, aoff, n, b, boff, m) then dmax else Dist(Problem(a, aoff, n, b, boff, m, same), n, m)
      ensures ses != null && Stopped(a, aoff, n, b, boff, m) ==>
                Script() == Push(old(Script()), MATCH, aoff,
                    CommonPrefix(Problem(a, aoff, n, b, boff, m, same), n, m, 0))
      ensures ses != null && !Stopped(a, aoff, n, b, boff, m) ==>
                Emitted(Pairs(a, b, same), old(Script()), Script(), aoff, boff, aoff + n, boff + m, d)
    {
      hide Dist, Disciplined, Emitted, Push, Walks, VArray.Valid, Fits, Room;
      ghost var s, es0 := Problem(a, aoff, n, b, boff, m, same), Script();
      var x, y := 0, 0;
      while x < n && y < m && same(a[aoff + x], b[boff + y])
        invariant 0 <= x == y <= Min(n, m)
        invariant Snake(s, 0, 0, x)
        invariant CommonPrefix(s, n, m, 0) == CommonPrefix(s, n, m, x)
      {
        assert Matched(s, 0, x);
        x, y := x + 1, y + 1;
      }
      Emit(MATCH, aoff, x);
      PrefixEaten(a, aoff, n, b, boff, m, same, x);
      RestFits(a, aoff, n, b, boff, m, same, x, dmax);
      d := Ses(a, aoff + x, n - x, b, boff + y, m - y);
      PrefixEmitted(a, aoff, n, b, boff, m, same, x, es0, Script(), d);
    }

    /** The cap cut the search short: elements were left on both sides, and the distance reaches it. */
    ghost predicate Stopped(a: seq<T>, aoff: int, n: nat, b: seq<T>, boff: int, m: nat) {
      CapReached(Problem(a, aoff, n, b, boff, m, same), n, m, dmax)
    }
  }

  lemma DistOnEdge(s: Match, n: nat, m: nat)
    requires n == 0 || m == 0
    ensures Dist(s, n, m) == n + m
  {
  }

  /** Both halves of a split are smaller problems that a recursive call can take. */
  lemma Halves<T>(a: seq<T>, aoff: nat, n: nat, b: seq<T>, boff: nat, m: nat, same: (T, T) -> bool, x: nat, y: nat,
                  u: nat, v: nat, cap: int)
    requires aoff + n <= |a| && boff + m <= |b| && Dist(Problem(a, aoff, n, b, boff, m, same), n, m) < cap
    requires Fits(n, m, Dist(Problem(a, aoff, n, b, boff, m, same), n, m), cap)
    requires x <= u <= n && y <= v <= m
    requires MiddleSnake(Problem(a, aoff, n, b, boff, m, same), n, m, x, y, u, v)
    requires 2 <= Dist(Problem(a, aoff, n, b, boff, m, same), n, m)
    ensures x + y < n + m && 0 < u + v && u - x == v - y
    ensures Fits(x, y, (Dist(Problem(a, aoff, n, b, boff, m, same), n, m) + 1) / 2, cap)
    ensures Fits(n - u, m - v, Dist(Problem(a, aoff, n, b, boff, m, same), n, m) / 2, cap)
    ensures var near, far := Problem(a, aoff, x, b, boff, y, same),
            Problem(a, aoff + u, n - u, b, boff + v, m - v, same);
            && Disciplined(near, x, y) && Disciplined(far, n - u, m - v)
            && Dist(near, x, y) == (Dist(Problem(a, aoff, n, b, boff, m, same), n, m) + 1) / 2
            && Dist(far, n - u, m - v) == Dist(Problem(a, aoff, n, b, boff, m, same), n, m) / 2
    ensures Snake(Pairs(a, b, same), aoff + x - (boff + y), aoff + x, aoff + u)
  {
    hide Dist, MiddleSnake, Disciplined;
    var s := Problem(a, aoff, n, b, boff, m, same);
    NearHalf(s, n, m, x, y, u, v, Problem(a, aoff, x, b, boff, y, same));
    FarHalf(s, n, m, x, y, u, v, Problem(a, aoff + u, n - u, b, boff + v, m - v, same));
    SnakeInPairs(a, aoff, n, b, boff, m, same, x, y, u);
    SmallerFits(n, m, Dist(s, n, m), cap, x, y, (Dist(s, n, m) + 1) / 2);
    SmallerFits(n, m, Dist(s, n, m), cap, n - u, m - v, Dist(s, n, m) / 2);
  }

  lemma SnakeInPairs<T>(a: seq<T>, aoff: nat, n: nat, b: seq<T>, boff: nat, m: nat, same: (T, T) -> bool, x: int,
                        y: int, u: int)
    requires Snake(Problem(a, aoff, n, b, boff, m, same), x - y, x, u)
    ensures Snake(Pairs(a, b, same), aoff + x - (boff + y), aoff + x, aoff + u)
  {
    var p, k := Pairs(a, b, same), aoff + x - (boff + y);
    forall i | aoff + x <= i < aoff + u ensures Matched(p, k, i) {
      assert Matched(Problem(a, aoff, n, b, boff, m, same), x - y, i - aoff);
    }
  }

  // ----- A single edit before or after a run of matches

  lemma MatchThenInsert(p: Match, es: seq<Edit>, x: int, y: int, len: nat)
    requires Snake(p, x - y, x, x + len)
    ensures Emitted(p, es, Push(Push(es, MATCH, x, len), INSERT, y + len, 1), x, y, x + len, y + len + 1, 1)
  {
    hide Emitted, Push;
    var es1 := Push(es, MATCH, x, len);
    EmittedMatch(p, es, x, y, x + len, y + len);
    EmittedInsert(p, es1, x + len, y + len, y + len + 1);
    EmittedThen(p, es, es1, Push(es1, INSERT, y + len, 1), x, y, x + len, y + len, x + len, y + len + 1, 0, 1);
  }

  lemma InsertThenMatch(p: Match, es: seq<Edit>, x: int, y: int, len: nat)
    requires Snake(p, x - (y + 1), x, x + len)
    ensures Emitted(p, es, Push(Push(es, INSERT, y, 1), MATCH, x, len), x, y, x + len, y + len + 1, 1)
  {
    hide Emitted, Push;
    var es1 := Push(es, INSERT, y, 1);
    EmittedInsert(p, es, x, y, y + 1);
    EmittedMatch(p, es1, x, y + 1, x + len, y + len + 1);
    EmittedThen(p, es, es1, Push(es1, MATCH, x, len), x, y, x, y + 1, x + len, y + len + 1, 1, 0);
  }

  lemma MatchThenDelete(p: Match, es: seq<Edit>, x: int, y: int, len: nat)
    requires Snake(p, x - y, x, x + len)
    ensures Emitted(p, es, Push(Push(es, MATCH, x, len), DELETE, x + len, 1), x, y, x + len + 1, y + len, 1)
  {
    hide Emitted, Push;
    var es1 := Push(es, MATCH, x, len);
    EmittedMatch(p, es, x, y, x + len, y + len);
    EmittedDelete(p, es1, x + len, y + len, x + len + 1);
    EmittedThen(p, es, es1, Push(es1, DELETE, x + len, 1), x, y, x + len, y + len, x + len + 1, y + len, 0, 1);
  }

  lemma DeleteThenMatch(p: Match, es: seq<Edit>, x: int, y: int, len: nat)
    requires Snake(p, x + 1 - y, x + 1, x + 1 + len)
    ensures Emitted(p, es, Push(Push(es, DELETE, x, 1), MATCH, x + 1, len), x, y, x + len + 1, y + len, 1)
  {
    hide Emitted, Push;
    var es1 := Push(es, DELETE, x, 1);
    EmittedDelete(p, es, x, y, x + 1);
    EmittedMatch(p, es1, x + 1, y, x + 1 + len, y + len);
    EmittedThen(p, es, es1, Push(es1, MATCH, x + 1, len), x, y, x + 1, y, x + 1 + len, y + len, 1, 0);
  }

  // ----- The entry point

  datatype Option<+T> = None | Some(value: T)

  /** The comparison in force: the caller's, or equality of elements. */
  function Comparison<T(==)>(cmp: Option<(T, T) -> bool>): (T, T) -> bool {
    match cmp
    case Some(f) => f
    case None => (x, y) => x == y
  }

  /** Length of the longest common prefix, from position i on. */
  ghost function CommonPrefix(s: Match, n: nat, m: nat, i: nat): nat
    decreases n - i
  {
    if i < n && i < m && s(i, i) then CommonPrefix(s, n, m, i + 1) else i
  }

  /** The cap cuts the search short: both sides have elements left after the common prefix, and the
      distance reaches it. */
  ghost predicate CapReached(s: Match, n: nat, m: nat, cap: int) {
    CommonPrefix(s, n, m, 0) < Min(n, m) && cap <= Dist(s, n, m)
  }

  /** es turns a[aoff..aoff+n) into b[boff..boff+m), and no other script does so at less cost. */
  ghost predicate ShortestScript<T(!new)>(a: seq<T>, aoff: nat, n: nat, b: seq<T>, boff: nat, m: nat,
                                          same: (T, T) -> bool, es: seq<Edit>)
    requires aoff + n <= |a| && boff + m <= |b|
  {
    && Walks(Pairs(a, b, same), es, aoff, boff, aoff + n, boff + m)
    && Coalesced(es)
    && (forall other :: Walks(Pairs(a, b, same), other, aoff, boff, aoff + n, boff + m) ==> Cost(es) <= Cost(other))
    && Consumed(es, a) == a[aoff..aoff + n]
    && Alike(Yielded(es, a, b), b[boff..boff + m], same)
  }

  /** Unless the common prefix uses up one side, the search that follows it fits the V buffer. */
  ghost predicate SearchFits(s: Match, n: nat, m: nat, cap: int) {
    CommonPrefix(s, n, m, 0) < Min(n, m) ==> Fits(n, m, Dist(s, n, m), cap)
  }

  lemma UncappedNeverStops(s: Match, n: nat, m: nat)
    requires SearchFits(s, n, m, INT_MAX)
    ensures !CapReached(s, n, m, INT_MAX)
  {
  }

  lemma ShortestAtDistance<T(!new)>(a: seq<T>, aoff: nat, n: nat, b: seq<T>, boff: nat, m: nat,
                                    same: (T, T) -> bool, es: seq<Edit>)
    requires aoff + n <= |a| && boff + m <= |b|
    requires Emitted(Pairs(a, b, same), [], es, aoff, boff, aoff + n, boff + m,
             Dist(Problem(a, aoff, n, b, boff, m, same), n, m))
    ensures ShortestScript(a, aoff, n, b, boff, m, same, es)
    ensures Cost(es) == Dist(Problem(a, aoff, n, b, boff, m, same), n, m)
  {
    hide Dist, Walks;
    var p := Pairs(a, b, same);
    FromNothing(p, es, aoff, boff, aoff + n, boff + m, Dist(Problem(a, aoff, n, b, boff, m, same), n, m));
    forall other | Walks(p, other, aoff, boff, aoff + n, boff + m) ensures Cost(es) <= Cost(other) {
      NoCheaperScript(p, other, aoff, boff, aoff + n, boff + m, n, m);
    }
    WalksTransforms(a, b, same, es, aoff, boff, aoff + n, boff + m);
  }

  lemma PrefixEmitted<T>(a: seq<T>, aoff: nat, n: nat, b: seq<T>, boff: nat, m: nat, same: (T, T) -> bool, x: nat,
                         es0: seq<Edit>, es: seq<Edit>, d: int)
    requires Snake(Problem(a, aoff, n, b, boff, m, same), 0, 0, x)
    ensures Emitted(Pairs(a, b, same), Push(es0, MATCH, aoff, x), es, aoff + x, boff + x, aoff + n, boff + m, d) ==>
              Emitted(Pairs(a, b, same), es0, es, aoff, boff, aoff + n, boff + m, d)
  {
    hide Emitted;
    var p := Pairs(a, b, same);
    SnakeInPairs(a, aoff, n, b, boff, m, same, 0, 0, x);
    EmittedMatch(p, es0, aoff, boff, aoff + x, boff + x);
    if Emitted(p, Push(es0, MATCH, aoff, x), es, aoff + x, boff + x, aoff + n, boff + m, d) {
      EmittedThen(p, es0, Push(es0, MATCH, aoff, x), es, aoff, boff, aoff + x, boff + x, aoff + n, boff + m, 0, d);
    }
  }

  /** Eating the common prefix keeps the distance and leaves a disciplined problem. */
  lemma PrefixEaten<T>(a: seq<T>, aoff: nat, n: nat, b: seq<T>, boff: nat, m: nat, same: (T, T) -> bool, x: nat)
    requires aoff + n <= |a| && boff + m <= |b| && x <= n && x <= m
    requires Snake(Problem(a, aoff, n, b, boff, m, same), 0, 0, x)
    requires !Problem(a, aoff, n, b, boff, m, same)(x, x)
    ensures var rest := Problem(a, aoff + x, n - x, b, boff + x, m - x, same);
            && Disciplined(rest, n - x, m - x)
            && Dist(rest, n - x, m - x) == Dist(Problem(a, aoff, n, b, boff, m, same), n, m)
  {
    hide Dist;
    var s, rest := Problem(a, aoff, n, b, boff, m, same), Problem(a, aoff + x, n - x, b, boff + x, m - x, same);
    DistReverse(s, n, m);
    DistToAlongSnake(s, n, m, 0, 0, x);
    DistWindow(s, n, m, x, x);
    DistExt(Window(s, x, x, n - x, m - x), rest, n - x, m - x);
    StrippedDisciplined(rest, n - x, m - x);
  }

  /** What is left after the common prefix fits the buffers. */
  lemma RestFits<T>(a: seq<T>, aoff: nat, n: nat, b: seq<T>, boff: nat, m: nat, same: (T, T) -> bool, x: nat, cap: int)
    requires aoff + n <= |a| && boff + m <= |b| && x <= n && x <= m
    requires SearchFits(Problem(a, aoff, n, b, boff, m, same), n, m, cap)
    requires CommonPrefix(Problem(a, aoff, n, b, boff, m, same), n, m, 0) == x
    requires var rest := Problem(a, aoff + x, n - x, b, boff + x, m - x, same);
             Dist(rest, n - x, m - x) == Dist(Problem(a, aoff, n, b, boff, m, same), n, m)
    ensures var dist := Dist(Problem(a, aoff + x, n - x, b, boff + x, m - x, same), n - x, m - x);
            && (0 < n - x && 0 < m - x ==> Fits(n - x, m - x, dist, cap))
            && ((0 < n - x && 0 < m - x && cap <= dist) || 1 + Room(n - x, m - x, dist) < CAPACITY)
  {
    hide Dist, CommonPrefix, Problem;
    var rest := Problem(a, aoff + x, n - x, b, boff + x, m - x, same);
    if !(0 < n - x && 0 < m - x && cap <= Dist(rest, n - x, m - x)) { RoomSuffices(rest, n - x, m - x, cap); }
  }

  /** What a caller gets: the distance, cut off at the cap, and in the first sn cells, if it asked
      for their number, a shortest script; a search cut short leaves only the common prefix there. */
  ghost predicate Answer<T(!new)>(a: seq<T>, aoff: nat, n: nat, b: seq<T>, boff: nat, m: nat, same: (T, T) -> bool,
                                  cap: int, wanted: bool, cells: seq<Edit>, d: int, sn: Option<nat>)
    requires aoff + n <= |a| && boff + m <= |b|
  {
    var s := Problem(a, aoff, n, b, boff, m, same);
    && d == (if CapReached(s, n, m, cap) then cap else Dist(s, n, m))
    && (sn.Some? <==> wanted && d != -1)
    && (sn.Some? ==> sn.value <= |cells|)
    && (sn.Some? && !CapReached(s, n, m, cap) ==>
          ShortestScript(a, aoff, n, b, boff, m, same, cells[..sn.value]) && Cost(cells[..sn.value]) == d)
    && (sn.Some? && CapReached(s, n, m, cap) ==>
          cells[..sn.value] == Push([], MATCH, aoff, CommonPrefix(s, n, m, 0)))
  }

  lemma {:induction false} PrefixEnds(s: Match, n: nat, m: nat, i: nat, j: nat)
    requires i <= j < n && j < m && !s(j, j)
    ensures i <= CommonPrefix(s, n, m, i) <= j
    decreases j - i
  {
    if i < j { PrefixEnds(s, n, m, i + 1, j); }
  }

  /** Where two elements at the same place differ, the distance returned never passes the cap, and the
      script has that cost if and only if the distance stays below the cap; at the cap it has none. */
  lemma CutShort<T(!new)>(a: seq<T>, aoff: nat, n: nat, b: seq<T>, boff: nat, m: nat, same: (T, T) -> bool, cap: int,
                          wanted: bool, cells: seq<Edit>, d: int, sn: Option<nat>, i: nat)
    requires aoff + n <= |a| && boff + m <= |b| && i < n && i < m && !same(a[aoff + i], b[boff + i])
    requires Answer(a, aoff, n, b, boff, m, same, cap, wanted, cells, d, sn)
    ensures d <= cap
    ensures sn.Some? ==> sn.value <= |cells| && Cost(cells[..sn.value]) == if d < cap then d else 0
  {
    hide Dist, ShortestScript, CommonPrefix;
    PrefixEnds(Problem(a, aoff, n, b, boff, m, same), n, m, 0, i);
    PushCost([], MATCH, aoff, CommonPrefix(Problem(a, aoff, n, b, boff, m, same), n, m, 0));
  }

  /** Runs the engine over the given buffer. */
  method Run<T(!new)>(a: seq<T>, aoff: nat, n: nat, b: seq<T>, boff: nat, m: nat, same: (T, T) -> bool, cap: int,
                      ses: VArray?<Edit>, count: bool, buf: VArray<int>) returns (d: int, sn: Option<nat>)
    requires aoff + n <= |a| && boff + m <= |b| && SearchFits(Problem(a, aoff, n, b, boff, m, same), n, m, cap)
    requires buf.Valid()
    requires ses != null ==> ses.Valid() && ses.Repr !! buf.Repr
    modifies if ses == null then {} else ses.Repr, buf.Repr
    ensures buf.Valid() && fresh(buf.Repr - old(buf.Repr)) && (ses != null ==> ses.Valid())
    ensures Answer(a, aoff, n, b, boff, m, same, cap,
                   ses != null && count, if ses == null then [] else ses.cells, d, sn)
  {
    hide Dist, ShortestScript, Emitted, VArray.Valid, CommonPrefix, Problem, Pairs, Walks, Cost, Push, Fits;
    var ctx := new Context<T>(same, buf, ses, cap);
    if ses != null && count {
      var e := ses.Get(0);
      ses.Put(0, e.(op := NONE));
    }
    d := ctx.Solve(a, aoff, n, b, boff, m);
    sn := None;
    if d != -1 && ses != null && count {
      var e := ses.Get(0);
      sn := Some(if e.op != NONE then ctx.si + 1 else 0);
      if !ctx.Stopped(a, aoff, n, b, boff, m) {
        ShortestAtDistance(a, aoff, n, b, boff, m, same, ctx.Script());
      }
    }
  }

  ghost predicate Equality<T(!new)>(same: (T, T) -> bool) { forall x: T, y: T :: same(x, y) <==> x == y }

  lemma {:induction false} NoDistance(s: Match, n: nat, m: nat)
    ensures Dist(s, n, m) == 0 <==> n == m && forall i :: 0 <= i < n ==> s(i, i)
    decreases n + m
  {
    if 0 < n && 0 < m {
      NoDistance(s, n - 1, m - 1);
      var k := n - 1;
      assert n == m ==> ((forall i :: 0 <= i < n ==> s(i, i)) <==> s(k, k) && forall i :: 0 <= i < k ==> s(i, i));
    }
  }

  /** By equality of elements, only equal sequences are at no distance. */
  lemma EqualAtNoDistance<T(!new)>(a: seq<T>, aoff: nat, n: nat, b: seq<T>, boff: nat, m: nat, same: (T, T) -> bool)
    requires aoff + n <= |a| && boff + m <= |b| && Equality(same)
    ensures Dist(Problem(a, aoff, n, b, boff, m, same), n, m) == 0 <==> a[aoff..aoff + n] == b[boff..boff + m]
  {
    hide Dist;
    var s, p, q := Problem(a, aoff, n, b, boff, m, same), a[aoff..aoff + n], b[boff..boff + m];
    NoDistance(s, n, m);
    if n == m {
      assert forall i :: 0 <= i < n ==> (s(i, i) <==> p[i] == q[i]);
    }
  }

  /** By equality of elements, a shortest script reads and yields exactly the two sequences. */
  lemma ExactScript<T(!new)>(a: seq<T>, aoff: nat, n: nat, b: seq<T>, boff: nat, m: nat, same: (T, T) -> bool,
                             es: seq<Edit>)
    requires aoff + n <= |a| && boff + m <= |b| && Equality(same)
    requires ShortestScript(a, aoff, n, b, boff, m, same, es)
    ensures Consumed(es, a) == a[aoff..aoff + n] && Yielded(es, a, b) == b[boff..boff + m]
  {
    hide Walks, Consumed, Yielded, Cost;
  }

  /** The edit distance and, when wanted, a shortest edit script with its length. */
  method Diff<T(==,!new)>(a: seq<T>, aoff: nat, n: nat, b: seq<T>, boff: nat, m: nat, idx: bool,
                          cmp: Option<(T, T) -> bool>, dmax: int, ses: VArray?<Edit>, count: bool, buf: VArray?<int>)
    returns (d: int, sn: Option<nat>)
    requires aoff + n <= |a| && boff + m <= |b|
    requires idx == cmp.Some? ==>
               SearchFits(Problem(a, aoff, n, b, boff, m, Comparison(cmp)), n, m, if dmax != 0 then dmax else INT_MAX)
    requires ses != null ==> ses.Valid()
    requires buf != null ==> buf.Valid()
    requires ses != null && buf != null ==> ses.Repr !! buf.Repr
    modifies if ses == null then {} else ses.Repr, if buf == null then {} else buf.Repr
    ensures idx != cmp.Some? ==> d == -1 && sn == None
    ensures idx && cmp.Some? ==>
              Answer(a, aoff, n, b, boff, m, cmp.value, if dmax != 0 then dmax else 0x7fff_ffff,
                     ses != null && count, if ses == null then [] else ses.cells, d, sn)
    ensures idx && cmp.Some? && dmax == 0 ==> d == Dist(Problem(a, aoff, n, b, boff, m, cmp.value), n, m)
    ensures !idx && cmp.None? ==>
              exists same :: Equality(same) &&
                Answer(a, aoff, n, b, boff, m, same, if dmax != 0 then dmax else 0x7fff_ffff,
                       ses != null && count, if ses == null then [] else ses.cells, d, sn)
    ensures !idx && cmp.None? && dmax == 0 ==> (d == 0 <==> a[aoff..aoff + n] == b[boff..boff + m])
    ensures !idx && cmp.None? && dmax == 0 && sn.Some? ==>
              && sn.value <= |ses.cells|
              && Consumed(ses.cells[..sn.value], a) == a[aoff..aoff + n]
              && Yielded(ses.cells[..sn.value], a, b) == b[boff..boff + m]
  {
    hide Dist, ShortestScript, VArray.Valid, CommonPrefix, Problem, Fits;
    if idx != cmp.Some? {
      return -1, None;
    }
    var same := Comparison(cmp);
    if !idx { EqualAtNoDistance(a, aoff, n, b, boff, m, same); }
    if dmax == 0 { UncappedNeverStops(Problem(a, aoff, n, b, boff, m, same), n, m); }
    if buf != null {
      d, sn := Run(a, aoff, n, b, boff, m, same, if dmax != 0 then dmax else INT_MAX, ses, count, buf);
    } else {
      var tmp := new VArray<int>(0);
      d, sn := Run(a, aoff, n, b, boff, m, same, if dmax != 0 then dmax else INT_MAX, ses, count, tmp);
      tmp.Release(0);
    }
    if !idx && dmax == 0 && sn.Some? { ExactScript(a, aoff, n, b, boff, m, same, ses.cells[..sn.value]); }
  }

  /** A cap of -1 that is reached is returned as the distance, which a caller takes for an error: the
      distance here is 2. */
  method CapOfMinusOne() returns (d: int, sn: Option<nat>)
    ensures d == -1 && sn == None
    ensures Dist(Problem([1], 0, 1, [2], 0, 1, (x: int, y: int) => x == y), 1, 1) == 2
  {
    hide ShortestScript, VArray.Valid, BinStart, BinEnd, BinSize;
    var ses := new VArray<Edit>(Edit(NONE, 0, 0));
    var same := (x: int, y: int) => x == y;
    d, sn := Diff([1], 0, 1, [2], 0, 1, true, Some(same), -1, ses, true, null);
    DifferentPair(same);
  }

  lemma DifferentPair(same: (int, int) -> bool)
    requires !same(1, 2)
    ensures var s := Problem([1], 0, 1, [2], 0, 1, same);
            Dist(s, 1, 1) == 2 && CommonPrefix(s, 1, 1, 0) == 0 && CapReached(s, 1, 1, -1)
  {
  }
}

/** Repeated packing passes over any tree: they stop, when exactly, and what they leave marked. */
module LayoutPasses {
  import opened Basics
  import opened BoxPacking
  import opened DialogLayout

  // ----- Marks

  /** No widget is marked for repacking. */
  predicate Clear(n: Node) {
    !n.st.repack && forall k <- n.kids :: Clear(k)
  }

  predicate AllClear(kids: seq<Node>) { forall k <- kids :: Clear(k) }

  lemma {:induction false} CalcAllAt(kids: seq<Node>, i: int)
    requires 0 <= i < |kids|
    ensures CalcAll(kids)[i] == Calc(kids[i])
    decreases kids
  {
    if i > 0 { CalcAllAt(kids[1..], i - 1); }
  }

  lemma {:induction false} InitAllAt(kids: seq<Node>, i: int)
    requires 0 <= i < |kids|
    ensures InitAll(kids)[i] == Init(kids[i])
    decreases kids
  {
    if i > 0 { InitAllAt(kids[1..], i - 1); }
  }

  lemma {:induction false} MarksAnyMeaning(kids: seq<Node>)
    ensures MarksAny(kids) <==> exists k <- kids :: Marks(k)
    decreases kids
  {
    if kids != [] {
      MarksAnyMeaning(kids[1..]);
      assert kids[0] in kids && forall k <- kids[1..] :: k in kids;
      forall k <- kids ensures k == kids[0] || k in kids[1..] {
        assert kids == [kids[0]] + kids[1..];
      }
    }
  }

  lemma PlacementKeepsClear(kids: seq<Node>, fs: seq<Rect>)
    requires |fs| == |kids|
    ensures AllClear(kids) <==> AllClear(PlaceAll(kids, fs))
  {
    var r := PlaceAll(kids, fs);
    forall i | 0 <= i < |kids| ensures Clear(kids[i]) <==> Clear(r[i]) {}
    SameClear(kids, r);
  }

  lemma SameClear(kids: seq<Node>, kids': seq<Node>)
    requires |kids'| == |kids| && forall i :: 0 <= i < |kids| ==> (Clear(kids[i]) <==> Clear(kids'[i]))
    ensures AllClear(kids) <==> AllClear(kids')
  {
    forall i | 0 <= i < |kids| ensures kids[i] in kids && kids'[i] in kids' {}
    if AllClear(kids') {
      forall k <- kids ensures Clear(k) {
        var i :| 0 <= i < |kids| && kids[i] == k;
      }
    }
    if AllClear(kids) {
      forall k <- kids' ensures Clear(k) {
        var i :| 0 <= i < |kids| && kids'[i] == k;
      }
    }
  }

  /** A pass leaves a widget of the tree marked exactly if some container of the tree asked for another size. */
  lemma {:induction false} ClearIff(n: Node)
    ensures Clear(Calc(n)) <==> !Marks(n)
    ensures Calc(n).st.repack <==>
            Reached(n).st.repack && Requests(n.cfg, Cleared(Reached(n).st), Items(CalcAll(n.kids)))
    decreases n
  {
    var kids' := CalcAll(n.kids);
    forall i | 0 <= i < |n.kids| ensures Clear(kids'[i]) <==> !Marks(n.kids[i]) {
      CalcAllAt(n.kids, i);
      ClearIff(n.kids[i]);
    }
    KidsClearIff(n.kids, kids');
    var m := Reached(n);
    var fs := FramesOf(n.cfg, Cleared(m.st), Items(kids'));
    PlacementKeepsClear(kids', fs);
  }

  lemma KidsClearIff(kids: seq<Node>, kids': seq<Node>)
    requires |kids'| == |kids| && forall i :: 0 <= i < |kids| ==> (Clear(kids'[i]) <==> !Marks(kids[i]))
    ensures AllClear(kids') <==> !MarksAny(kids)
  {
    hide Clear, Marks, MarksAny;
    MarksAnyMeaning(kids);
    forall i | 0 <= i < |kids| ensures kids[i] in kids && kids'[i] in kids' {}
    if !MarksAny(kids) {
      forall k <- kids' ensures Clear(k) {
        var i :| 0 <= i < |kids| && kids'[i] == k;
      }
    }
    if AllClear(kids') {
      forall k <- kids ensures !Marks(k) {
        var i :| 0 <= i < |kids| && kids[i] == k;
      }
    }
  }

  /** A pass over a tree without marks changes nothing. */
  lemma {:induction false} ClearStays(n: Node)
    requires Clear(n)
    ensures Calc(n) == n && !Marks(n)
    decreases n
  {
    forall i | 0 <= i < |n.kids| ensures CalcAll(n.kids)[i] == n.kids[i] && !Marks(n.kids[i]) {
      CalcAllAt(n.kids, i);
      ClearStays(n.kids[i]);
    }
    assert CalcAll(n.kids) == n.kids;
    MarksAnyMeaning(n.kids);
  }

  // ----- Every tree is quiet after as many passes as it is high

  function Height(n: Node): nat
    decreases n, 1
  {
    1 + HeightAll(n.kids)
  }

  function HeightAll(kids: seq<Node>): nat
    decreases kids
  {
    if kids == [] then 0 else Max(Height(kids[0]), HeightAll(kids[1..]))
  }

  lemma {:induction false} KidsLower(kids: seq<Node>, h: nat)
    ensures HeightAll(kids) <= h <==> forall k <- kids :: Height(k) <= h
    decreases kids
  {
    if kids != [] {
      KidsLower(kids[1..], h);
      assert kids == [kids[0]] + kids[1..];
      assert kids[0] in kids && forall k <- kids[1..] :: k in kids;
      assert forall k <- kids :: k == kids[0] || k in kids[1..];
    }
  }

  lemma SameHeights(kids: seq<Node>, kids': seq<Node>)
    requires |kids'| == |kids| && forall i :: 0 <= i < |kids| ==> Height(kids'[i]) == Height(kids[i])
    ensures HeightAll(kids') == HeightAll(kids)
    decreases kids
  {
    if kids != [] { SameHeights(kids[1..], kids'[1..]); }
  }

  /** A marked container will take up a request that its children's sizes still call for. */
  predicate Answered(n: Node) {
    n.kids != [] && n.st.repack ==>
      && n.st.resize
      && WantCols(n.cfg, Items(n.kids)) == n.st.reqcols + Border(n.cfg)
      && WantRows(n.cfg, Items(n.kids)) == n.st.reqrows + Border(n.cfg)
  }

  /** What t passes achieve: subtrees up to height t are quiet, those one higher have been answered. */
  predicate After(n: Node, t: nat) {
    && (Height(n) <= t ==> Clear(n))
    && (Height(n) == t + 1 ==> Answered(n))
    && forall k <- n.kids :: After(k, t)
  }

  lemma {:induction false} AfterNone(n: Node)
    ensures After(n, 0)
    decreases n
  {
    KidsLower(n.kids, 0);
    forall k <- n.kids ensures After(k, 0) { AfterNone(k); }
  }

  /** Placing children changes neither their heights nor what passes have achieved below them. */
  lemma PlacementKeepsAfter(kids: seq<Node>, fs: seq<Rect>, t: nat)
    requires |fs| == |kids|
    ensures HeightAll(PlaceAll(kids, fs)) == HeightAll(kids)
    ensures (forall k <- kids :: After(k, t)) ==> forall k <- PlaceAll(kids, fs) :: After(k, t)
  {
    var r := PlaceAll(kids, fs);
    forall i | 0 <= i < |kids| ensures kids[i] in kids && Height(r[i]) == Height(kids[i]) {}
    SameHeights(kids, r);
  }

  lemma {:induction false} AfterPass(n: Node, t: nat)
    requires After(n, t)
    ensures After(Calc(n), t + 1) && Height(Calc(n)) == Height(n)
    decreases n
  {
    var kids' := CalcAll(n.kids);
    forall i | 0 <= i < |n.kids|
      ensures After(kids'[i], t + 1) && Height(kids'[i]) == Height(n.kids[i])
    {
      CalcAllAt(n.kids, i);
      assert n.kids[i] in n.kids;
      AfterPass(n.kids[i], t);
    }
    SameHeights(n.kids, kids');
    PlacementKeepsAfter(kids', FramesOf(n.cfg, Cleared(Reached(n).st), Items(kids')), t + 1);
    assert Height(Calc(n)) == Height(n) && forall k <- Calc(n).kids :: After(k, t + 1);
    if Height(n) <= t + 1 {
      QuietOnTime(n, t);
    } else if Height(n) == t + 2 {
      AskedIsAnswered(n);
    }
  }

  /** A tree of height t + 1 is quiet in pass t + 1. */
  lemma QuietOnTime(n: Node, t: nat)
    requires After(n, t) && Height(n) <= t + 1
    ensures !Marks(n) && Clear(Calc(n))
  {
    ClearIff(n);
    if Height(n) <= t {
      ClearStays(n);
    } else {
      KidsLower(n.kids, t);
      MarksAnyMeaning(n.kids);
      forall i | 0 <= i < |n.kids| ensures CalcAll(n.kids)[i] == n.kids[i] && !Marks(n.kids[i]) {
        CalcAllAt(n.kids, i);
        assert n.kids[i] in n.kids;
        ClearStays(n.kids[i]);
      }
      assert CalcAll(n.kids) == n.kids;
    }
  }

  /** A container that asks for another size has taken its children's sizes into account. */
  lemma AskedIsAnswered(n: Node)
    ensures Answered(Calc(n))
  {
    hide WantCols, WantRows, FramesOf, Placed;
  }

  // ----- Runs of passes

  function Passes(n: Node, t: nat): Node {
    if t == 0 then n else Calc(Passes(n, t - 1))
  }

  lemma {:induction false} AfterPasses(n: Node, t: nat)
    ensures After(Passes(n, t), t) && Height(Passes(n, t)) == Height(n)
  {
    if t == 0 {
      AfterNone(n);
    } else {
      AfterPasses(n, t - 1);
      AfterPass(Passes(n, t - 1), t - 1);
    }
  }

  /** Whatever the sizes, after as many passes as the tree is high nothing is marked any more. */
  lemma ClearByHeight(n: Node)
    ensures Clear(Passes(n, Height(n)))
  {
    AfterPasses(n, Height(n));
  }

  /** The first pass that leaves the root unmarked, looking from pass t on. */
  function FirstQuiet(n: Node, t: nat): (p: nat)
    requires t <= Height(n)
    ensures t <= p <= Height(n)
    decreases Height(n) - t
  {
    if !Passes(n, t).st.repack || t == Height(n) then t else FirstQuiet(n, t + 1)
  }

  /** Number of passes over a tree: the root is marked before the last of them, and not after it. */
  function PassCount(n: Node): nat { FirstQuiet(Init(n), 1) }

  function Pack(n: Node): Node { Passes(Init(n), PassCount(n)) }

  lemma {:induction false} InitHeight(n: Node)
    ensures Height(Init(n)) == Height(n)
    decreases n
  {
    forall i | 0 <= i < |n.kids| ensures Height(InitAll(n.kids)[i]) == Height(n.kids[i]) {
      InitAllAt(n.kids, i);
      InitHeight(n.kids[i]);
    }
    SameHeights(n.kids, InitAll(n.kids));
  }

  lemma {:induction false} FirstQuietIsFirst(n: Node, t: nat)
    requires t <= Height(n)
    ensures !Passes(n, FirstQuiet(n, t)).st.repack
    ensures forall j :: t <= j < FirstQuiet(n, t) ==> Passes(n, j).st.repack
    decreases Height(n) - t
  {
    hide Passes;
    ClearByHeight(n);
    if Passes(n, t).st.repack && t < Height(n) { FirstQuietIsFirst(n, t + 1); }
  }

  /** Packing always stops, after no more passes than the tree is high. */
  lemma StopsByHeight(n: Node)
    ensures 1 <= PassCount(n) <= Height(n)
    ensures !Pack(n).st.repack
    ensures forall j :: 1 <= j < PassCount(n) ==> Passes(Init(n), j).st.repack
  {
    hide Passes;
    InitHeight(n);
    FirstQuietIsFirst(Init(n), 1);
  }

  // ----- When exactly packing stops

  /** A widget whose request packing never changes. */
  predicate Fixed(n: Node) { n.kids == [] || !n.cfg.propagate }

  /** The children after t passes of their own. */
  function KidsPasses(kids: seq<Node>, t: nat): (r: seq<Node>)
    ensures |r| == |kids| && forall i :: 0 <= i < |kids| ==> r[i] == Passes(Init(kids[i]), t)
  {
    seq(|kids|, i requires 0 <= i < |kids| => Passes(Init(kids[i]), t))
  }

  /** What a container needs for the sizes its children show in their pass t. */
  function NeedCols(n: Node, t: nat): int { WantCols(n.cfg, Items(KidsPasses(n.kids, t))) }

  function NeedRows(n: Node, t: nat): int { WantRows(n.cfg, Items(KidsPasses(n.kids, t))) }

  /** The need in pass t is no other than the one in the pass before, or the request packing began with. */
  predicate Repeats(n: Node, t: nat)
    requires 0 < t
  {
    && NeedCols(n, t) == (if t == 1 then n.st.reqcols + Border(n.cfg) else NeedCols(n, t - 1))
    && NeedRows(n, t) == (if t == 1 then n.st.reqrows + Border(n.cfg) else NeedRows(n, t - 1))
  }

  lemma KidsPassesStep(kids: seq<Node>, t: nat)
    ensures KidsPasses(kids, 0) == InitAll(kids)
    ensures KidsPasses(kids, t + 1) == CalcAll(KidsPasses(kids, t))
  {
    forall i | 0 <= i < |kids|
      ensures KidsPasses(kids, 0)[i] == InitAll(kids)[i]
      ensures KidsPasses(kids, t + 1)[i] == CalcAll(KidsPasses(kids, t))[i]
    {
      InitAllAt(kids, i);
      CalcAllAt(KidsPasses(kids, t), i);
    }
  }

  /** The root after t passes in which its need never repeated: it has placed nothing, and asks for its last need. */
  ghost predicate Asking(n: Node, t: nat, r: Node) {
    && r.cfg == n.cfg && r.kids == KidsPasses(n.kids, t) && r.st.repack
    && (t == 0 ==> r.st == Init(n).st)
    && (0 < t ==> r.st.resize)
    && (0 < t ==> r.st.reqcols == NeedCols(n, t) - Border(n.cfg) && r.st.reqrows == NeedRows(n, t) - Border(n.cfg))
  }

  lemma AskingStep(n: Node, t: nat, r: Node)
    requires !Fixed(n) && Asking(n, t, r)
    ensures if Repeats(n, t + 1) then !Calc(r).st.repack else Asking(n, t + 1, Calc(r))
  {
    hide WantCols, WantRows, FramesOf, Placed, CalcAll, Passes;
    KidsPassesStep(n.kids, t);
    assert Reached(r).kids == KidsPasses(n.kids, t + 1);
  }

  lemma {:induction false} RootAsks(n: Node, t: nat)
    requires !Fixed(n) && forall j :: 1 <= j <= t ==> !Repeats(n, j)
    ensures Asking(n, t, Passes(Init(n), t))
  {
    hide Asking, Repeats;
    if t == 0 {
      AskingStarts(n);
    } else {
      RootAsks(n, t - 1);
      AskingStep(n, t - 1, Passes(Init(n), t - 1));
    }
  }

  lemma AskingStarts(n: Node)
    ensures Asking(n, 0, Init(n))
  {
    KidsPassesStep(n.kids, 0);
  }

  lemma FixedRests(n: Node)
    requires Fixed(n)
    ensures !Calc(n).st.repack
  {
  }

  /** Packing takes p passes or fewer if and only if the root never asks, or the need for its children's
      sizes repeats by then; the children take their passes as if they were alone. */
  lemma StopsIff(n: Node, p: nat)
    requires 1 <= p
    ensures PassCount(n) <= p <==> Fixed(n) || exists t :: 1 <= t <= p && Repeats(n, t)
  {
    hide Passes, Repeats, PassCount, Asking;
    StopsByHeight(n);
    var c := PassCount(n);
    if Fixed(n) {
      FixedStops(n);
    } else if exists t :: 1 <= t <= p && Repeats(n, t) {
      var t := FirstRepeat(n, p);
      RootAsks(n, t - 1);
      AskingStep(n, t - 1, Passes(Init(n), t - 1));
      PassesUnfold(Init(n), t);
    } else if c <= p {
      RootAsks(n, c);
      AskingMarked(n, c);
    }
  }

  lemma FixedStops(n: Node)
    requires Fixed(n)
    ensures PassCount(n) == 1
  {
    StopsByHeight(n);
    FixedRests(Init(n));
    PassesUnfold(Init(n), 1);
  }

  lemma PassesUnfold(n: Node, t: nat)
    requires 0 < t
    ensures Passes(n, t) == Calc(Passes(n, t - 1)) && Passes(n, 0) == n
  {
  }

  lemma AskingMarked(n: Node, t: nat)
    requires Asking(n, t, Passes(Init(n), t))
    ensures Passes(Init(n), t).st.repack
  {
  }

  lemma {:induction false} FirstRepeat(n: Node, p: nat) returns (t: nat)
    requires exists t :: 1 <= t <= p && Repeats(n, t)
    ensures 1 <= t <= p && Repeats(n, t) && forall j :: 1 <= j < t ==> !Repeats(n, j)
  {
    hide Repeats;
    t := 1;
    while !Repeats(n, t)
      invariant 1 <= t <= p && forall j :: 1 <= j < t ==> !Repeats(n, j)
      decreases p - t
    {
      t := t + 1;
    }
  }

  /** Packing leaves no widget marked if and only if no child's tree asks for another size in the
      root's last pass: there is no further pass to answer it. */
  lemma AllPlaced(n: Node)
    ensures Clear(Pack(n)) <==> forall k <- n.kids :: !Marks(Passes(Init(k), PassCount(n) - 1))
  {
    hide Passes, Repeats, PassCount, Asking, Clear;
    StopsByHeight(n);
    var c := PassCount(n);
    var r := Passes(Init(n), c - 1);
    PassesUnfold(Init(n), c);
    ClearIff(r);
    LastKids(n);
    assert Marks(r) <==> MarksAny(r.kids);
    MarksAnyMeaning(r.kids);
    var ks := KidsPasses(n.kids, c - 1);
    assert forall i :: 0 <= i < |n.kids| ==> n.kids[i] in n.kids && ks[i] in ks;
  }

  /** Before its last pass the root has placed nothing. */
  lemma LastKids(n: Node)
    ensures 1 <= PassCount(n) && Passes(Init(n), PassCount(n) - 1).kids == KidsPasses(n.kids, PassCount(n) - 1)
  {
    hide Passes, Repeats, PassCount;
    StopsByHeight(n);
    var c := PassCount(n);
    if Fixed(n) {
      FixedStops(n);
      KidsPassesStep(n.kids, 0);
      PassesUnfold(Init(n), 1);
    } else {
      if 1 < c { StopsIff(n, c - 1); }
      RootAsks(n, c - 1);
    }
  }
}

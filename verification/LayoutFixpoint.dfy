/** The sizes that packing settles on: what every widget shows in the first pass, what it ends up
    asking for, and what that says about the number of passes. */
module LayoutFixpoint {
  import opened Basics
  import opened BoxPacking
  import opened DialogLayout
  import opened LayoutPasses

  /** The item of a child that shows the given size. */
  function SizedItem(cfg: Config, cols: int, rows: int): Item {
    Item(cfg.attach, cfg.expand, cols + Border(cfg) + PaddingCols(cfg), rows + Border(cfg) + PaddingRows(cfg))
  }

  // ----- The size every widget ends up asking for

  function FinalCols(n: Node): int
    decreases n, 1
  {
    if Fixed(n) then n.st.reqcols else WantCols(n.cfg, FinalItems(n.kids)) - Border(n.cfg)
  }

  function FinalRows(n: Node): int
    decreases n, 1
  {
    if Fixed(n) then n.st.reqrows else WantRows(n.cfg, FinalItems(n.kids)) - Border(n.cfg)
  }

  /** The items of the children when each shows its final size. */
  function FinalItems(kids: seq<Node>): (items: seq<Item>)
    ensures |items| == |kids|
    decreases kids
  {
    if kids == [] then []
    else [SizedItem(kids[0].cfg, FinalCols(kids[0]), FinalRows(kids[0]))] + FinalItems(kids[1..])
  }

  lemma {:induction false} FinalItemsAt(kids: seq<Node>, i: int)
    requires 0 <= i < |kids|
    ensures FinalItems(kids)[i] == SizedItem(kids[i].cfg, FinalCols(kids[i]), FinalRows(kids[i]))
    decreases kids
  {
    if i > 0 { FinalItemsAt(kids[1..], i - 1); }
  }

  /** Every widget asks for its final size. */
  predicate Settled(n: Node) {
    && n.st.reqcols == FinalCols(n) && n.st.reqrows == FinalRows(n)
    && forall k <- n.kids :: Settled(k)
  }

  ghost predicate SameFinal(kids: seq<Node>, kids': seq<Node>) {
    |kids| == |kids'| && forall i :: 0 <= i < |kids| ==>
      && kids[i].cfg == kids'[i].cfg
      && FinalCols(kids[i]) == FinalCols(kids'[i]) && FinalRows(kids[i]) == FinalRows(kids'[i])
  }

  lemma FinalItemsSame(kids: seq<Node>, kids': seq<Node>)
    requires SameFinal(kids, kids')
    ensures FinalItems(kids) == FinalItems(kids')
  {
    hide FinalCols, FinalRows, FinalItems;
    forall i | 0 <= i < |kids| ensures FinalItems(kids)[i] == FinalItems(kids')[i] {
      FinalItemsAt(kids, i);
      FinalItemsAt(kids', i);
    }
  }

  lemma {:induction false} InitKeepsFinal(n: Node)
    ensures Init(n).cfg == n.cfg && FinalCols(Init(n)) == FinalCols(n) && FinalRows(Init(n)) == FinalRows(n)
    decreases n
  {
    var kids' := InitAll(n.kids);
    forall i | 0 <= i < |n.kids|
      ensures kids'[i].cfg == n.kids[i].cfg
      ensures FinalCols(kids'[i]) == FinalCols(n.kids[i]) && FinalRows(kids'[i]) == FinalRows(n.kids[i])
    {
      InitAllAt(n.kids, i);
      InitKeepsFinal(n.kids[i]);
    }
    FinalItemsSame(n.kids, kids');
  }

  /** Placing children changes neither their final sizes nor what they ask for. */
  lemma PlacementKeepsFinal(kids: seq<Node>, fs: seq<Rect>)
    requires |fs| == |kids|
    ensures SameFinal(kids, PlaceAll(kids, fs))
    ensures FinalItems(PlaceAll(kids, fs)) == FinalItems(kids)
    ensures (forall k <- kids :: Settled(k)) ==> forall k <- PlaceAll(kids, fs) :: Settled(k)
  {
    var r := PlaceAll(kids, fs);
    forall i | 0 <= i < |kids|
      ensures kids[i] in kids && FinalCols(kids[i]) == FinalCols(r[i]) && FinalRows(kids[i]) == FinalRows(r[i])
      ensures Settled(kids[i]) ==> Settled(r[i])
    {
    }
    FinalItemsSame(kids, r);
  }

  /** No pass changes the final sizes. */
  lemma {:induction false} CalcKeepsFinal(n: Node)
    ensures Calc(n).cfg == n.cfg && FinalCols(Calc(n)) == FinalCols(n) && FinalRows(Calc(n)) == FinalRows(n)
    decreases n
  {
    hide WantCols, WantRows, FramesOf, Placed;
    var kids' := CalcAll(n.kids);
    forall i | 0 <= i < |n.kids|
      ensures kids'[i].cfg == n.kids[i].cfg
      ensures FinalCols(kids'[i]) == FinalCols(n.kids[i]) && FinalRows(kids'[i]) == FinalRows(n.kids[i])
    {
      CalcAllAt(n.kids, i);
      CalcKeepsFinal(n.kids[i]);
    }
    FinalItemsSame(n.kids, kids');
    PlacementKeepsFinal(kids', FramesOf(n.cfg, Cleared(Reached(n).st), Items(kids')));
  }

  // ----- The sizes shown in the first pass

  /** What a widget asks for once it has been through the first pass. */
  function AskedCols(n: Node): int
    decreases n, 1
  {
    if Fixed(n) then n.st.reqcols else WantCols(n.cfg, FirstItems(n.kids)) - Border(n.cfg)
  }

  function AskedRows(n: Node): int
    decreases n, 1
  {
    if Fixed(n) then n.st.reqrows else WantRows(n.cfg, FirstItems(n.kids)) - Border(n.cfg)
  }

  /** What it shows then. A request of zero does not count: the widget shows the size it has, which is
      its first request if it has taken that up. */
  function FirstCols(n: Node): int
    decreases n, 2
  {
    if AskedCols(n) != 0 || n.st.reqcols == 0 then AskedCols(n) else if TakesUp(n.st) then n.st.reqcols else n.st.cols
  }

  function FirstRows(n: Node): int
    decreases n, 2
  {
    if AskedRows(n) != 0 || n.st.reqrows == 0 then AskedRows(n) else if TakesUp(n.st) then n.st.reqrows else n.st.rows
  }

  predicate TakesUp(st: State) { st.resize || st.reqcols == 0 || st.reqrows == 0 }

  /** The items of the children in the first pass. */
  function FirstItems(kids: seq<Node>): (items: seq<Item>)
    ensures |items| == |kids|
    decreases kids
  {
    if kids == [] then []
    else [SizedItem(kids[0].cfg, FirstCols(kids[0]), FirstRows(kids[0]))] + FirstItems(kids[1..])
  }

  lemma {:induction false} FirstItemsAt(kids: seq<Node>, i: int)
    requires 0 <= i < |kids|
    ensures FirstItems(kids)[i] == SizedItem(kids[i].cfg, FirstCols(kids[i]), FirstRows(kids[i]))
    decreases kids
  {
    if i > 0 { FirstItemsAt(kids[1..], i - 1); }
  }

  /** The widget's own request is out of date. */
  predicate Outdated(n: Node) { AskedCols(n) != n.st.reqcols || AskedRows(n) != n.st.reqrows }

  /** No request in the tree is out of date. */
  predicate Current(n: Node) { !Outdated(n) && forall k <- n.kids :: Current(k) }

  ghost predicate FirstState(n: Node, m: Node) {
    && m.cfg == n.cfg && m.st.reqcols == AskedCols(n) && m.st.reqrows == AskedRows(n)
    && ReqCols(m.cfg, m.st) == FirstCols(n) + Border(n.cfg) && ReqRows(m.cfg, m.st) == FirstRows(n) + Border(n.cfg)
    && (m.st.repack <==> Outdated(n)) && (m.st.repack ==> m.st.resize)
  }

  /** The first pass, of any tree. */
  lemma {:induction false} FirstPass(n: Node)
    ensures FirstState(n, Calc(Init(n)))
    ensures Marks(Init(n)) <==> !Current(n)
    ensures Items(KidsPasses(n.kids, 1)) == FirstItems(n.kids)
    ensures var m := Calc(Init(n));
            m.kids == if Outdated(n) || n.kids == [] then KidsPasses(n.kids, 1)
                      else PlaceAll(KidsPasses(n.kids, 1), FramesOf(m.cfg, m.st, FirstItems(n.kids)))
    decreases n
  {
    var ks, i1 := KidsPasses(n.kids, 1), InitAll(n.kids);
    forall i | 0 <= i < |n.kids|
      ensures FirstState(n.kids[i], ks[i]) && (Marks(i1[i]) <==> !Current(n.kids[i]))
      ensures n.kids[i] in n.kids && i1[i] in i1
    {
      InitAllAt(n.kids, i);
      PassesUnfold(Init(n.kids[i]), 1);
      FirstPass(n.kids[i]);
    }
    FirstItemsShown(n.kids, ks);
    KidsPassesStep(n.kids, 0);
    MarksAnyMeaning(i1);
    KidsCurrent(n.kids, i1);
    OwnFirstPass(n);
  }

  lemma FirstItemsShown(kids: seq<Node>, ks: seq<Node>)
    requires |ks| == |kids| && forall i :: 0 <= i < |kids| ==> FirstState(kids[i], ks[i])
    ensures Items(ks) == FirstItems(kids)
  {
    hide FirstCols, FirstRows, AskedCols, AskedRows, FirstItems, ReqCols, ReqRows;
    forall i | 0 <= i < |kids| ensures Items(ks)[i] == FirstItems(kids)[i] {
      FirstItemsAt(kids, i);
    }
  }

  lemma KidsCurrent(kids: seq<Node>, i1: seq<Node>)
    requires |i1| == |kids| && forall i :: 0 <= i < |kids| ==> (Marks(i1[i]) <==> !Current(kids[i]))
    ensures MarksAny(i1) <==> exists k <- kids :: !Current(k)
  {
    hide Marks, Current;
    MarksAnyMeaning(i1);
    forall i | 0 <= i < |kids| ensures kids[i] in kids && i1[i] in i1 {}
    if MarksAny(i1) {
      var i :| 0 <= i < |i1| && Marks(i1[i]);
      assert !Current(kids[i]);
    }
    if k :| k in kids && !Current(k) {
      var i :| 0 <= i < |kids| && kids[i] == k;
      assert Marks(i1[i]);
    }
  }

  /** The first pass over the widget itself, with its children done. */
  lemma OwnFirstPass(n: Node)
    requires CalcAll(InitAll(n.kids)) == KidsPasses(n.kids, 1)
    requires Items(KidsPasses(n.kids, 1)) == FirstItems(n.kids)
    ensures FirstState(n, Calc(Init(n)))
    ensures Marks(Init(n)) <==> MarksAny(InitAll(n.kids)) || Outdated(n)
    ensures var m := Calc(Init(n));
            m.kids == if Outdated(n) || n.kids == [] then KidsPasses(n.kids, 1)
                      else PlaceAll(KidsPasses(n.kids, 1), FramesOf(m.cfg, m.st, FirstItems(n.kids)))
  {
    hide WantCols, WantRows, FramesOf, Placed, KidsPasses, FirstItems, Calc, Marks, Packed, Requests;
    var i, ks := Init(n), KidsPasses(n.kids, 1);
    var c := Cleared(i.st);
    FirstReached(n);
    TakenUp(n.cfg, n.st);
    PackFirst(n, c, ks);
  }

  lemma FirstReached(n: Node)
    requires CalcAll(InitAll(n.kids)) == KidsPasses(n.kids, 1)
    ensures var (c, ks) := (Cleared(Init(n).st), KidsPasses(n.kids, 1));
            && Calc(Init(n)) == Packed(Node(n.cfg, c, ks))
            && (Marks(Init(n)) <==> MarksAny(InitAll(n.kids)) || Requests(n.cfg, c, Items(ks)))
  {
    hide Packed, Requests, KidsPasses, InitAll, CalcAll;
    assert Reached(Init(n)) == Node(n.cfg, Init(n).st, KidsPasses(n.kids, 1));
  }

  /** Every widget begins the first pass showing its request, even one of zero. */
  lemma TakenUp(cfg: Config, st: State)
    ensures var c := Cleared(st.(repack := true, resize := TakesUp(st)));
            && ReqCols(cfg, c) == st.reqcols + Border(cfg) && ReqRows(cfg, c) == st.reqrows + Border(cfg)
  {
  }

  lemma PackFirst(n: Node, c: State, ks: seq<Node>)
    requires c == Cleared(n.st.(repack := true, resize := TakesUp(n.st)))
    requires ReqCols(n.cfg, c) == n.st.reqcols + Border(n.cfg) && ReqRows(n.cfg, c) == n.st.reqrows + Border(n.cfg)
    requires Items(ks) == FirstItems(n.kids)
    ensures Requests(n.cfg, c, Items(ks)) <==> Outdated(n)
    ensures var m := Packed(Node(n.cfg, c, ks));
            && FirstState(n, m)
            && m.kids == if Outdated(n) || n.kids == [] then ks
               else PlaceAll(ks, FramesOf(m.cfg, m.st, FirstItems(n.kids)))
  {
    hide WantCols, WantRows, FramesOf, Placed, FirstItems;
    var m := Packed(Node(n.cfg, c, ks));
    assert m.cfg == n.cfg;
    assert m.st.reqcols == AskedCols(n) && m.st.reqrows == AskedRows(n);
    assert (m.st.repack <==> Outdated(n)) && (m.st.repack ==> m.st.resize);
    assert ReqCols(m.cfg, m.st) == FirstCols(n) + Border(n.cfg);
    assert ReqRows(m.cfg, m.st) == FirstRows(n) + Border(n.cfg);
  }

  // ----- Trees that show their final sizes from the first pass on

  /** Every widget below n shows its final size in the first pass. */
  predicate Steady(n: Node) {
    forall k <- n.kids :: Steady(k) && FirstCols(k) == FinalCols(k) && FirstRows(k) == FinalRows(k)
  }

  lemma SteadyAsks(n: Node)
    requires Steady(n)
    ensures FirstItems(n.kids) == FinalItems(n.kids)
    ensures AskedCols(n) == FinalCols(n) && AskedRows(n) == FinalRows(n)
  {
    hide FirstCols, FirstRows, FirstItems, FinalItems;
    forall i | 0 <= i < |n.kids| ensures FirstItems(n.kids)[i] == FinalItems(n.kids)[i] {
      FirstItemsAt(n.kids, i);
      FinalItemsAt(n.kids, i);
      assert n.kids[i] in n.kids;
    }
    assert FirstItems(n.kids) == FinalItems(n.kids);
  }

  /** What the widget shows is what it asks for. */
  predicate Shows(st: State) { (st.reqcols != 0 || st.cols == 0) && (st.reqrows != 0 || st.rows == 0) }

  /** Every marked container in the tree will take up a request that its children show to be right. */
  predicate Poised(n: Node) {
    && (n.st.repack && n.kids != [] ==>
          && n.st.resize && (forall k <- n.kids :: Shows(k.st))
          && WantCols(n.cfg, Items(n.kids)) == n.st.reqcols + Border(n.cfg)
          && WantRows(n.cfg, Items(n.kids)) == n.st.reqrows + Border(n.cfg))
    && forall k <- n.kids :: Poised(k)
  }

  lemma PlacementKeepsPoised(kids: seq<Node>, fs: seq<Rect>)
    requires |fs| == |kids| && forall k <- kids :: Poised(k)
    ensures forall k <- PlaceAll(kids, fs) :: Poised(k)
  {
    forall i | 0 <= i < |kids| ensures Poised(PlaceAll(kids, fs)[i]) {
      assert kids[i] in kids;
    }
  }

  /** A pass over a poised tree asks for nothing. */
  lemma {:induction false} PoisedPass(n: Node)
    requires Poised(n)
    ensures !Marks(n) && Calc(n).cfg == n.cfg
    ensures Calc(n).st == if n.st.repack then Cleared(n.st) else n.st
    ensures Settled(n) ==> Settled(Calc(n))
    decreases n
  {
    hide WantCols, WantRows, FramesOf, Placed, FinalItems, Calc, Marks, CalcAll;
    var kids' := CalcAll(n.kids);
    forall i | 0 <= i < |n.kids|
      ensures n.kids[i] in n.kids && kids'[i] in kids' && !Marks(n.kids[i]) && kids'[i].cfg == n.kids[i].cfg
      ensures kids'[i].st == if n.kids[i].st.repack then Cleared(n.kids[i].st) else n.kids[i].st
      ensures Settled(n.kids[i]) ==> Settled(kids'[i])
    {
      CalcAllAt(n.kids, i);
      PoisedPass(n.kids[i]);
    }
    if n.st.repack && n.kids != [] { ItemsStay(n.kids, kids'); }
    MarksAnyMeaning(n.kids);
    PoisedAlone(n);
    if Settled(n) { PoisedSettled(n, kids'); }
  }

  /** A pass over a container whose own request is met, its children asking for nothing. */
  lemma PoisedAlone(n: Node)
    requires !MarksAny(n.kids)
    requires n.st.repack && n.kids != [] ==>
               && n.st.resize && Items(CalcAll(n.kids)) == Items(n.kids)
               && WantCols(n.cfg, Items(n.kids)) == n.st.reqcols + Border(n.cfg)
               && WantRows(n.cfg, Items(n.kids)) == n.st.reqrows + Border(n.cfg)
    ensures !Marks(n) && Calc(n).cfg == n.cfg && Calc(n).st == if n.st.repack then Cleared(n.st) else n.st
  {
    hide WantCols, WantRows, FramesOf, Placed, CalcAll;
  }

  lemma PoisedSettled(n: Node, kids': seq<Node>)
    requires kids' == CalcAll(n.kids) && Settled(n)
    requires forall k <- kids' :: Settled(k)
    requires Calc(n).st == if n.st.repack then Cleared(n.st) else n.st
    ensures Settled(Calc(n))
  {
    hide WantCols, WantRows, FramesOf, Placed, FinalCols, FinalRows, CalcAll, Marks, MarksAny;
    PlacementKeepsFinal(kids', FramesOf(n.cfg, Cleared(Reached(n).st), Items(kids')));
    CalcKeepsFinal(n);
  }

  lemma ItemsStay(kids: seq<Node>, kids': seq<Node>)
    requires |kids'| == |kids| && forall k <- kids :: Shows(k.st)
    requires forall i :: 0 <= i < |kids| ==>
               kids'[i].cfg == kids[i].cfg && (kids'[i].st == kids[i].st || kids'[i].st == Cleared(kids[i].st))
    ensures Items(kids') == Items(kids)
  {
    forall i | 0 <= i < |kids| ensures Items(kids')[i] == Items(kids)[i] {
      assert kids[i] in kids;
    }
  }

  /** The first pass leaves a steady tree poised, with every request final. */
  lemma {:induction false} SteadyPoised(n: Node)
    requires Steady(n)
    ensures Poised(Calc(Init(n))) && Settled(Calc(Init(n)))
    decreases n
  {
    var m, ks := Calc(Init(n)), KidsPasses(n.kids, 1);
    FirstPass(n);
    SteadyAsks(n);
    InitKeepsFinal(n);
    CalcKeepsFinal(Init(n));
    forall i | 0 <= i < |n.kids| ensures Poised(ks[i]) && Settled(ks[i]) && Shows(ks[i].st) {
      assert n.kids[i] in n.kids;
      PassesUnfold(Init(n.kids[i]), 1);
      SteadyPoised(n.kids[i]);
      SteadyShows(n.kids[i]);
    }
    var fs := FramesOf(m.cfg, m.st, FirstItems(n.kids));
    PlacementKeepsPoised(ks, fs);
    PlacementKeepsFinal(ks, fs);
    hide Steady, KidsPasses, Calc, FramesOf, Placed, PlaceAll, WantCols, WantRows, FirstItems, FinalItems;
    assert Settled(m);
  }

  lemma SteadyShows(k: Node)
    requires Steady(k) && FirstCols(k) == FinalCols(k) && FirstRows(k) == FinalRows(k)
    ensures Shows(Calc(Init(k)).st)
  {
    FirstPass(k);
    SteadyAsks(k);
    hide Calc, Init, Steady, FirstCols, FirstRows, FinalCols, FinalRows, AskedCols, AskedRows;
  }

  /** Below a root of any kind, steady children show their final sizes in their second pass at the latest. */
  lemma SecondItems(kids: seq<Node>)
    requires forall k <- kids :: Steady(k)
    ensures Items(KidsPasses(kids, 2)) == FinalItems(kids)
    ensures forall k <- kids :: !Marks(Passes(Init(k), 1))
  {
    forall k <- kids
      ensures !Marks(Passes(Init(k), 1))
    {
      SecondPass(k);
    }
    forall i | 0 <= i < |kids| ensures Items(KidsPasses(kids, 2))[i] == FinalItems(kids)[i] {
      assert kids[i] in kids;
      SecondPass(kids[i]);
      FinalItemsAt(kids, i);
    }
  }

  lemma SecondPass(k: Node)
    requires Steady(k)
    ensures !Marks(Passes(Init(k), 1))
    ensures var r := Passes(Init(k), 2);
            ItemOf(r.cfg, r.st) == SizedItem(k.cfg, FinalCols(k), FinalRows(k))
  {
    hide Calc, Init, Passes, Steady, Poised, Settled, FinalCols, FinalRows, AskedCols, AskedRows, Outdated, Marks;
    var m := Calc(Init(k));
    PassesUnfold(Init(k), 1);
    PassesUnfold(Init(k), 2);
    FirstPass(k);
    SteadyAsks(k);
    SteadyPoised(k);
    PoisedPass(m);
    FirstUnlessOutdated(k);
  }

  lemma FirstUnlessOutdated(k: Node)
    ensures !Outdated(k) ==> FirstCols(k) == AskedCols(k) && FirstRows(k) == AskedRows(k)
  {
  }

  /** Over steady children, two passes suffice if and only if what the root asks for in the first is what
      it asked for already, or its final request. */
  lemma TwoPassesIff(n: Node)
    requires forall k <- n.kids :: Steady(k)
    ensures PassCount(n) <= 2 <==>
            !Outdated(n) || (AskedCols(n) == FinalCols(n) && AskedRows(n) == FinalRows(n))
  {
    hide PassCount, Steady, KidsPasses, FirstItems, FinalItems, WantCols, WantRows, Passes;
    StopsIff(n, 2);
    if !Fixed(n) {
      FirstPass(n);
      SecondItems(n.kids);
      assert Repeats(n, 1) <==> !Outdated(n);
      assert Repeats(n, 2) <==> AskedCols(n) == FinalCols(n) && AskedRows(n) == FinalRows(n);
      if PassCount(n) <= 2 {
        var t :| 1 <= t <= 2 && Repeats(n, t);
        assert t == 1 || t == 2;
      }
    }
  }

  /** A steady tree is packed in at most two passes, with every widget asking for its final size. */
  lemma TwoPasses(n: Node)
    requires Steady(n)
    ensures PassCount(n) <= 2 && Settled(Pack(n))
    ensures PassCount(n) == if Outdated(n) then 2 else 1
  {
    hide Passes, PassCount, Calc, Init, Poised, Settled, Outdated, AskedCols, AskedRows, FinalCols, FinalRows;
    SteadyAsks(n);
    TwoPassesIff(n);
    SteadyPoised(n);
    OnePassIff(n);
    PoisedPass(Calc(Init(n)));
    PassesUnfold(Init(n), 1);
    PassesUnfold(Init(n), 2);
  }

  /** Over steady children, packing leaves no widget marked exactly when every request was up to date
      before, or the root's own request was not: only then is there a second pass to reach the
      containers below. */
  lemma AllPlacedIff(n: Node)
    requires forall k <- n.kids :: Steady(k)
    ensures Clear(Pack(n)) <==> Current(n) || Outdated(n)
  {
    hide Steady, Clear, Pack, PassCount, Passes, Marks, AskedCols, AskedRows, Init;
    AllPlaced(n);
    OnePassIff(n);
    var c := PassCount(n);
    if Outdated(n) {
      forall k <- n.kids ensures !Marks(Passes(Init(k), c - 1)) { LaterPassQuiet(k, c - 1); }
    } else {
      forall k <- n.kids ensures Marks(Passes(Init(k), 0)) <==> !Current(k) {
        FirstPass(k);
        PassesUnfold(Init(k), 1);
      }
    }
  }

  /** One pass is enough exactly when the root's request is up to date. */
  lemma OnePassIff(n: Node)
    ensures PassCount(n) == 1 <==> !Outdated(n)
    ensures 1 <= PassCount(n)
  {
    hide PassCount, Passes, Calc, Init, Outdated;
    StopsByHeight(n);
    FirstPass(n);
    PassesUnfold(Init(n), 1);
  }

  lemma {:induction false} LaterPassQuiet(k: Node, t: nat)
    requires Steady(k) && 1 <= t
    ensures !Marks(Passes(Init(k), t))
  {
    PassesUnfold(Init(k), t);
    if t == 1 {
      SecondPass(k);
    } else {
      LaterPassQuiet(k, t - 1);
      ClearIff(Passes(Init(k), t - 1));
      ClearStays(Passes(Init(k), t));
    }
  }

  // ----- Which trees are steady

  /** Containers that propagate start without a request, as in a new dialog. */
  predicate Unasked(n: Node) {
    (Fixed(n) || (n.st.reqcols == 0 && n.st.reqrows == 0)) && forall k <- n.kids :: Unasked(k)
  }

  /** A new dialog is steady whatever its widgets ask for, zero included. */
  lemma {:induction false} UnaskedIsSteady(n: Node)
    requires Unasked(n)
    ensures Steady(n)
    decreases n
  {
    forall k <- n.kids ensures Steady(k) && FirstCols(k) == FinalCols(k) && FirstRows(k) == FinalRows(k) {
      UnaskedIsSteady(k);
      SteadyAsks(k);
    }
  }

  /** Sizes and padding are not negative, fixed widgets ask for something, and tabs have no border. */
  predicate Plain(n: Node) {
    && 0 <= n.cfg.border && 0 <= n.cfg.padx && 0 <= n.cfg.pady && 0 <= n.cfg.ipadx && 0 <= n.cfg.ipady
    && (if Fixed(n) then 0 < n.st.reqcols && 0 < n.st.reqrows else n.cfg.tab ==> n.cfg.border == 0)
    && forall k <- n.kids :: Plain(k)
  }

  lemma {:induction false} NeedAtLeast(ss: seq<Slot>, i: int)
    requires NonNegative(ss) && 0 <= i < |ss|
    ensures ss[i].size <= Need(ss)
    decreases |ss|
  {
    NeedNonNegative(ss[1..]);
    if i > 0 { NeedAtLeast(ss[1..], i - 1); }
  }

  lemma {:induction false} MaxAtLeast(items: seq<Item>, cols: int, rows: int)
    ensures cols <= MaxCols(items, cols) && rows <= MaxRows(items, rows)
    ensures items != [] ==> items[0].cols <= MaxCols(items, cols) && items[0].rows <= MaxRows(items, rows)
    decreases |items|
  {
    if items != [] { MaxAtLeast(items[1..], Max(items[0].cols, cols), Max(items[0].rows, rows)); }
  }

  lemma PlainItems(kids: seq<Node>)
    requires forall k <- kids :: Plain(k) && 0 < FinalCols(k) && 0 < FinalRows(k)
    ensures forall i :: 0 <= i < |kids| ==> 0 < FinalItems(kids)[i].cols && 0 < FinalItems(kids)[i].rows
  {
    hide FinalItems;
    forall i | 0 <= i < |kids| ensures 0 < FinalItems(kids)[i].cols && 0 < FinalItems(kids)[i].rows {
      assert kids[i] in kids;
      FinalItemsAt(kids, i);
    }
  }

  /** A plain tree is steady whatever was asked for before, and no widget ends up asking for nothing. */
  lemma {:induction false} PlainIsSteady(n: Node)
    requires Plain(n)
    ensures Steady(n) && 0 < FinalCols(n) && 0 < FinalRows(n)
    decreases n
  {
    forall k <- n.kids
      ensures Steady(k) && FirstCols(k) == FinalCols(k) && FirstRows(k) == FinalRows(k) && 0 < FinalCols(k)
              && 0 < FinalRows(k)
    {
      PlainIsSteady(k);
      SteadyAsks(k);
    }
    PlainItems(n.kids);
    var items := FinalItems(n.kids);
    if !Fixed(n) {
      if n.cfg.tab {
        MaxAtLeast(items, Border(n.cfg), Border(n.cfg));
      } else {
        NeedAtLeast(ColSlots(items), 0);
        NeedAtLeast(RowSlots(items), 0);
      }
    }
  }

  // ----- A new dialog shows every widget

  /** Every container propagates, and starts without a request. */
  predicate New(n: Node) {
    (n.kids != [] ==> n.cfg.propagate && n.st.reqcols == 0 && n.st.reqrows == 0) && forall k <- n.kids :: New(k)
  }

  /** Every widget below n is shown, in at least the size it asks for. */
  predicate Served(n: Node) {
    forall k <- n.kids :: !k.st.hidden && k.st.reqcols <= k.st.cols && k.st.reqrows <= k.st.rows && Served(k)
  }

  /** Every widget asks for something, every container is marked, and no tab has a border. */
  predicate Primed(n: Node) {
    && (n.kids != [] && n.cfg.tab ==> n.cfg.border == 0)
    && 0 <= n.cfg.border && 0 <= n.cfg.padx && 0 <= n.cfg.pady && 0 <= n.cfg.ipadx && 0 <= n.cfg.ipady
    && 0 < n.st.reqcols && 0 < n.st.reqrows && (n.kids != [] ==> n.st.repack)
    && forall k <- n.kids :: Primed(k)
  }

  lemma {:induction false} NewPrimed(n: Node)
    requires Plain(n) && New(n)
    ensures Primed(Calc(Init(n)))
    decreases n
  {
    var m, ks := Calc(Init(n)), KidsPasses(n.kids, 1);
    FirstPass(n);
    PlainIsSteady(n);
    SteadyAsks(n);
    forall i | 0 <= i < |n.kids| ensures Primed(ks[i]) {
      assert n.kids[i] in n.kids;
      PassesUnfold(Init(n.kids[i]), 1);
      NewPrimed(n.kids[i]);
    }
    assert m.kids == ks;
  }

  /** A child whose frame has room for its item is shown in at least the size it asks for. */
  lemma PlacedServed(cfg: Config, st: State, frame: Rect)
    requires 0 <= cfg.border && 0 <= cfg.padx && 0 <= cfg.pady && 0 <= cfg.ipadx && 0 <= cfg.ipady
    requires 0 < st.reqcols && 0 < st.reqrows
    requires ItemOf(cfg, st).cols <= frame.cols && ItemOf(cfg, st).rows <= frame.rows
    ensures var r := Placed(cfg, st, frame);
            && !r.hidden && st.reqcols == r.reqcols <= r.cols && st.reqrows == r.reqrows <= r.rows
  {
    hide Across, Down;
  }

  /** Frames in a container of exactly the size its children need have room for all of them. */
  lemma FramesServe(cfg: Config, st: State, items: seq<Item>)
    requires Sizes(items) && items != []
    requires 0 <= st.cols == WantCols(cfg, items) - Border(cfg) && 0 <= st.rows == WantRows(cfg, items) - Border(cfg)
    ensures forall i :: 0 <= i < |items| ==>
              items[i].cols <= FramesOf(cfg, st, items)[i].cols && items[i].rows <= FramesOf(cfg, st, items)[i].rows
  {
    if !cfg.tab {
      NeedIsLeast(items, Cavity(cfg, st));
      AllServedMeaning(items, Cavity(cfg, st));
    }
  }

  lemma {:induction false} PrimedServes(n: Node)
    requires Poised(n) && Primed(n)
    ensures Served(Calc(n))
    decreases n
  {
    var kids', c := CalcAll(n.kids), Cleared(n.st);
    forall i | 0 <= i < |n.kids|
      ensures Served(kids'[i]) && kids'[i].cfg == n.kids[i].cfg && Primed(n.kids[i])
      ensures kids'[i].st == n.kids[i].st || kids'[i].st == Cleared(n.kids[i].st)
    {
      assert n.kids[i] in n.kids;
      CalcAllAt(n.kids, i);
      PoisedPass(n.kids[i]);
      PrimedServes(n.kids[i]);
    }
    if n.kids != [] {
      PoisedPlaces(n);
      PrimedKids(n, kids');
    }
  }

  /** The children of a primed container, placed. */
  lemma PrimedKids(n: Node, kids': seq<Node>)
    requires Poised(n) && Primed(n) && n.kids != [] && |kids'| == |n.kids|
    requires forall i :: 0 <= i < |n.kids| ==>
               && Served(kids'[i]) && kids'[i].cfg == n.kids[i].cfg
               && (kids'[i].st == n.kids[i].st || kids'[i].st == Cleared(n.kids[i].st))
    ensures forall k <- PlaceAll(kids', FramesOf(n.cfg, Cleared(n.st), Items(kids'))) ::
              !k.st.hidden && k.st.reqcols <= k.st.cols && k.st.reqrows <= k.st.rows && Served(k)
  {
    hide FramesOf, Placed, WantCols, WantRows, Poised;
    var c, items := Cleared(n.st), Items(kids');
    PoisedAnswers(n);
    ItemsStay(n.kids, kids');
    PrimedSizes(n.kids);
    FramesServe(n.cfg, c, items);
    var fs := FramesOf(n.cfg, c, items);
    forall i | 0 <= i < |kids'|
      ensures var k := PlaceAll(kids', fs)[i];
              !k.st.hidden && k.st.reqcols <= k.st.cols && k.st.reqrows <= k.st.rows && Served(k)
    {
      assert n.kids[i] in n.kids;
      PlacedServed(kids'[i].cfg, kids'[i].st, fs[i]);
    }
  }

  lemma PoisedAnswers(n: Node)
    requires Poised(n) && n.st.repack && n.kids != []
    ensures n.st.resize && forall k <- n.kids :: Shows(k.st)
    ensures WantCols(n.cfg, Items(n.kids)) == n.st.reqcols + Border(n.cfg)
    ensures WantRows(n.cfg, Items(n.kids)) == n.st.reqrows + Border(n.cfg)
  {
  }

  lemma PrimedSizes(kids: seq<Node>)
    requires forall k <- kids :: Primed(k)
    ensures Sizes(Items(kids))
  {
    forall i | 0 <= i < |kids| ensures 0 <= Items(kids)[i].cols && 0 <= Items(kids)[i].rows {
      assert kids[i] in kids;
    }
  }

  /** A pass over a poised container that is marked places its children. */
  lemma PoisedPlaces(n: Node)
    requires Poised(n) && n.st.repack && n.kids != []
    ensures var (kids', c) := (CalcAll(n.kids), Cleared(n.st));
            Calc(n).kids == PlaceAll(kids', FramesOf(n.cfg, c, Items(kids')))
  {
    PoisedPass(n);
    hide WantCols, WantRows, FramesOf, Placed, Items, Poised;
  }

  /** After packing a new dialog of plain widgets none is hidden, and each has at least the size it asks for. */
  lemma NewIsServed(n: Node)
    requires Plain(n) && New(n)
    ensures Served(Pack(n)) && Settled(Pack(n))
  {
    hide Steady, Poised, Primed, Calc, Init, Passes, New;
    PlainIsSteady(n);
    TwoPasses(n);
    if n.kids == [] {
      NothingBelow(n);
    } else {
      NewIsOutdated(n);
      SteadyPoised(n);
      NewPrimed(n);
      PrimedServes(Calc(Init(n)));
      PassesUnfold(Init(n), 1);
      PassesUnfold(Init(n), 2);
    }
  }

  lemma NewIsOutdated(n: Node)
    requires Plain(n) && New(n) && n.kids != []
    ensures Outdated(n)
  {
    PlainIsSteady(n);
    SteadyAsks(n);
  }

  lemma NothingBelow(n: Node)
    requires n.kids == []
    ensures Served(Pack(n))
  {
    FixedStops(n);
    PassesUnfold(Init(n), 1);
  }

  // ----- A new dialog keeps every widget inside its container

  function OuterOf(k: Node): Rect { Shown(k.cfg, k.st) }

  ghost predicate Apart(r: Rect, r': Rect) {
    forall x: int, y: int :: !(Inside(r, x, y) && Inside(r', x, y))
  }

  /** The children lie in the cavity; unless they are tabs they are apart from each other, each on its side
      of those after it. */
  ghost predicate Arranged(tab: bool, kids: seq<Node>, cavity: Rect) {
    && (forall k <- kids :: EdgesWithin(OuterOf(k), cavity))
    && (!tab ==> forall i, j :: 0 <= i < j < |kids| ==>
          && Apart(OuterOf(kids[i]), OuterOf(kids[j]))
          && OnSide(kids[i].cfg.attach, OuterOf(kids[i]), OuterOf(kids[j])))
  }

  /** In every container the children are arranged in the size it has. */
  ghost predicate Tidy(n: Node) {
    && Arranged(n.cfg.tab, n.kids, Rect(n.cfg.border, n.cfg.border, n.st.cols, n.st.rows))
    && forall k <- n.kids :: Tidy(k)
  }

  /** In every container the children are arranged in the size it asks for. */
  ghost predicate LaidOut(n: Node) {
    && Arranged(n.cfg.tab, n.kids, Rect(n.cfg.border, n.cfg.border, n.st.reqcols, n.st.reqrows))
    && forall k <- n.kids :: LaidOut(k)
  }

  /** Frames in a container of exactly the size its children need lie in it, and on their sides of those
      after them unless it is a tab. */
  lemma FramesArranged(cfg: Config, st: State, items: seq<Item>)
    requires Sizes(items) && items != [] && (cfg.tab ==> cfg.border == 0)
    requires 0 <= st.cols == WantCols(cfg, items) - Border(cfg) && 0 <= st.rows == WantRows(cfg, items) - Border(cfg)
    ensures var fs := FramesOf(cfg, st, items);
            && (forall i :: 0 <= i < |items| ==> EdgesWithin(fs[i], Cavity(cfg, st)))
            && (!cfg.tab ==> forall i, j :: 0 <= i < j < |items| ==> OnSide(items[i].attach, fs[i], fs[j]))
  {
    hide Frames, WantCols, WantRows;
    var fs, cavity := FramesOf(cfg, st, items), Cavity(cfg, st);
    if cfg.tab {
      forall i | 0 <= i < |items| ensures EdgesWithin(fs[i], cavity) { TabItemFits(cfg, items, i); }
    } else {
      FramesCount(items, cavity);
      forall i | 0 <= i < |items| ensures EdgesWithin(fs[i], cavity) { FramesWithin(items, cavity, i); }
      forall i, j | 0 <= i < j < |items| ensures OnSide(items[i].attach, fs[i], fs[j]) {
        FramesInOrder(items, cavity, i, j);
      }
    }
  }

  lemma TabItemFits(cfg: Config, items: seq<Item>, i: int)
    requires cfg.tab && 0 <= i < |items|
    ensures items[i].cols <= WantCols(cfg, items) && items[i].rows <= WantRows(cfg, items)
  {
    ItemAtMost(items, i, Border(cfg), Border(cfg));
  }

  lemma {:induction false} ItemAtMost(items: seq<Item>, i: int, cols: int, rows: int)
    requires 0 <= i < |items|
    ensures items[i].cols <= MaxCols(items, cols) && items[i].rows <= MaxRows(items, rows)
    decreases |items|
  {
    if i == 0 {
      MaxAtLeast(items, cols, rows);
    } else {
      ItemAtMost(items[1..], i - 1, Max(items[0].cols, cols), Max(items[0].rows, rows));
    }
  }

  lemma {:induction false} PrimedLaysOut(n: Node)
    requires Poised(n) && Primed(n)
    ensures LaidOut(Calc(n))
    decreases n
  {
    hide Arranged, FramesOf, Placed, WantCols, WantRows;
    var kids' := CalcAll(n.kids);
    PoisedPass(n);
    forall i | 0 <= i < |n.kids|
      ensures LaidOut(kids'[i]) && kids'[i].cfg == n.kids[i].cfg && Primed(n.kids[i])
      ensures kids'[i].st == n.kids[i].st || kids'[i].st == Cleared(n.kids[i].st)
    {
      assert n.kids[i] in n.kids;
      CalcAllAt(n.kids, i);
      PoisedPass(n.kids[i]);
      PrimedLaysOut(n.kids[i]);
    }
    if n.kids == [] {
      NothingArranged(Calc(n));
    } else {
      PoisedPlaces(n);
      KidsArranged(n, kids');
      KidsLaidOut(kids', FramesOf(n.cfg, Cleared(n.st), Items(kids')));
    }
  }

  lemma NothingArranged(n: Node)
    requires n.kids == []
    ensures LaidOut(n) && Tidy(n)
  {
  }

  lemma KidsLaidOut(kids: seq<Node>, fs: seq<Rect>)
    requires |fs| == |kids| && forall i :: 0 <= i < |kids| ==> LaidOut(kids[i])
    ensures forall k <- PlaceAll(kids, fs) :: LaidOut(k)
  {
    hide Arranged, Placed;
    forall i | 0 <= i < |kids| ensures LaidOut(PlaceAll(kids, fs)[i]) {
      PlacementKeepsLaidOut(kids[i], fs[i]);
    }
  }

  lemma PlacementKeepsLaidOut(k: Node, frame: Rect)
    requires LaidOut(k)
    ensures LaidOut(k.(st := Placed(k.cfg, k.st, frame)))
  {
    hide Arranged;
  }

  /** The children of a primed container, placed, are arranged in the size it asks for. */
  lemma KidsArranged(n: Node, kids': seq<Node>)
    requires Poised(n) && Primed(n) && n.kids != [] && |kids'| == |n.kids|
    requires forall i :: 0 <= i < |n.kids| ==>
               && kids'[i].cfg == n.kids[i].cfg
               && (kids'[i].st == n.kids[i].st || kids'[i].st == Cleared(n.kids[i].st))
    ensures Arranged(n.cfg.tab, PlaceAll(kids', FramesOf(n.cfg, Cleared(n.st), Items(kids'))),
                     Rect(n.cfg.border, n.cfg.border, n.st.reqcols, n.st.reqrows))
  {
    hide FramesOf, Placed, WantCols, WantRows, Poised, Shown, EdgesWithin, OnSide;
    var c, items := Cleared(n.st), Items(kids');
    PoisedAnswers(n);
    ItemsStay(n.kids, kids');
    PrimedSizes(n.kids);
    FramesServe(n.cfg, c, items);
    FramesArranged(n.cfg, c, items);
    var fs := FramesOf(n.cfg, c, items);
    var placed := PlaceAll(kids', fs);
    forall i | 0 <= i < |kids'| ensures EdgesWithin(OuterOf(placed[i]), fs[i]) {
      assert n.kids[i] in n.kids;
      PlacedServed(kids'[i].cfg, kids'[i].st, fs[i]);
      ShownInFrame(kids'[i].cfg, kids'[i].st, fs[i]);
    }
    FramesArrange(n.cfg.tab, placed, fs, Cavity(n.cfg, c));
  }

  lemma FramesArrange(tab: bool, kids: seq<Node>, fs: seq<Rect>, cavity: Rect)
    requires |fs| == |kids|
    requires forall i :: 0 <= i < |kids| ==> EdgesWithin(OuterOf(kids[i]), fs[i]) && EdgesWithin(fs[i], cavity)
    requires !tab ==> forall i, j :: 0 <= i < j < |fs| ==> OnSide(kids[i].cfg.attach, fs[i], fs[j])
    ensures Arranged(tab, kids, cavity)
  {
    hide Shown, EdgesWithin, OnSide, Apart;
    forall i | 0 <= i < |kids| ensures EdgesWithin(OuterOf(kids[i]), cavity) {
      Nested(OuterOf(kids[i]), fs[i], cavity);
    }
    if !tab {
      forall i, j | 0 <= i < j < |fs|
        ensures Apart(OuterOf(kids[i]), OuterOf(kids[j]))
                && OnSide(kids[i].cfg.attach, OuterOf(kids[i]), OuterOf(kids[j]))
      {
        NestedOnSide(kids[i].cfg.attach, OuterOf(kids[i]), fs[i], OuterOf(kids[j]), fs[j]);
      }
    }
  }

  lemma Nested(r: Rect, f: Rect, c: Rect)
    requires EdgesWithin(r, f) && EdgesWithin(f, c)
    ensures EdgesWithin(r, c)
  {
  }

  lemma NestedOnSide(side: Attach, r: Rect, f: Rect, r': Rect, f': Rect)
    requires EdgesWithin(r, f) && EdgesWithin(r', f') && OnSide(side, f, f')
    ensures OnSide(side, r, r') && Apart(r, r')
  {
  }

  /** Containers that were given at least what they asked for keep what was laid out for that. */
  lemma {:induction false} LaidOutIsTidy(n: Node)
    requires LaidOut(n) && Served(n) && n.st.reqcols <= n.st.cols && n.st.reqrows <= n.st.rows
    ensures Tidy(n)
    decreases n
  {
    forall k <- n.kids ensures Tidy(k) { LaidOutIsTidy(k); }
    WiderArranged(n.cfg.tab, n.kids, Rect(n.cfg.border, n.cfg.border, n.st.reqcols, n.st.reqrows), Cavity(n.cfg, n.st));
  }

  lemma WiderArranged(tab: bool, kids: seq<Node>, cavity: Rect, wider: Rect)
    requires Arranged(tab, kids, cavity)
    requires cavity.x == wider.x && cavity.y == wider.y && cavity.cols <= wider.cols && cavity.rows <= wider.rows
    ensures Arranged(tab, kids, wider)
  {
    hide Shown, Apart, OnSide;
  }

  /** After packing a new dialog of plain widgets every widget lies inside its container, in the size that
      container has in the end, and siblings that are not tabs are apart: in the whole tree. */
  lemma NewIsTidy(n: Node)
    requires Plain(n) && New(n)
    ensures Tidy(Pack(n))
  {
    hide Steady, Poised, Primed, Calc, Init, Passes, New, LaidOut, Tidy, Served, Settled;
    PlainIsSteady(n);
    TwoPasses(n);
    if n.kids == [] {
      FixedStops(n);
      PassesUnfold(Init(n), 1);
      StillNothing(n);
      NothingArranged(Pack(n));
    } else {
      var m := Calc(Init(n));
      NewIsOutdated(n);
      NewIsServed(n);
      SteadyPoised(n);
      NewPrimed(n);
      PrimedLaysOut(m);
      FirstPass(n);
      PoisedPass(m);
      PassesUnfold(Init(n), 1);
      PassesUnfold(Init(n), 2);
      LaidOutIsTidy(Pack(n));
    }
  }

  lemma StillNothing(n: Node)
    requires n.kids == []
    ensures Calc(Init(n)).kids == []
  {
  }

  // ----- Absolute positions

  function Apply(n: Node, px: int, py: int): Node
    decreases n, 1
  {
    n.(st := n.st.(absx := n.st.x + px, absy := n.st.y + py), kids := ApplyAll(n.kids, n.st.x + px, n.st.y + py))
  }

  function ApplyAll(kids: seq<Node>, px: int, py: int): (r: seq<Node>)
    ensures |r| == |kids|
    decreases kids
  {
    if kids == [] then [] else [Apply(kids[0], px, py)] + ApplyAll(kids[1..], px, py)
  }

  lemma {:induction false} ApplyAllAt(kids: seq<Node>, px: int, py: int, i: int)
    requires 0 <= i < |kids|
    ensures ApplyAll(kids, px, py)[i] == Apply(kids[i], px, py)
    decreases kids
  {
    if i > 0 { ApplyAllAt(kids[1..], px, py, i - 1); }
  }

  /** path leads from n to one of its descendants, child by child. */
  predicate Leads(n: Node, path: seq<nat>) {
    path == [] || (path[0] < |n.kids| && Leads(n.kids[path[0]], path[1..]))
  }

  function At(n: Node, path: seq<nat>): Node
    requires Leads(n, path)
  {
    if path == [] then n else At(n.kids[path[0]], path[1..])
  }

  /** Sum of the relative positions of all widgets along the path. */
  function SumX(n: Node, path: seq<nat>): int
    requires Leads(n, path)
  {
    n.st.x + if path == [] then 0 else SumX(n.kids[path[0]], path[1..])
  }

  function SumY(n: Node, path: seq<nat>): int
    requires Leads(n, path)
  {
    n.st.y + if path == [] then 0 else SumY(n.kids[path[0]], path[1..])
  }

  /** Absolute positions are sums of relative positions up the tree, which stay as they are. */
  lemma {:induction false} AbsoluteIsSum(n: Node, path: seq<nat>, px: int, py: int)
    requires Leads(n, path)
    ensures var r := Apply(n, px, py);
            && Leads(r, path)
            && At(r, path).st == At(n, path).st.(absx := px + SumX(n, path), absy := py + SumY(n, path))
    decreases path
  {
    if path != [] {
      ApplyAllAt(n.kids, n.st.x + px, n.st.y + py, path[0]);
      AbsoluteIsSum(n.kids[path[0]], path[1..], n.st.x + px, n.st.y + py);
    }
  }

  // ----- Two trees on which packing does less than one would hope

  function Widget(tab: bool, border: int, cols: int, rows: int, kids: seq<Node>): Node {
    Node(Config(Top, Center, false, false, false, 0, 0, 0, 0, border, tab, true),
         State(cols, rows, cols, rows, 0, 0, 0, 0, false, false, false), kids)
  }

  lemma OneItem(i: Item, most: int)
    ensures Need(ColSlots([i])) == if i.attach.Vertical() then Max(i.cols, 0) else i.cols
    ensures Need(RowSlots([i])) == if i.attach.Vertical() then i.rows else Max(i.rows, 0)
    ensures MaxCols([i], most) == Max(i.cols, most) && MaxRows([i], most) == Max(i.rows, most)
  {
    assert ColSlots([i])[1..] == [] && RowSlots([i])[1..] == [] && [i][1..] == [];
  }

  lemma TwoItems(i: Item, j: Item)
    requires i.attach == j.attach == Top
    ensures Need(ColSlots([i, j])) == Max(i.cols, Max(j.cols, 0)) && Need(RowSlots([i, j])) == i.rows + j.rows
  {
    OneItem(j, 0);
    assert ColSlots([i, j])[1..] == ColSlots([j]) && RowSlots([i, j])[1..] == RowSlots([j]);
  }

  lemma OneChild(k: Node)
    ensures FirstItems([k]) == [SizedItem(k.cfg, FirstCols(k), FirstRows(k))]
    ensures FinalItems([k]) == [SizedItem(k.cfg, FinalCols(k), FinalRows(k))]
    ensures HeightAll([k]) == Height(k)
  {
    assert [k][1..] == [];
  }

  /** A container whose outdated width its wider sibling hides from the root stays marked: its own
      children are never placed. */
  lemma HiddenByWiderSibling()
    ensures var inner := Widget(false, 0, 3, 1, [Widget(false, 0, 2, 1, [])]);
            var n := Widget(false, 0, 10, 2, [Widget(false, 0, 10, 1, []), inner]);
            Steady(n) && !Current(n) && !Clear(Pack(n))
  {
    var leaf := Widget(false, 0, 2, 1, []);
    var inner := Widget(false, 0, 3, 1, [leaf]);
    var wide := Widget(false, 0, 10, 1, []);
    var n := Widget(false, 0, 10, 2, [wide, inner]);
    OneChild(leaf);
    OneItem(Item(Top, false, 2, 1), 0);
    assert AskedCols(inner) == FinalCols(inner) == 2 && AskedRows(inner) == FinalRows(inner) == 1;
    OneChild(inner);
    assert [wide, inner][1..] == [inner];
    assert FirstItems(n.kids) == [Item(Top, false, 10, 1), Item(Top, false, 2, 1)];
    TwoItems(Item(Top, false, 10, 1), Item(Top, false, 2, 1));
    assert !Outdated(n) && Outdated(inner) && inner in n.kids;
    hide Clear, Pack;
    AllPlacedIff(n);
  }

  /** A bordered tab with small children ends up asking for nothing; then two passes are not enough. */
  lemma BorderedTabTakesLonger()
    ensures PassCount(Widget(false, 0, 100, 100, [Widget(true, 1, 5, 1, [Widget(false, 0, 1, 1, [])])])) == 3
  {
    var leaf := Widget(false, 0, 1, 1, []);
    var tab := Widget(true, 1, 5, 1, [leaf]);
    var n := Widget(false, 0, 100, 100, [tab]);
    hide PassCount;
    OneChild(leaf);
    OneItem(Item(Top, false, 1, 1), 2);
    assert AskedCols(tab) == FinalCols(tab) == 0 && AskedRows(tab) == FinalRows(tab) == 0;
    assert FirstCols(tab) == 5 && FirstRows(tab) == 1;
    OneChild(tab);
    OneItem(Item(Top, false, 7, 3), 0);
    OneItem(Item(Top, false, 2, 2), 0);
    assert AskedCols(n) == 7 && FinalCols(n) == 2;
    TwoPassesIff(n);
    StopsByHeight(n);
  }

  lemma FirstPlaced(n: Node)
    requires !Outdated(n)
    ensures Calc(Init(n)).st == Cleared(Init(n).st)
  {
    hide Calc, Marks, KidsPasses, InitAll, WantCols, WantRows, FramesOf, Placed;
    var ks := KidsPasses(n.kids, 1);
    KidsPassesStep(n.kids, 0);
    FirstPass(n);
    FirstReached(n);
    TakenUp(n.cfg, n.st);
    PackFirst(n, Cleared(Init(n).st), ks);
  }

  /** The only child of a container 1 row high, attached at its top. */
  lemma OneFrame(cfg: Config, st: State)
    requires !cfg.tab && cfg.border == 0 && 0 <= st.cols && st.rows == 1
    ensures FramesOf(cfg, st, [Item(Top, false, 10, 1)]) == [Rect(0, 0, st.cols, 1)]
  {
    assert [Item(Top, false, 10, 1)][1..] == [];
  }

  /** A widget that asks for 10 by 1, in a row of up to that length. */
  lemma PlacedInRow(st: State, cols: int)
    requires st.reqcols == 10 && st.reqrows == 1 && 0 < cols <= 10
    ensures Placed(Widget(false, 0, 10, 1, []).cfg, st, Rect(0, 0, cols, 1)) ==
            st.(x := 0, y := 0, cols := cols, rows := 1, hidden := false)
  {
  }

  /** The first pass over a widget with one child of 10 by 1 that is not out of date. */
  lemma OneKidPlaced(n: Node, k: Node)
    requires n.kids == [k] && !n.cfg.tab && n.cfg.border == 0 && k.cfg == Widget(false, 0, 10, 1, []).cfg
    requires k.st.reqcols == 10 && k.st.reqrows == 1 && FirstCols(k) == 10 && FirstRows(k) == 1 && !Outdated(k)
    requires !Outdated(n) && 0 < n.st.cols == n.st.reqcols <= 10 && n.st.rows == n.st.reqrows == 1
    ensures var (m, r) := (Calc(Init(n)), Calc(Init(k)));
            && m.st == Cleared(Init(n).st) && |m.kids| == 1 && m.kids[0].kids == r.kids && m.kids[0].cfg == k.cfg
            && m.kids[0].st == r.st.(x := 0, y := 0, cols := n.st.cols, rows := 1, hidden := false)
  {
    hide Calc, FramesOf, Placed, PlaceAll, Passes, Outdated, FirstCols, FirstRows, FirstItems, FinalItems, Height, Init;
    hide KidsPasses, Cleared, AskedCols, AskedRows, FinalCols, FinalRows;
    var m, r, ks := Calc(Init(n)), Calc(Init(k)), KidsPasses(n.kids, 1);
    InitKeepsState(n);
    KidsAfterFirst(n);
    KidsAfterFirst(k);
    OneChild(k);
    PassesUnfold(Init(k), 1);
    assert ks[0] == r;
    OneFrame(n.cfg, m.st);
    PlaceOne(ks, Rect(0, 0, n.st.cols, 1));
    PlacedInRow(r.st, n.st.cols);
  }

  lemma PlaceOne(ks: seq<Node>, frame: Rect)
    requires |ks| == 1
    ensures PlaceAll(ks, [frame]) == [ks[0].(st := Placed(ks[0].cfg, ks[0].st, frame))]
  {
    hide Placed;
  }

  /** The first pass over a container that is not out of date. */
  lemma KidsAfterFirst(n: Node)
    requires !Outdated(n)
    ensures var m := Calc(Init(n));
            && m.cfg == n.cfg && m.st == Cleared(Init(n).st)
            && m.st.reqcols == n.st.reqcols && m.st.reqrows == n.st.reqrows
            && (n.kids != [] ==> m.kids == PlaceAll(KidsPasses(n.kids, 1), FramesOf(m.cfg, m.st, FirstItems(n.kids))))
  {
    hide Calc, FramesOf, Placed, Passes, FirstItems, KidsPasses;
    FirstPlaced(n);
    FirstPass(n);
  }

  lemma InitKeepsState(n: Node)
    requires n.st.cols == n.st.reqcols && n.st.rows == n.st.reqrows
    ensures var c := Cleared(Init(n).st); c.cols == n.st.cols && c.rows == n.st.rows
  {
  }

  /** A container whose fixed parent is too small for it is shrunk after its own child has been placed,
      and not packed again: the child sticks out. */
  lemma ShrunkIsUntidy()
    ensures var inner := Widget(false, 0, 10, 1, [Widget(false, 0, 10, 1, [])]);
            var w := Widget(false, 0, 5, 1, [inner]);
            var n := w.(cfg := w.cfg.(propagate := false));
            Plain(n) && !New(n) && Clear(Pack(n)) && !Tidy(Pack(n))
  {
    var leaf := Widget(false, 0, 10, 1, []);
    var inner := Widget(false, 0, 10, 1, [leaf]);
    var w := Widget(false, 0, 5, 1, [inner]);
    var n := w.(cfg := w.cfg.(propagate := false));
    OneChild(leaf);
    OneItem(Item(Top, false, 10, 1), 0);
    assert AskedCols(inner) == 10 && AskedRows(inner) == 1 && !Outdated(inner) && !Outdated(n) && !Outdated(leaf);
    assert FirstCols(inner) == 10 && FirstRows(inner) == 1;
    assert Current(leaf) && Plain(leaf);
    assert Current(inner) && Plain(inner) && !New(inner);
    assert inner in n.kids && Current(n) && Plain(n) && !New(n);
    hide Current, Plain, New, Calc, Init, Clear, Passes, PassCount, Outdated, FirstItems, Tidy, Steady;
    hide AskedCols, AskedRows, FirstCols, FirstRows;
    ShrunkStops(n);
    OneKidPlaced(inner, leaf);
    OneKidPlaced(n, inner);
    Untidy(Pack(n));
  }

  lemma ShrunkStops(n: Node)
    requires Plain(n) && Fixed(n) && Current(n)
    ensures Pack(n) == Calc(Init(n)) && Clear(Pack(n))
  {
    hide Current, Plain, Clear, PassCount, Init, Calc;
    PlainIsSteady(n);
    AllPlacedIff(n);
    FixedStops(n);
    PassesUnfold(Init(n), 1);
  }

  lemma Untidy(m: Node)
    requires |m.kids| == 1 && |m.kids[0].kids| == 1
    requires var k := m.kids[0]; k.cfg.border == 0 && k.st.cols == 5
    requires var leaf := m.kids[0].kids[0];
             leaf.cfg.border == 0 && leaf.st.x == 0 && leaf.st.y == 0 && leaf.st.cols == 10 && leaf.st.rows == 1
    ensures !Tidy(m)
  {
    var k := m.kids[0];
    assert !EdgesWithin(OuterOf(k.kids[0]), Cavity(k.cfg, k.st));
    assert k in m.kids && k.kids[0] in k.kids;
  }

  /** Assigning positions leaves every request as it is. */
  lemma {:induction false} ApplyKeepsRequests(n: Node, px: int, py: int)
    ensures var r := Apply(n, px, py);
            r.cfg == n.cfg && FinalCols(r) == FinalCols(n) && FinalRows(r) == FinalRows(n)
                && (Settled(n) ==> Settled(r))
    decreases n
  {
    var kids' := ApplyAll(n.kids, n.st.x + px, n.st.y + py);
    forall i | 0 <= i < |n.kids|
      ensures kids'[i].cfg == n.kids[i].cfg && FinalCols(kids'[i]) == FinalCols(n.kids[i])
              && FinalRows(kids'[i]) == FinalRows(n.kids[i])
      ensures Settled(n.kids[i]) ==> Settled(kids'[i])
    {
      ApplyAllAt(n.kids, n.st.x + px, n.st.y + py, i);
      ApplyKeepsRequests(n.kids[i], n.st.x + px, n.st.y + py);
    }
    FinalItemsSame(n.kids, kids');
    if Settled(n) {
      forall k <- kids' ensures Settled(k) {
        var i :| 0 <= i < |n.kids| && kids'[i] == k;
        assert n.kids[i] in n.kids;
      }
    }
  }

  // ----- Sizes stay non-negative

  predicate NonNegativeTree(n: Node) {
    && 0 <= n.cfg.border && 0 <= n.cfg.padx && 0 <= n.cfg.pady && 0 <= n.cfg.ipadx && 0 <= n.cfg.ipady
    && 0 <= n.st.reqcols && 0 <= n.st.reqrows && 0 <= n.st.cols && 0 <= n.st.rows
    && forall k <- n.kids :: NonNegativeTree(k)
  }

  lemma NonNegativeItems(kids: seq<Node>)
    requires forall k <- kids :: NonNegativeTree(k)
    ensures Sizes(Items(kids))
  {
    forall i | 0 <= i < |kids| ensures 0 <= Items(kids)[i].cols && 0 <= Items(kids)[i].rows {
      assert kids[i] in kids;
    }
  }

  lemma PackedNonNegative(n: Node)
    requires NonNegativeTree(n)
    ensures NonNegativeTree(Packed(n))
  {
    var items := Items(n.kids);
    NonNegativeItems(n.kids);
    if n.kids == [] {
    } else if Requests(n.cfg, n.st, items) {
      MaxAtLeast(items, Border(n.cfg), Border(n.cfg));
      NeedNonNegative(ColSlots(items));
      NeedNonNegative(RowSlots(items));
    } else {
      var fs := FramesOf(n.cfg, n.st, items);
      forall i | 0 <= i < |n.kids| ensures NonNegativeTree(PlaceAll(n.kids, fs)[i]) {
        assert n.kids[i] in n.kids;
      }
    }
  }

  lemma {:induction false} NonNegativeKept(n: Node)
    requires NonNegativeTree(n)
    ensures NonNegativeTree(Reached(n)) && NonNegativeTree(Calc(n))
    ensures NonNegativeTree(Reached(n).(st := Cleared(Reached(n).st)))
    decreases n
  {
    forall k <- CalcAll(n.kids) ensures NonNegativeTree(k) {
      var i :| 0 <= i < |n.kids| && CalcAll(n.kids)[i] == k;
      CalcAllAt(n.kids, i);
      NonNegativeKept(n.kids[i]);
    }
    var m := Reached(n);
    PackedNonNegative(m.(st := Cleared(m.st)));
  }

  lemma {:induction false} NonNegativeInit(n: Node)
    requires NonNegativeTree(n)
    ensures NonNegativeTree(Init(n))
    decreases n
  {
    forall i | 0 <= i < |n.kids| ensures NonNegativeTree(InitAll(n.kids)[i]) {
      InitAllAt(n.kids, i);
      NonNegativeInit(n.kids[i]);
    }
  }
}

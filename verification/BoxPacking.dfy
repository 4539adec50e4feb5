/** The geometry of the dialog packer on values: what a list of children needs along one axis, how
    slack is shared out, and how frames are cut from the shrinking cavity. */
module BoxPacking {
  import opened Basics

  datatype Attach = Top | Bottom | Left | Right {
    predicate Vertical() { this == Top || this == Bottom }
  }

  /** C division: towards zero. */
  function Trunc(a: int, b: int): int
    requires 0 < b
  {
    if 0 <= a then a / b else -(-a / b)
  }

  // ----- One axis

  /** A child as one axis sees it: along the axis it takes its share of the length, across it all of
      the length is its own. */
  datatype Slot = Slot(along: bool, size: int, expand: bool)

  /** Least length in which every slot has its size. */
  function Need(ss: seq<Slot>): int {
    if ss == [] then 0
    else if ss[0].along then ss[0].size + Need(ss[1..])
    else Max(ss[0].size, Need(ss[1..]))
  }

  /** Every expanding slot along the axis made e longer. */
  function Grow(ss: seq<Slot>, e: int): seq<Slot> {
    if ss == [] then []
    else [if ss[0].along && ss[0].expand then ss[0].(size := ss[0].size + e) else ss[0]] + Grow(ss[1..], e)
  }

  ghost predicate NonNegative(ss: seq<Slot>) {
    forall i :: 0 <= i < |ss| ==> 0 <= ss[i].size
  }

  lemma {:induction false} NeedNonNegative(ss: seq<Slot>)
    requires NonNegative(ss)
    ensures 0 <= Need(ss)
  {
    if ss != [] { NeedNonNegative(ss[1..]); }
  }

  lemma {:induction false} GrowMonotone(ss: seq<Slot>, e: int, e': int)
    requires e <= e'
    ensures Need(Grow(ss, e)) <= Need(Grow(ss, e'))
  {
    if ss != [] { GrowMonotone(ss[1..], e, e'); }
  }

  lemma {:induction false} GrowNothing(ss: seq<Slot>)
    ensures Grow(ss, 0) == ss
  {
    if ss != [] { GrowNothing(ss[1..]); }
  }

  /** An expanding slot feels all of its growth. */
  lemma GrowFirst(ss: seq<Slot>, e: int)
    requires ss != [] && ss[0].along && ss[0].expand
    ensures Need(Grow(ss, e)) == ss[0].size + e + Need(Grow(ss[1..], e))
  {
  }

  /** A slot across the axis neither grows nor shares. */
  lemma GrowFirstAcross(ss: seq<Slot>, e: int)
    requires ss != [] && !ss[0].along
    ensures Need(Grow(ss, e)) == Max(ss[0].size, Need(Grow(ss[1..], e)))
  {
  }

  /** e is the most that all remaining expanding slots can be given alike, or nothing when the slots
      do not even fit as they are. */
  ghost predicate GreatestGrowth(ss: seq<Slot>, cavity: int, e: int) {
    && 0 <= e
    && if Need(ss) <= cavity then Need(Grow(ss, e)) <= cavity < Need(Grow(ss, e + 1)) else e == 0
  }

  /** The greatest growth, searched for downwards from e. */
  function GrowthFrom(ss: seq<Slot>, cavity: int, e: nat): nat {
    if e == 0 || Need(Grow(ss, e)) <= cavity then e else GrowthFrom(ss, cavity, e - 1)
  }

  function Growth(ss: seq<Slot>, cavity: int): nat {
    GrowthFrom(ss, cavity, Max(cavity, 0))
  }

  lemma {:induction false} GrowthFromGreatest(ss: seq<Slot>, cavity: int, e: nat)
    requires cavity < Need(Grow(ss, e + 1))
    ensures GreatestGrowth(ss, cavity, GrowthFrom(ss, cavity, e))
  {
    GrowNothing(ss);
    if e == 0 || Need(Grow(ss, e)) <= cavity {
      GrowMonotone(ss, 0, e);
    } else {
      GrowthFromGreatest(ss, cavity, e - 1);
    }
  }

  lemma GrowthIsGreatest(ss: seq<Slot>, cavity: int)
    requires ss != [] && ss[0].along && ss[0].expand && NonNegative(ss)
    ensures GreatestGrowth(ss, cavity, Growth(ss, cavity))
  {
    var e := Max(cavity, 0);
    GrowFirst(ss, e + 1);
    GrowMonotone(ss[1..], 0, e + 1);
    GrowNothing(ss[1..]);
    NeedNonNegative(ss[1..]);
    GrowthFromGreatest(ss, cavity, e);
  }

  lemma GreatestGrowthUnique(ss: seq<Slot>, cavity: int, e: int, e': int)
    requires GreatestGrowth(ss, cavity, e) && GreatestGrowth(ss, cavity, e')
    ensures e == e'
  {
    if e < e' { GrowMonotone(ss, e + 1, e'); }
    if e' < e { GrowMonotone(ss, e' + 1, e); }
  }

  /** Slots that fit before the first of them is expanded still fit afterwards. */
  lemma FitsAfterGrowth(ss: seq<Slot>, cavity: int)
    requires ss != [] && ss[0].along && ss[0].expand && NonNegative(ss)
    requires Need(ss) <= cavity
    ensures ss[0].size + Growth(ss, cavity) <= cavity
    ensures Need(ss[1..]) <= cavity - ss[0].size - Growth(ss, cavity)
  {
    var e := Growth(ss, cavity);
    GrowthIsGreatest(ss, cavity);
    GrowFirst(ss, e);
    GrowMonotone(ss[1..], 0, e);
    GrowNothing(ss[1..]);
    NeedNonNegative(ss[1..]);
  }

  // ----- Cutting frames out of the cavity

  datatype Rect = Rect(x: int, y: int, cols: int, rows: int)

  /** A child's attachment, and its requested size with borders and padding. */
  datatype Item = Item(attach: Attach, expand: bool, cols: int, rows: int)

  function ColSlots(items: seq<Item>): (ss: seq<Slot>)
    ensures |ss| == |items|
    ensures forall i :: 0 <= i < |ss| ==> ss[i] == Slot(!items[i].attach.Vertical(), items[i].cols, items[i].expand)
  {
    seq(|items|, i requires 0 <= i < |items| => Slot(!items[i].attach.Vertical(), items[i].cols, items[i].expand))
  }

  function RowSlots(items: seq<Item>): (ss: seq<Slot>)
    ensures |ss| == |items|
    ensures forall i :: 0 <= i < |ss| ==> ss[i] == Slot(items[i].attach.Vertical(), items[i].rows, items[i].expand)
  {
    seq(|items|, i requires 0 <= i < |items| => Slot(items[i].attach.Vertical(), items[i].rows, items[i].expand))
  }

  lemma SlotsTail(items: seq<Item>)
    requires items != []
    ensures ColSlots(items)[1..] == ColSlots(items[1..]) && RowSlots(items)[1..] == RowSlots(items[1..])
  {
  }

  /** Length the first child gets along its axis: its size, more if it expands, never more than there is. */
  function FirstLength(ss: seq<Slot>, cavity: int): int
    requires ss != []
  {
    Min(ss[0].size + (if ss[0].expand then Growth(ss, cavity) else 0), cavity)
  }

  /** The frame of the first child, and the cavity that is left for the others. */
  function Cut(items: seq<Item>, cavity: Rect): (Rect, Rect)
    requires items != []
  {
    if items[0].attach.Vertical() then
      var rows := FirstLength(RowSlots(items), cavity.rows);
      var left := cavity.rows - rows;
      if items[0].attach == Top
      then (cavity.(rows := rows), cavity.(y := cavity.y + rows, rows := left))
      else (cavity.(y := cavity.y + left, rows := rows), cavity.(rows := left))
    else
      var cols := FirstLength(ColSlots(items), cavity.cols);
      var left := cavity.cols - cols;
      if items[0].attach == Left
      then (cavity.(cols := cols), cavity.(x := cavity.x + cols, cols := left))
      else (cavity.(x := cavity.x + left, cols := cols), cavity.(cols := left))
  }

  /** The frames of all children, in order. */
  function Frames(items: seq<Item>, cavity: Rect): seq<Rect> {
    if items == [] then [] else [Cut(items, cavity).0] + Frames(items[1..], Cut(items, cavity).1)
  }

  /** The cavity left when all frames are cut. */
  function Rest(items: seq<Item>, cavity: Rect): Rect {
    if items == [] then cavity else Rest(items[1..], Cut(items, cavity).1)
  }

  lemma {:induction false} FramesCount(items: seq<Item>, cavity: Rect)
    ensures |Frames(items, cavity)| == |items|
    decreases |items|
  {
    if items != [] { FramesCount(items[1..], Cut(items, cavity).1); }
  }

  ghost predicate Sizes(items: seq<Item>) {
    forall i :: 0 <= i < |items| ==> 0 <= items[i].cols && 0 <= items[i].rows
  }

  /** Every child's frame is at least as large as it asks for. */
  ghost predicate AllServed(items: seq<Item>, cavity: Rect) {
    items == [] ||
    (items[0].cols <= Cut(items, cavity).0.cols && items[0].rows <= Cut(items, cavity).0.rows &&
     AllServed(items[1..], Cut(items, cavity).1))
  }

  lemma {:induction false} AllServedMeaning(items: seq<Item>, cavity: Rect)
    ensures |Frames(items, cavity)| == |items|
    ensures AllServed(items, cavity) <==>
            forall i :: 0 <= i < |items| ==>
              items[i].cols <= Frames(items, cavity)[i].cols && items[i].rows <= Frames(items, cavity)[i].rows
    decreases |items|
  {
    hide Cut;
    FramesCount(items, cavity);
    if items != [] {
      var rest, left := items[1..], Cut(items, cavity).1;
      AllServedMeaning(rest, left);
      var fs, fs' := Frames(items, cavity), Frames(rest, left);
      assert fs == [Cut(items, cavity).0] + fs';
      hide Frames, AllServed;
      ServedShift(items, fs, rest, fs');
      ServedUnfolds(items, cavity);
    }
  }

  lemma ServedUnfolds(items: seq<Item>, cavity: Rect)
    requires items != []
    ensures AllServed(items, cavity) <==>
            items[0].cols <= Cut(items, cavity).0.cols && items[0].rows <= Cut(items, cavity).0.rows &&
            AllServed(items[1..], Cut(items, cavity).1)
  {
    hide Cut;
  }

  lemma ServedShift(items: seq<Item>, fs: seq<Rect>, rest: seq<Item>, fs': seq<Rect>)
    requires items != [] && rest == items[1..] && |fs| == |items| && fs' == fs[1..]
    ensures (forall i :: 0 <= i < |items| ==> items[i].cols <= fs[i].cols && items[i].rows <= fs[i].rows) <==>
            items[0].cols <= fs[0].cols && items[0].rows <= fs[0].rows &&
            forall i :: 0 <= i < |rest| ==> rest[i].cols <= fs'[i].cols && rest[i].rows <= fs'[i].rows
  {
    assert forall i :: 0 < i < |items| ==> fs[i] == fs'[i - 1] && items[i] == rest[i - 1];
    assert forall i :: 0 <= i < |rest| ==> fs'[i] == fs[i + 1] && rest[i] == items[i + 1];
  }

  /** The length that the first child leaves suffices for the others exactly when all fitted. */
  lemma FirstLengthServes(ss: seq<Slot>, cavity: int)
    requires ss != [] && ss[0].along && NonNegative(ss) && 0 <= cavity
    ensures 0 <= FirstLength(ss, cavity) <= cavity
    ensures Need(ss) <= cavity <==>
            ss[0].size <= FirstLength(ss, cavity) && Need(ss[1..]) <= cavity - FirstLength(ss, cavity)
  {
    NeedNonNegative(ss[1..]);
    if Need(ss) <= cavity && ss[0].expand {
      FitsAfterGrowth(ss, cavity);
    }
  }

  /** The computed need is exactly the least container size that serves every child, expanding or not. */
  lemma {:induction false} NeedIsLeast(items: seq<Item>, cavity: Rect)
    requires Sizes(items) && 0 <= cavity.cols && 0 <= cavity.rows
    ensures AllServed(items, cavity) <==> Need(ColSlots(items)) <= cavity.cols && Need(RowSlots(items)) <= cavity.rows
    decreases |items|
  {
    if items != [] {
      SlotsTail(items);
      if items[0].attach.Vertical() {
        FirstLengthServes(RowSlots(items), cavity.rows);
      } else {
        FirstLengthServes(ColSlots(items), cavity.cols);
      }
      NeedIsLeast(items[1..], Cut(items, cavity).1);
    }
  }

  // ----- Frames tile the cavity

  predicate Inside(r: Rect, x: int, y: int) {
    r.x <= x < r.x + r.cols && r.y <= y < r.y + r.rows
  }

  /** Number of frames that cover a cell. */
  function Cover(fs: seq<Rect>, x: int, y: int): nat {
    if fs == [] then 0 else (if Inside(fs[0], x, y) then 1 else 0) + Cover(fs[1..], x, y)
  }

  /** Every cell of the cavity ends up in exactly one frame or in what is left, and no other cell in any. */
  lemma {:induction false} FramesTile(items: seq<Item>, cavity: Rect, x: int, y: int)
    requires Sizes(items) && 0 <= cavity.cols && 0 <= cavity.rows
    ensures Cover(Frames(items, cavity), x, y) + (if Inside(Rest(items, cavity), x, y) then 1 else 0) ==
            if Inside(cavity, x, y) then 1 else 0
    ensures 0 <= Rest(items, cavity).cols && 0 <= Rest(items, cavity).rows
    decreases |items|
  {
    if items != [] {
      if items[0].attach.Vertical() {
        FirstLengthServes(RowSlots(items), cavity.rows);
      } else {
        FirstLengthServes(ColSlots(items), cavity.cols);
      }
      var (frame, left) := Cut(items, cavity);
      FramesTile(items[1..], left, x, y);
      assert Frames(items, cavity)[1..] == Frames(items[1..], left);
    }
  }

  lemma {:induction false} CoverCounts(fs: seq<Rect>, i: int, j: int, x: int, y: int)
    requires 0 <= i < |fs| && i <= j < |fs|
    requires Inside(fs[i], x, y) && Inside(fs[j], x, y)
    ensures Cover(fs, x, y) >= if i == j then 1 else 2
    decreases |fs|
  {
    if i > 0 {
      CoverCounts(fs[1..], i - 1, j - 1, x, y);
    } else if j > 0 {
      CoverCounts(fs[1..], j - 1, j - 1, x, y);
    }
  }

  /** Frames of different children share no cell, and lie in the cavity. */
  lemma FramesApart(items: seq<Item>, cavity: Rect, i: int, j: int, x: int, y: int)
    requires Sizes(items) && 0 <= cavity.cols && 0 <= cavity.rows
    requires 0 <= i < |Frames(items, cavity)| && 0 <= j < |Frames(items, cavity)|
    requires Inside(Frames(items, cavity)[i], x, y) && Inside(Frames(items, cavity)[j], x, y)
    ensures i == j && Inside(cavity, x, y)
  {
    FramesTile(items, cavity, x, y);
    CoverCounts(Frames(items, cavity), Min(i, j), Max(i, j), x, y);
  }

  // ----- Which side a frame is cut from

  /** Total length that the frames before i have taken from one side of the cavity. */
  function TakenFrom(items: seq<Item>, fs: seq<Rect>, side: Attach, i: nat): int
    requires i <= |items| && i <= |fs|
    decreases i
  {
    if i == 0 then 0
    else
      (if items[0].attach != side then 0 else if side == Left || side == Right then fs[0].cols else fs[0].rows) +
      TakenFrom(items[1..], fs[1..], side, i - 1)
  }

  /** The cavity without what the frames before i have taken from its four sides. */
  function CavityAt(items: seq<Item>, fs: seq<Rect>, cavity: Rect, i: nat): Rect
    requires i <= |items| && i <= |fs|
  {
    var (left, right) := (TakenFrom(items, fs, Left, i), TakenFrom(items, fs, Right, i));
    var (top, bottom) := (TakenFrom(items, fs, Top, i), TakenFrom(items, fs, Bottom, i));
    Rect(cavity.x + left, cavity.y + top, cavity.cols - left - right, cavity.rows - top - bottom)
  }

  /** A frame touches its own side of the cavity it is cut from, and spans that cavity across. */
  predicate OnItsSide(attach: Attach, f: Rect, c: Rect) {
    match attach
    case Left => f.x == c.x && f.y == c.y && f.rows == c.rows
    case Right => f.x + f.cols == c.x + c.cols && f.y == c.y && f.rows == c.rows
    case Top => f.y == c.y && f.x == c.x && f.cols == c.cols
    case Bottom => f.y + f.rows == c.y + c.rows && f.x == c.x && f.cols == c.cols
  }

  lemma CavityAtUnfolds(items: seq<Item>, cavity: Rect, i: nat)
    requires 0 < i <= |items| == |Frames(items, cavity)|
    ensures var rest, left := items[1..], Cut(items, cavity).1;
            && |Frames(rest, left)| == |rest|
            && CavityAt(items, Frames(items, cavity), cavity, i) == CavityAt(rest, Frames(rest, left), left, i - 1)
  {
    assert Frames(items, cavity)[1..] == Frames(items[1..], Cut(items, cavity).1);
    hide FirstLength, ColSlots, RowSlots;
  }

  /** Every frame lies along its own side of what the frames before it have left of the cavity, and what
      is left in the end is the cavity without all of them. */
  lemma {:induction false} FramesFromSides(items: seq<Item>, cavity: Rect, i: nat)
    requires i <= |items|
    ensures var fs := Frames(items, cavity);
            && |fs| == |items|
            && (i < |items| ==> OnItsSide(items[i].attach, fs[i], CavityAt(items, fs, cavity, i)))
            && Rest(items, cavity) == CavityAt(items, fs, cavity, |items|)
    decreases |items|
  {
    FramesCount(items, cavity);
    if items != [] {
      CavityAtUnfolds(items, cavity, |items|);
      if 0 < i { CavityAtUnfolds(items, cavity, i); }
      FramesFromSides(items[1..], Cut(items, cavity).1, if i == 0 then 0 else i - 1);
      hide CavityAt;
      if i == 0 { NothingTaken(items, Frames(items, cavity), cavity); }
    }
  }

  lemma NothingTaken(items: seq<Item>, fs: seq<Rect>, cavity: Rect)
    ensures CavityAt(items, fs, cavity, 0) == cavity
  {
  }

  /** Along its axis a frame has the length its child asks for, an expanding one the greatest common
      growth of the children still to be placed more, and never more than there is. */
  lemma {:induction false} FrameLengths(items: seq<Item>, cavity: Rect, i: nat, e: int)
    requires Sizes(items) && i < |items|
    requires |Frames(items, cavity)| == |items|
    requires var c := CavityAt(items, Frames(items, cavity), cavity, i);
             if !items[i].expand then e == 0
             else if items[i].attach == Top || items[i].attach == Bottom then
               GreatestGrowth(RowSlots(items[i..]), c.rows, e)
             else GreatestGrowth(ColSlots(items[i..]), c.cols, e)
    ensures var f, c := Frames(items, cavity)[i], CavityAt(items, Frames(items, cavity), cavity, i);
            if items[i].attach == Top || items[i].attach == Bottom then f.rows == Min(items[i].rows + e, c.rows)
            else f.cols == Min(items[i].cols + e, c.cols)
    decreases |items|
  {
    if i == 0 {
      assert items[0..] == items;
      NothingTaken(items, Frames(items, cavity), cavity);
      hide CavityAt;
      FirstFrameLength(items, cavity, e);
    } else {
      CavityAtUnfolds(items, cavity, i);
      assert items[1..][i - 1..] == items[i..];
      hide CavityAt, Cut;
      FrameLengths(items[1..], Cut(items, cavity).1, i - 1, e);
    }
  }

  lemma FirstFrameLength(items: seq<Item>, cavity: Rect, e: int)
    requires Sizes(items) && items != []
    requires if !items[0].expand then e == 0
             else if items[0].attach == Top || items[0].attach == Bottom then
               GreatestGrowth(RowSlots(items), cavity.rows, e)
             else GreatestGrowth(ColSlots(items), cavity.cols, e)
    ensures var f := Cut(items, cavity).0;
            if items[0].attach == Top || items[0].attach == Bottom then f.rows == Min(items[0].rows + e, cavity.rows)
            else f.cols == Min(items[0].cols + e, cavity.cols)
  {
    if items[0].expand {
      if items[0].attach == Top || items[0].attach == Bottom {
        GrowthIsGreatest(RowSlots(items), cavity.rows);
        GreatestGrowthUnique(RowSlots(items), cavity.rows, Growth(RowSlots(items), cavity.rows), e);
      } else {
        GrowthIsGreatest(ColSlots(items), cavity.cols);
        GreatestGrowthUnique(ColSlots(items), cavity.cols, Growth(ColSlots(items), cavity.cols), e);
      }
    }
  }

  /** r lies within the cavity, edge by edge. */
  predicate EdgesWithin(r: Rect, c: Rect) {
    c.x <= r.x && r.x + r.cols <= c.x + c.cols && c.y <= r.y && r.y + r.rows <= c.y + c.rows
  }

  /** r lies on the given side of r', with nothing of r' past it on that side. */
  predicate OnSide(side: Attach, r: Rect, r': Rect) {
    match side
    case Left => r.x + r.cols <= r'.x
    case Right => r'.x + r'.cols <= r.x
    case Top => r.y + r.rows <= r'.y
    case Bottom => r'.y + r'.rows <= r.y
  }

  /** The frame of child j, or what is left after all children. */
  function FrameOrRest(items: seq<Item>, cavity: Rect, j: nat): Rect {
    if j < |Frames(items, cavity)| then Frames(items, cavity)[j] else Rest(items, cavity)
  }

  /** The first frame lies along its own side of the cavity, and what is left on the other side of it. */
  lemma CutWithin(items: seq<Item>, cavity: Rect)
    requires items != [] && Sizes(items) && 0 <= cavity.cols && 0 <= cavity.rows
    ensures var (f, c) := Cut(items, cavity);
            && OnItsSide(items[0].attach, f, cavity) && OnSide(items[0].attach, f, c)
            && 0 <= c.cols && 0 <= c.rows && EdgesWithin(f, cavity) && EdgesWithin(c, cavity)
  {
    if items[0].attach.Vertical() {
      FirstLengthServes(RowSlots(items), cavity.rows);
    } else {
      FirstLengthServes(ColSlots(items), cavity.cols);
    }
    hide FirstLength, ColSlots, RowSlots;
  }

  lemma {:induction false} FramesWithin(items: seq<Item>, cavity: Rect, j: nat)
    requires Sizes(items) && 0 <= cavity.cols && 0 <= cavity.rows && j <= |items|
    ensures EdgesWithin(FrameOrRest(items, cavity, j), cavity)
    decreases |items|
  {
    FramesCount(items, cavity);
    if items != [] {
      CutWithin(items, cavity);
      FramesCount(items[1..], Cut(items, cavity).1);
      hide Cut;
      if 0 < j { FramesWithin(items[1..], Cut(items, cavity).1, j - 1); }
    }
  }

  /** A frame attached to a side lies on that side of every later frame, and of what is left: two
      children attached left come out from left to right. */
  lemma {:induction false} FramesInOrder(items: seq<Item>, cavity: Rect, i: nat, j: nat)
    requires Sizes(items) && 0 <= cavity.cols && 0 <= cavity.rows && i < j <= |items|
    ensures OnSide(items[i].attach, FrameOrRest(items, cavity, i), FrameOrRest(items, cavity, j))
    decreases |items|
  {
    FramesCount(items, cavity);
    CutWithin(items, cavity);
    FramesCount(items[1..], Cut(items, cavity).1);
    hide Cut;
    if i == 0 {
      FramesWithin(items[1..], Cut(items, cavity).1, j - 1);
    } else {
      FramesInOrder(items[1..], Cut(items, cavity).1, i - 1, j - 1);
    }
  }

  // ----- Slack

  /** Length left over along one axis when all slots have been served in order. */
  function Leftover(ss: seq<Slot>, cavity: int): int {
    if ss == [] then cavity
    else Leftover(ss[1..], if ss[0].along then cavity - FirstLength(ss, cavity) else cavity)
  }

  lemma {:induction false} RestIsLeftover(items: seq<Item>, cavity: Rect)
    ensures Rest(items, cavity).cols == Leftover(ColSlots(items), cavity.cols)
    ensures Rest(items, cavity).rows == Leftover(RowSlots(items), cavity.rows)
    decreases |items|
  {
    if items != [] {
      SlotsTail(items);
      RestIsLeftover(items[1..], Cut(items, cavity).1);
    }
  }

  ghost predicate SomeExpands(ss: seq<Slot>) {
    exists i :: 0 <= i < |ss| && ss[i].expand
  }

  /** Slots all along the axis that fit, one of them at least expanding, use up the whole length. */
  lemma {:induction false} NoSlackLeft(ss: seq<Slot>, cavity: int)
    requires NonNegative(ss) && Need(ss) <= cavity
    requires forall i :: 0 <= i < |ss| ==> ss[i].along
    requires SomeExpands(ss) || Need(ss) == cavity
    ensures Leftover(ss, cavity) == 0
    decreases |ss|
  {
    if ss != [] {
      NeedNonNegative(ss[1..]);
      FirstLengthServes(ss, cavity);
      if !SomeExpands(ss[1..]) {
        OnlyFirstExpands(ss, cavity);
      }
      NoSlackLeft(ss[1..], cavity - FirstLength(ss, cavity));
    }
  }

  lemma SomeExpandsTail(ss: seq<Slot>)
    requires ss != []
    ensures SomeExpands(ss) <==> ss[0].expand || SomeExpands(ss[1..])
  {
    assert ss == [ss[0]] + ss[1..];
    if SomeExpands(ss[1..]) {
      var i :| 0 <= i < |ss[1..]| && ss[1..][i].expand;
      assert ss[i + 1].expand;
    }
  }

  /** With no expanding slot after it, the first slot takes all the slack. */
  lemma OnlyFirstExpands(ss: seq<Slot>, cavity: int)
    requires ss != [] && ss[0].along && NonNegative(ss) && Need(ss) <= cavity
    requires !SomeExpands(ss[1..])
    requires SomeExpands(ss) || Need(ss) == cavity
    ensures Need(ss[1..]) == cavity - FirstLength(ss, cavity)
  {
    SomeExpandsTail(ss);
    NeedNonNegative(ss[1..]);
    if ss[0].expand {
      FirstTakesSlack(ss, cavity);
    }
  }

  lemma FirstTakesSlack(ss: seq<Slot>, cavity: int)
    requires ss != [] && ss[0].along && ss[0].expand && NonNegative(ss) && Need(ss) <= cavity
    requires !SomeExpands(ss[1..])
    ensures ss[0].size + Growth(ss, cavity) + Need(ss[1..]) == cavity
  {
    hide Need, Grow, Growth;
    var e := Growth(ss, cavity);
    GrowthIsGreatest(ss, cavity);
    GrowFirst(ss, e);
    GrowFirst(ss, e + 1);
    NothingExpands(ss[1..], e);
    NothingExpands(ss[1..], e + 1);
  }

  lemma {:induction false} NothingExpands(ss: seq<Slot>, e: int)
    requires forall i :: 0 <= i < |ss| ==> !ss[i].expand
    ensures Grow(ss, e) == ss
  {
    if ss != [] { NothingExpands(ss[1..], e); }
  }
}

/** The dialog packer on widgets in place. A widget's fields that packing updates are kept in one
    record, and so are those it only reads; children and parent links form a tree. */
module Dialog {
  import opened Basics
  import opened BoxPacking
  import opened DialogLayout
  import opened LayoutPasses
  import LayoutFixpoint

  class Widget {
    const cfg: Config
    var st: State
    var children: seq<Widget>
    var parent: Widget?

    constructor (cfg: Config, st: State)
      ensures this.cfg == cfg && this.st == st && children == [] && parent == null
    {
      this.cfg, this.st, children, parent := cfg, st, [], null;
    }
  }

  ghost function ItemsOf(ws: seq<Widget>): (items: seq<Item>)
    reads ws
    ensures |items| == |ws|
    ensures forall i :: 0 <= i < |ws| ==> items[i] == ItemOf(ws[i].cfg, ws[i].st)
  {
    if ws == [] then [] else [ItemOf(ws[0].cfg, ws[0].st)] + ItemsOf(ws[1..])
  }

  // ----- Sharing out slack

  ghost function Along(ss: seq<Slot>): int {
    if ss == [] then 0 else Along(ss[..|ss| - 1]) + if ss[|ss| - 1].along then ss[|ss| - 1].size else 0
  }

  /** What the expansion loop knows after the slots before j: `left` is the length not yet taken by
      slots along the axis, `num` the number of expanding ones, `least` the smallest share so far. */
  ghost predicate Sharing(ss: seq<Slot>, cavity: int, j: nat, left: int, num: int, least: int) {
    && j <= |ss| && 0 <= num && (0 < j ==> 0 < num)
    && (forall e :: 1 <= e ==>
          (Need(Grow(ss, e)) <= cavity <==> e <= least && Taken(num, e) + Need(Grow(ss[j..], e)) <= left))
    && (Need(ss) <= cavity ==> 0 <= least && Need(ss[j..]) <= left)
    && (cavity < Need(ss) ==> least <= 0 || left < Need(ss[j..]))
  }

  ghost function Taken(num: int, e: int): int { num * e }

  lemma Scale(num: int, a: int, b: int)
    requires 0 <= num && a <= b
    ensures num * a <= num * b
  {
  }

  lemma TruncBound(c: int, num: int, e: int)
    requires 0 < num && 1 <= e
    ensures e <= Trunc(c, num) <==> Taken(num, e) <= c
    ensures 0 <= c ==> 0 <= Trunc(c, num)
    ensures c < 0 ==> Trunc(c, num) <= 0
  {
    if c < 0 {
      Scale(num, 0, e);
      QuotientNotNegative(-c, num);
    } else {
      QuotientBound(c, num, e);
      QuotientNotNegative(c, num);
    }
  }

  lemma QuotientNotNegative(c: nat, num: int)
    requires 0 < num
    ensures 0 <= c / num
  {
  }

  /** c / num is the most that num shares of c can be. */
  lemma QuotientBound(c: nat, num: int, e: int)
    requires 0 < num
    ensures e <= c / num <==> num * e <= c
  {
    var q := c / num;
    assert num * q <= c < num * q + num;
    if e <= q {
      Scale(num, e, q);
    } else {
      Scale(num, q + 1, e);
      assert num * (q + 1) == num * q + num;
    }
  }

  lemma SharingStarts(ss: seq<Slot>, cavity: int)
    requires ss != [] && ss[0].along && ss[0].expand && NonNegative(ss)
    ensures Sharing(ss, cavity, 0, cavity, 0, cavity)
  {
    NeedNonNegative(ss);
    forall e | 1 <= e ensures Need(Grow(ss, e)) <= cavity ==> e <= cavity {
      GrowFirst(ss, e);
      GrowMonotone(ss[1..], 0, e);
      GrowNothing(ss[1..]);
      NeedNonNegative(ss[1..]);
    }
    assert ss[0..] == ss;
  }

  lemma SharingAlong(ss: seq<Slot>, cavity: int, j: nat, left: int, num: int, least: int)
    requires Sharing(ss, cavity, j, left, num, least) && j < |ss| && ss[j].along && NonNegative(ss)
    requires j == 0 ==> ss[j].expand
    ensures Sharing(ss, cavity, j + 1, left - ss[j].size, if ss[j].expand then num + 1 else num, least)
  {
    var num' := if ss[j].expand then num + 1 else num;
    assert ss[j..][1..] == ss[j + 1..];
    forall e | 1 <= e
      ensures Taken(num, e) + Need(Grow(ss[j..], e)) <= left <==>
              Taken(num', e) + Need(Grow(ss[j + 1..], e)) <= left - ss[j].size
    {
    }
  }

  lemma SharingAcross(ss: seq<Slot>, cavity: int, j: nat, left: int, num: int, least: int)
    requires Sharing(ss, cavity, j, left, num, least) && 0 < j < |ss| && !ss[j].along && NonNegative(ss)
    ensures Sharing(ss, cavity, j + 1, left, num, Min(least, Trunc(left - ss[j].size, num)))
  {
    var least' := Min(least, Trunc(left - ss[j].size, num));
    assert ss[j..][1..] == ss[j + 1..];
    TruncBound(left - ss[j].size, num, 1);
    forall e | 1 <= e
      ensures e <= least && Taken(num, e) + Need(Grow(ss[j..], e)) <= left <==>
              e <= least' && Taken(num, e) + Need(Grow(ss[j + 1..], e)) <= left
    {
      TruncBound(left - ss[j].size, num, e);
      GrowFirstAcross(ss[j..], e);
      hide Grow, Need, Trunc, Taken;
    }
  }

  lemma SharingEnds(ss: seq<Slot>, cavity: int, left: int, num: int, least: int)
    requires ss != [] && ss[0].along && ss[0].expand && NonNegative(ss)
    requires Sharing(ss, cavity, |ss|, left, num, least)
    ensures Growth(ss, cavity) == Max(0, Min(least, Trunc(left, num)))
  {
    var r := Max(0, Min(least, Trunc(left, num)));
    assert ss[|ss|..] == [];
    TruncBound(left, num, 1);
    TruncBound(left, num, r + 1);
    if r > 0 { TruncBound(left, num, r); }
    GrowNothing(ss);
    GrowthIsGreatest(ss, cavity);
    GreatestGrowthUnique(ss, cavity, r, Growth(ss, cavity));
  }

  /** Extra columns for the first of the siblings, which is attached left or right and expands. */
  method PackExpandX(siblings: seq<Widget>, cavity: int) returns (r: int)
    requires siblings != [] && !siblings[0].cfg.attach.Vertical() && siblings[0].cfg.expand
    requires Sizes(ItemsOf(siblings))
    ensures r == Growth(ColSlots(ItemsOf(siblings)), cavity)
  {
    hide Sharing, Need, Grow, Growth;
    ghost var ss := ColSlots(ItemsOf(siblings));
    SharingStarts(ss, cavity);
    var left, num, least, j := cavity, 0, cavity, 0;
    while j < |siblings|
      invariant j <= |siblings| && 0 <= num && (0 < j ==> 0 < num)
      invariant Sharing(ss, cavity, j, left, num, least)
    {
      var w := siblings[j];
      var size := ReqCols(w.cfg, w.st) + PaddingCols(w.cfg);
      if w.cfg.attach.Vertical() {
        SharingAcross(ss, cavity, j, left, num, least);
        var cur := Trunc(left - size, num);
        if cur < least {
          least := cur;
        }
      } else {
        SharingAlong(ss, cavity, j, left, num, least);
        left := left - size;
        if w.cfg.expand {
          num := num + 1;
        }
      }
      j := j + 1;
    }
    SharingEnds(ss, cavity, left, num, least);
    var cur := Trunc(left, num);
    if cur < least {
      least := cur;
    }
    r := if least < 0 then 0 else least;
  }

  /** Extra rows for the first of the siblings, which is attached at the top or bottom and expands. */
  method PackExpandY(siblings: seq<Widget>, cavity: int) returns (r: int)
    requires siblings != [] && siblings[0].cfg.attach.Vertical() && siblings[0].cfg.expand
    requires Sizes(ItemsOf(siblings))
    ensures r == Growth(RowSlots(ItemsOf(siblings)), cavity)
  {
    hide Sharing, Need, Grow, Growth;
    ghost var ss := RowSlots(ItemsOf(siblings));
    SharingStarts(ss, cavity);
    var left, num, least, j := cavity, 0, cavity, 0;
    while j < |siblings|
      invariant j <= |siblings| && 0 <= num && (0 < j ==> 0 < num)
      invariant Sharing(ss, cavity, j, left, num, least)
    {
      var w := siblings[j];
      var size := ReqRows(w.cfg, w.st) + PaddingRows(w.cfg);
      if !w.cfg.attach.Vertical() {
        SharingAcross(ss, cavity, j, left, num, least);
        var cur := Trunc(left - size, num);
        if cur < least {
          least := cur;
        }
      } else {
        SharingAlong(ss, cavity, j, left, num, least);
        left := left - size;
        if w.cfg.expand {
          num := num + 1;
        }
      }
      j := j + 1;
    }
    SharingEnds(ss, cavity, left, num, least);
    var cur := Trunc(left, num);
    if cur < least {
      least := cur;
    }
    r := if least < 0 then 0 else least;
  }

  // ----- Pass 1: the size a container wants

  /** What the scan knows with the children before i done: nothing is lost of what all of them want. */
  ghost predicate Scanned(cfg: Config, items: seq<Item>, i: nat, cols: int, rows: int, maxCols: int, maxRows: int) {
    && i <= |items|
    && if cfg.tab then
         && maxCols == maxRows == Border(cfg)
         && MaxCols(items[i..], cols) == WantCols(cfg, items) && MaxRows(items[i..], rows) == WantRows(cfg, items)
       else
         && Max(maxCols, cols + Need(ColSlots(items[i..]))) == WantCols(cfg, items)
         && Max(maxRows, rows + Need(RowSlots(items[i..]))) == WantRows(cfg, items)
  }

  lemma ScanStarts(cfg: Config, items: seq<Item>)
    requires Sizes(items)
    ensures Scanned(cfg, items, 0, Border(cfg), Border(cfg), Border(cfg), Border(cfg))
  {
    assert items[0..] == items;
    NeedNonNegative(ColSlots(items));
    NeedNonNegative(RowSlots(items));
  }

  lemma ScanStep(cfg: Config, items: seq<Item>, i: nat, cols: int, rows: int, maxCols: int, maxRows: int)
    requires Scanned(cfg, items, i, cols, rows, maxCols, maxRows) && i < |items|
    ensures var k := items[i];
            if cfg.tab then Scanned(cfg, items, i + 1, Max(k.cols, cols), Max(k.rows, rows), maxCols, maxRows)
            else if k.attach.Vertical() then Scanned(cfg, items, i + 1, cols, rows + k.rows,
                Max(maxCols, k.cols + cols), maxRows)
            else Scanned(cfg, items, i + 1, cols + k.cols, rows, maxCols, Max(maxRows, k.rows + rows))
  {
    SlotsTail(items[i..]);
    assert items[i..][1..] == items[i + 1..];
  }

  lemma ScanEnds(cfg: Config, items: seq<Item>, cols: int, rows: int, maxCols: int, maxRows: int)
    requires Scanned(cfg, items, |items|, cols, rows, maxCols, maxRows)
    ensures Max(maxCols, cols) == WantCols(cfg, items) && Max(maxRows, rows) == WantRows(cfg, items)
  {
    LayoutFixpoint.MaxAtLeast(items, Border(cfg), Border(cfg));
    assert items[|items|..] == [];
  }

  /** Scans the children for the space they need in all. */
  method ScanNeeds(w: Widget) returns (maxCols: int, maxRows: int)
    requires Sizes(ItemsOf(w.children))
    ensures maxCols == WantCols(w.cfg, ItemsOf(w.children)) && maxRows == WantRows(w.cfg, ItemsOf(w.children))
  {
    hide Scanned, WantCols, WantRows, ReqCols, ReqRows, PaddingCols, PaddingRows, Border;
    ghost var items := ItemsOf(w.children);
    var cols, rows, i := Border(w.cfg), Border(w.cfg), 0;
    maxCols, maxRows := cols, rows;
    ScanStarts(w.cfg, items);
    while i < |w.children|
      invariant i <= |w.children|
      invariant Scanned(w.cfg, items, i, cols, rows, maxCols, maxRows)
    {
      var k := w.children[i];
      ScanStep(w.cfg, items, i, cols, rows, maxCols, maxRows);
      var reqCols, reqRows := ReqCols(k.cfg, k.st) + PaddingCols(k.cfg), ReqRows(k.cfg, k.st) + PaddingRows(k.cfg);
      if w.cfg.tab {
        if reqCols > cols { cols := reqCols; }
        if reqRows > rows { rows := reqRows; }
      } else if k.cfg.attach.Vertical() {
        if reqCols + cols > maxCols { maxCols := reqCols + cols; }
        rows := rows + reqRows;
      } else {
        if reqRows + rows > maxRows { maxRows := reqRows + rows; }
        cols := cols + reqCols;
      }
      i := i + 1;
    }
    ScanEnds(w.cfg, items, cols, rows, maxCols, maxRows);
    if cols > maxCols { maxCols := cols; }
    if rows > maxRows { maxRows := rows; }
  }

  // ----- The way up

  /** up lists the containers of w, innermost first. */
  ghost predicate Chain(w: Widget, up: seq<Widget>)
    reads w`parent, (set u | u in up)`parent
  {
    if up == [] then w.parent == null else w.parent == up[0] && Chain(up[0], up[1..])
  }

  /** Records a new request and marks the widget and everything above it for repacking. */
  method RequestResize(w: Widget, rows: int, cols: int, ghost up: seq<Widget>)
    requires Chain(w, up) && w !in up
    modifies w`st, (set u | u in up)`st
    ensures w.st == old(w.st).(resize := true, repack := true, reqrows := rows - Border(w.cfg),
            reqcols := cols - Border(w.cfg))
    ensures forall u <- up :: u.st == old(u.st).(repack := true)
  {
    w.st := w.st.(resize := true, reqrows := rows - Border(w.cfg), reqcols := cols - Border(w.cfg));
    w.st := w.st.(repack := true);
    var p: Widget? := w.parent;
    ghost var i := 0;
    while p != null
      invariant i <= |up|
      invariant p == if i < |up| then up[i] else null
      invariant i < |up| ==> Chain(up[i], up[i + 1..])
      invariant w.st == old(w.st).(resize := true, repack := true, reqrows := rows - Border(w.cfg),
                reqcols := cols - Border(w.cfg))
      invariant forall u <- up :: u.st == old(u.st) || u.st == old(u.st).(repack := true)
      invariant forall j :: 0 <= j < i ==> up[j].st == old(up[j].st).(repack := true)
      decreases |up| - i
    {
      p.st := p.st.(repack := true);
      p := p.parent;
      i := i + 1;
    }
  }

  // ----- Pass 2: placing the children

  /** Cuts the frame of the first sibling out of the cavity. */
  method CutFrame(siblings: seq<Widget>, cavity: Rect) returns (frame: Rect, left: Rect)
    requires siblings != [] && Sizes(ItemsOf(siblings))
    ensures (frame, left) == Cut(ItemsOf(siblings), cavity)
    ensures 0 <= cavity.cols && 0 <= cavity.rows ==>
              && OnItsSide(siblings[0].cfg.attach, frame, cavity) && OnSide(siblings[0].cfg.attach, frame, left)
              && EdgesWithin(frame, cavity) && EdgesWithin(left, cavity)
  {
    hide Growth;
    if 0 <= cavity.cols && 0 <= cavity.rows { CutWithin(ItemsOf(siblings), cavity); }
    var w := siblings[0];
    var Rect(cavityX, cavityY, cavityCols, cavityRows) := cavity;
    var frameX, frameY, frameCols, frameRows;
    if w.cfg.attach.Vertical() {
      frameCols := cavityCols;
      frameRows := ReqRows(w.cfg, w.st) + PaddingRows(w.cfg);
      if w.cfg.expand {
        var more := PackExpandY(siblings, cavityRows);
        frameRows := frameRows + more;
      }
      cavityRows := cavityRows - frameRows;
      if cavityRows < 0 {
        frameRows := frameRows + cavityRows;
        cavityRows := 0;
      }
      frameX := cavityX;
      if w.cfg.attach == Top {
        frameY := cavityY;
        cavityY := cavityY + frameRows;
      } else {
        frameY := cavityY + cavityRows;
      }
    } else {
      frameRows := cavityRows;
      frameCols := ReqCols(w.cfg, w.st) + PaddingCols(w.cfg);
      if w.cfg.expand {
        var more := PackExpandX(siblings, cavityCols);
        frameCols := frameCols + more;
      }
      cavityCols := cavityCols - frameCols;
      if cavityCols < 0 {
        frameCols := frameCols + cavityCols;
        cavityCols := 0;
      }
      frameY := cavityY;
      if w.cfg.attach == Left {
        frameX := cavityX;
        cavityX := cavityX + frameCols;
      } else {
        frameX := cavityX + cavityCols;
      }
    }
    frame := Rect(frameX, frameY, frameCols, frameRows);
    left := Rect(cavityX, cavityY, cavityCols, cavityRows);
  }

  /** Takes up a new geometry; the resize notification to the widget is not modelled. */
  method Resize(w: Widget, x: int, y: int, cols: int, rows: int)
    modifies w`st
    ensures w.st == old(w.st).(x := x, y := y, cols := cols, rows := rows)
  {
    if x != w.st.x || y != w.st.y || cols != w.st.cols || rows != w.st.rows {
      w.st := w.st.(x := x, y := y, cols := cols, rows := rows);
    }
  }

  /** Where a child of the given size goes in its frame. */
  method Anchor(c: Config, frame: Rect, cols: int, rows: int) returns (x: int, y: int)
    ensures x == frame.x + Across(c.align, c.padx, frame.cols, cols)
    ensures y == frame.y + Down(c.align, c.pady, frame.rows, rows)
  {
    var midX := frame.x + Trunc(c.padx + frame.cols - cols - c.padx, 2);
    var midY := frame.y + Trunc(c.pady + frame.rows - rows - c.pady, 2);
    var rightX := frame.x + frame.cols - cols - c.padx;
    var bottomY := frame.y + frame.rows - rows - c.pady;
    match c.align {
      case N => x, y := midX, frame.y + c.pady;
      case NE => x, y := rightX, frame.y + c.pady;
      case E => x, y := rightX, midY;
      case SE => x, y := rightX, bottomY;
      case S => x, y := midX, bottomY;
      case SW => x, y := frame.x + c.padx, bottomY;
      case W => x, y := frame.x + c.padx, midY;
      case NW => x, y := frame.x + c.padx, frame.y + c.pady;
      case Center => x, y := midX, midY;
    }
  }

  /** Sizes and places a child in its frame. */
  method PlaceChild(w: Widget, frame: Rect)
    modifies w`st
    ensures w.st == Placed(w.cfg, old(w.st), frame)
  {
    hide Across, Down, ReqCols, ReqRows;
    var c := w.cfg;
    var cols := ReqCols(c, w.st) + c.ipadx * 2;
    var rows := ReqRows(c, w.st) + c.ipady * 2;
    if cols > frame.cols - c.padx {
      cols := frame.cols - c.padx;
    } else if c.fillx {
      cols := frame.cols - c.padx;
    }
    if rows > frame.rows - c.pady {
      rows := frame.rows - c.pady;
    } else if c.filly {
      rows := frame.rows - c.pady;
    }
    var x, y := Anchor(c, frame, cols, rows);
    assert Outer(c, w.st, frame) == Rect(x, y, cols, rows);
    cols := cols - Border(c);
    rows := rows - Border(c);
    if cols <= 0 || rows <= 0 {
      w.st := w.st.(hidden := true);
    } else {
      Resize(w, x, y, cols, rows);
      w.st := w.st.(hidden := false);
    }
  }

  ghost predicate Distinct(ws: seq<Widget>) {
    forall i, j :: 0 <= i < j < |ws| ==> ws[i] != ws[j]
  }

  /** The next frame and the cavity after it. Tabs lie on top of each other in the cavity. */
  ghost function NextFrame(cfg: Config, items: seq<Item>, cavity: Rect): (Rect, Rect)
    requires items != []
  {
    if cfg.tab then (Rect(cavity.x, cavity.y, items[0].cols, items[0].rows), cavity) else Cut(items, cavity)
  }

  /** The frames from i on are still to be cut out of the cavity. */
  ghost predicate StillToCut(cfg: Config, items: seq<Item>, fs: seq<Rect>, i: nat, cavity: Rect) {
    && i <= |items| == |fs|
    && if cfg.tab then cavity.x == cavity.y == cfg.border else Frames(items[i..], cavity) == fs[i..]
  }

  lemma CuttingStarts(cfg: Config, st: State, items: seq<Item>)
    ensures StillToCut(cfg, items, FramesOf(cfg, st, items), 0, Cavity(cfg, st))
  {
    assert items[0..] == items && FramesOf(cfg, st, items)[0..] == FramesOf(cfg, st, items);
  }

  lemma CuttingStep(cfg: Config, st: State, items: seq<Item>, i: nat, cavity: Rect)
    requires i < |items| && StillToCut(cfg, items, FramesOf(cfg, st, items), i, cavity)
    ensures NextFrame(cfg, items[i..], cavity).0 == FramesOf(cfg, st, items)[i]
    ensures StillToCut(cfg, items, FramesOf(cfg, st, items), i + 1, NextFrame(cfg, items[i..], cavity).1)
  {
    var fs := FramesOf(cfg, st, items);
    assert items[i..][1..] == items[i + 1..] && fs[i..][1..] == fs[i + 1..] && fs[i..][0] == fs[i];
  }

  lemma ItemsOfRest(ws: seq<Widget>, i: nat, items: seq<Item>)
    requires i <= |ws| == |items|
    requires forall j :: i <= j < |ws| ==> items[j] == ItemOf(ws[j].cfg, ws[j].st)
    ensures ItemsOf(ws[i..]) == items[i..]
  {
    hide ItemOf;
    forall j | 0 <= j < |ws| - i ensures ItemsOf(ws[i..])[j] == items[i..][j] {
      assert ws[i..][j] == ws[i + j];
    }
  }

  /** Places all children, each in its frame. */
  method PlaceChildren(w: Widget)
    requires Distinct(w.children) && w !in w.children && Sizes(ItemsOf(w.children))
    modifies (set k | k in w.children)`st
    ensures forall i :: 0 <= i < |w.children| ==>
              w.children[i].st == Placed(w.children[i].cfg, old(w.children[i].st),
                  FramesOf(w.cfg, w.st, old(ItemsOf(w.children)))[i])
  {
    hide Placed, StillToCut, FramesOf, NextFrame, ItemOf;
    ghost var items := ItemsOf(w.children);
    ghost var fs := FramesOf(w.cfg, w.st, items);
    var cavity, i := Rect(w.cfg.border, w.cfg.border, w.st.cols, w.st.rows), 0;
    CuttingStarts(w.cfg, w.st, items);
    while i < |w.children|
      invariant i <= |w.children|
      invariant StillToCut(w.cfg, items, fs, i, cavity)
      invariant forall j :: 0 <= j < i ==> w.children[j].st == Placed(w.children[j].cfg, old(w.children[j].st), fs[j])
      invariant forall j :: i <= j < |w.children| ==> w.children[j].st == old(w.children[j].st)
    {
      var frame;
      frame, cavity := TakeFrame(w, i, cavity, items);
      PlaceChild(w.children[i], frame);
      i := i + 1;
    }
  }

  /** Takes the frame of child i, the children after it being still to be placed. */
  method TakeFrame(w: Widget, i: nat, cavity: Rect, ghost items: seq<Item>) returns (frame: Rect, left: Rect)
    requires i < |w.children| == |items| && Sizes(items)
    requires forall j :: i <= j < |items| ==> items[j] == ItemOf(w.children[j].cfg, w.children[j].st)
    requires StillToCut(w.cfg, items, FramesOf(w.cfg, w.st, items), i, cavity)
    ensures frame == FramesOf(w.cfg, w.st, items)[i]
    ensures StillToCut(w.cfg, items, FramesOf(w.cfg, w.st, items), i + 1, left)
  {
    hide StillToCut, FramesOf;
    var siblings := w.children[i..];
    ItemsOfRest(w.children, i, items);
    CuttingStep(w.cfg, w.st, items, i, cavity);
    if w.cfg.tab {
      var k := siblings[0];
      left := cavity;
      frame := Rect(cavity.x, cavity.y, ReqCols(k.cfg, k.st) + PaddingCols(k.cfg),
          ReqRows(k.cfg, k.st) + PaddingRows(k.cfg));
    } else {
      frame, left := CutFrame(siblings, cavity);
    }
  }

  /** Children that are shown lie inside the border of their container, each on its side of those after it. */
  ghost predicate InOrder(w: Widget)
    reads w, w.children
  {
    forall i, j :: 0 <= i < j < |w.children| && !w.children[i].st.hidden && !w.children[j].st.hidden ==>
      var (k, l) := (w.children[i], w.children[j]);
      var inside := Rect(w.cfg.border, w.cfg.border, w.st.cols, w.st.rows);
      && OnSide(k.cfg.attach, Shown(k.cfg, k.st), Shown(l.cfg, l.st))
      && EdgesWithin(Shown(k.cfg, k.st), inside) && EdgesWithin(Shown(l.cfg, l.st), inside)
  }

  ghost predicate Roomy(w: Widget)
    reads w, w.children
  {
    && 0 <= w.st.cols && 0 <= w.st.rows
    && forall k <- w.children :: 0 <= k.cfg.padx && 0 <= k.cfg.pady && 0 <= k.cfg.border
  }

  /** Packs one container: asks for the size its children want, or places them. */
  method Packer(w: Widget, ghost up: seq<Widget>)
    requires Chain(w, up) && w !in up
    requires Distinct(w.children) && w !in w.children && (forall k <- w.children :: k !in up)
    requires Sizes(ItemsOf(w.children))
    modifies w`st, (set k | k in w.children)`st, (set u | u in up)`st
    ensures var items := old(ItemsOf(w.children));
            if w.children == [] then w.st == old(w.st) && forall u <- up :: u.st == old(u.st)
            else if Requests(w.cfg, old(w.st), items) then
              && w.st == Requested(w.cfg, old(w.st), items)
              && (forall u <- up :: u.st == old(u.st).(repack := true))
              && (forall k <- w.children :: k.st == old(k.st))
            else
              && w.st == old(w.st) && (forall u <- up :: u.st == old(u.st))
              && forall i :: 0 <= i < |w.children| ==>
                   w.children[i].st == Placed(w.children[i].cfg, old(w.children[i].st), FramesOf(w.cfg, w.st, items)[i])
    ensures !w.cfg.tab && old(Roomy(w)) && !Requests(w.cfg, old(w.st), old(ItemsOf(w.children))) ==> InOrder(w)
  {
    hide WantCols, WantRows, FramesOf, Placed, OnSide, EdgesWithin;
    if w.children == [] {
      return;
    }
    var maxCols, maxRows := ScanNeeds(w);
    if w.cfg.propagate {
      if maxCols != ReqCols(w.cfg, w.st) || maxRows != ReqRows(w.cfg, w.st) {
        RequestResize(w, maxRows, maxCols, up);
        return;
      }
    }
    ghost var items := ItemsOf(w.children);
    PlaceChildren(w);
    if !w.cfg.tab && Roomy(w) {
      forall i, j | 0 <= i < j < |w.children| && !w.children[i].st.hidden && !w.children[j].st.hidden
        ensures var inside := Rect(w.cfg.border, w.cfg.border, w.st.cols, w.st.rows);
                && OnSide(w.children[i].cfg.attach, Shown(w.children[i].cfg, w.children[i].st),
                       Shown(w.children[j].cfg, w.children[j].st))
                && EdgesWithin(Shown(w.children[i].cfg, w.children[i].st), inside)
                && EdgesWithin(Shown(w.children[j].cfg, w.children[j].st), inside)
      {
        ShownInOrder(w.cfg, w.st, items, i, j, w.children[i].cfg, old(w.children[i].st), w.children[j].cfg,
            old(w.children[j].st));
      }
    }
  }

  // ----- Trees of widgets

  /** The shape of a widget tree. */
  datatype Tree = Tree(w: Widget, kids: seq<Tree>)

  ghost function All(t: Tree): set<Widget>
    decreases t, 1
  {
    {t.w} + AllOf(t.kids)
  }

  ghost function AllOf(ts: seq<Tree>): set<Widget>
    decreases ts
  {
    if ts == [] then {} else All(ts[0]) + AllOf(ts[1..])
  }

  ghost function Roots(ts: seq<Tree>): (ws: seq<Widget>)
    ensures |ws| == |ts|
    ensures forall i :: 0 <= i < |ts| ==> ws[i] == ts[i].w
  {
    seq(|ts|, i requires 0 <= i < |ts| => ts[i].w)
  }

  /** The links of t's widgets form exactly t, under the container up, and no widget occurs twice. */
  ghost predicate Shape(t: Tree, up: Widget?)
    reads All(t)`children, All(t)`parent
    decreases t, 1
  {
    && t.w.parent == up && t.w.children == Roots(t.kids)
    && t.w !in AllOf(t.kids) && Shapes(t.kids, t.w)
  }

  ghost predicate Shapes(ts: seq<Tree>, up: Widget?)
    reads AllOf(ts)`children, AllOf(ts)`parent
    decreases ts
  {
    ts == [] || (Shape(ts[0], up) && All(ts[0]) !! AllOf(ts[1..]) && Shapes(ts[1..], up))
  }

  /** The tree as a value. */
  ghost function Abs(t: Tree): Node
    reads All(t)`st
    decreases t, 1
  {
    Node(t.w.cfg, t.w.st, AbsAll(t.kids))
  }

  ghost function AbsAll(ts: seq<Tree>): (ns: seq<Node>)
    reads AllOf(ts)`st
    ensures |ns| == |ts|
    decreases ts
  {
    if ts == [] then [] else [Abs(ts[0])] + AbsAll(ts[1..])
  }

  lemma {:induction false} AbsAllAt(ts: seq<Tree>, i: int)
    requires 0 <= i < |ts|
    ensures All(ts[i]) <= AllOf(ts) && AbsAll(ts)[i] == Abs(ts[i])
    decreases ts
  {
    if i > 0 { AbsAllAt(ts[1..], i - 1); }
  }

  /** Roots of siblings are distinct and occur in no sibling's inside. */
  lemma {:induction false} ShapesApart(ts: seq<Tree>, up: Widget?)
    requires Shapes(ts, up)
    ensures Distinct(Roots(ts))
    ensures forall i, j :: 0 <= i < |ts| && 0 <= j < |ts| ==> ts[i].w in AllOf(ts) && ts[i].w !in AllOf(ts[j].kids)
    ensures forall i :: 0 <= i < |ts| ==> AllOf(ts[i].kids) <= AllOf(ts)
    decreases ts
  {
    if ts != [] {
      ShapesApart(ts[1..], up);
      forall i | 0 < i < |ts| ensures ts[i] == ts[1..][i - 1] && All(ts[i]) <= AllOf(ts[1..]) {
        AbsAllAt(ts[1..], i - 1);
      }
    }
  }

  lemma ItemsOfAbs(ts: seq<Tree>)
    ensures ItemsOf(Roots(ts)) == Items(AbsAll(ts))
  {
    forall i | 0 <= i < |ts| ensures ItemsOf(Roots(ts))[i] == Items(AbsAll(ts))[i] {
      AbsAllAt(ts, i);
    }
  }

  lemma AbsAllIs(ts: seq<Tree>, ns: seq<Node>)
    requires |ns| == |ts| && forall i :: 0 <= i < |ts| ==> Abs(ts[i]) == ns[i]
    ensures AbsAll(ts) == ns
  {
    forall i | 0 <= i < |ts| ensures AbsAll(ts)[i] == ns[i] {
      AbsAllAt(ts, i);
    }
  }

  // ----- One pass over the tree

  /** Clears the marks; a new request is taken up. */
  method Unmark(w: Widget)
    modifies w`st
    ensures w.st == Cleared(old(w.st))
  {
    w.st := w.st.(repack := false);
    if w.st.resize {
      w.st := w.st.(resize := false);
      w.st := w.st.(rows := w.st.reqrows, cols := w.st.reqcols);
    }
  }

  /** Packs the children first, then the widget itself if it is marked. */
  method DlgPackCalc(w: Widget, ghost t: Tree, ghost up: seq<Widget>)
    requires t.w == w && Shape(t, if up == [] then null else up[0]) && Chain(w, up)
    requires allocated(All(t)) && forall u <- up :: u !in All(t)
    requires LayoutFixpoint.NonNegativeTree(Abs(t))
    modifies All(t)`st, (set u | u in up)`st
    ensures Abs(t) == Calc(old(Abs(t)))
    ensures forall u <- up :: u.st == if Marks(old(Abs(t))) then old(u.st).(repack := true) else old(u.st)
    decreases t, 1
  {
    hide Packed, Requests, Cleared, Items, LayoutFixpoint.NonNegativeTree;
    ghost var n := Abs(t);
    LayoutFixpoint.NonNegativeKept(n);
    assert forall k <- n.kids :: LayoutFixpoint.NonNegativeTree(k) by { ChildrenNonNegative(n); }
    DlgPackCalcAll(w.children, t.kids, [w] + up);
    assert Abs(t) == Reached(n);
    assert forall u <- up :: u in [w] + up && u != w;
    assert forall u <- up :: u.st == if MarksAny(n.kids) then old(u.st).(repack := true) else old(u.st);
    if w.st.repack {
      Unmark(w);
      PackTree(w, t, up);
    }
  }

  lemma ChildrenNonNegative(n: Node)
    requires LayoutFixpoint.NonNegativeTree(n)
    ensures forall k <- n.kids :: LayoutFixpoint.NonNegativeTree(k)
  {
  }

  /** Packs the widgets of a list of siblings. */
  method DlgPackCalcAll(ws: seq<Widget>, ghost ts: seq<Tree>, ghost up: seq<Widget>)
    requires ws == Roots(ts) && up != [] && Shapes(ts, up[0]) && Chain(up[0], up[1..])
    requires allocated(AllOf(ts)) && forall u <- up :: u !in AllOf(ts)
    requires forall n <- AbsAll(ts) :: LayoutFixpoint.NonNegativeTree(n)
    modifies AllOf(ts)`st, (set u | u in up)`st
    ensures AbsAll(ts) == CalcAll(old(AbsAll(ts)))
    ensures forall u <- up :: u.st == if MarksAny(old(AbsAll(ts))) then old(u.st).(repack := true) else old(u.st)
    decreases ts
  {
    if ws != [] {
      ghost var ns := AbsAll(ts);
      ghost var rest := AbsAll(ts[1..]);
      assert ns[1..] == rest && ns[0] in ns && forall n <- rest :: n in ns;
      assert Shapes(ts[1..], up[0]);
      DlgPackCalc(ws[0], ts[0], up);
      assert AbsAll(ts[1..]) == rest;
      DlgPackCalcAll(ws[1..], ts[1..], up);
    }
  }

  /** Packs a container in place as Packed does on values. */
  method PackTree(w: Widget, ghost t: Tree, ghost up: seq<Widget>)
    requires t.w == w && Shape(t, if up == [] then null else up[0]) && Chain(w, up)
    requires allocated(All(t)) && forall u <- up :: u !in All(t)
    requires LayoutFixpoint.NonNegativeTree(Abs(t))
    modifies All(t)`st, (set u | u in up)`st
    ensures Abs(t) == Packed(old(Abs(t)))
    ensures var n := old(Abs(t));
            forall u <- up ::
              u.st == if Requests(n.cfg, n.st, Items(n.kids)) then old(u.st).(repack := true) else old(u.st)
  {
    hide Placed, FramesOf, Requested, WantCols, WantRows, Packed, LayoutFixpoint.NonNegativeTree;
    ghost var n := Abs(t);
    PackReady(t);
    hide Items;
    Packer(w, up);
    assert forall i :: 0 <= i < |t.kids| ==> AbsAll(t.kids[i].kids) == n.kids[i].kids;
    assert forall i :: 0 <= i < |t.kids| ==> w.children[i] == t.kids[i].w;
    PackedInPlace(t, n);
  }

  /** The tree whose container and children were updated as the packer does is the packed tree. */
  lemma PackedInPlace(t: Tree, n: Node)
    requires t.w.cfg == n.cfg && |t.kids| == |n.kids|
    requires forall i :: 0 <= i < |t.kids| ==>
               t.kids[i].w.cfg == n.kids[i].cfg && AbsAll(t.kids[i].kids) == n.kids[i].kids
    requires var items := Items(n.kids);
             if n.kids == [] then t.w.st == n.st
             else if Requests(n.cfg, n.st, items) then
               && t.w.st == Requested(n.cfg, n.st, items)
               && forall i :: 0 <= i < |t.kids| ==> t.kids[i].w.st == n.kids[i].st
             else
               && t.w.st == n.st
               && forall i :: 0 <= i < |t.kids| ==>
                    t.kids[i].w.st == Placed(n.kids[i].cfg, n.kids[i].st, FramesOf(n.cfg, n.st, items)[i])
    ensures Abs(t) == Packed(n)
  {
    hide Placed, FramesOf, Requested, Requests;
    AbsAllIs(t.kids, Packed(n).kids);
  }

  /** What packing a container needs to know about its children, from the tree. */
  lemma PackReady(t: Tree)
    requires t.w.children == Roots(t.kids) && Shapes(t.kids, t.w) && LayoutFixpoint.NonNegativeTree(Abs(t))
    ensures Distinct(t.w.children) && Sizes(ItemsOf(t.w.children)) && ItemsOf(t.w.children) == Items(Abs(t).kids)
    ensures forall i, j :: 0 <= i < |t.kids| && 0 <= j < |t.kids| ==>
              t.kids[i].w in AllOf(t.kids) && t.kids[i].w !in AllOf(t.kids[j].kids)
    ensures forall i :: 0 <= i < |t.kids| ==> AllOf(t.kids[i].kids) <= AllOf(t.kids)
    ensures forall i :: 0 <= i < |t.kids| ==> Abs(t).kids[i] == Abs(t.kids[i])
  {
    ShapesApart(t.kids, t.w);
    ItemsOfAbs(t.kids);
    ChildrenNonNegative(Abs(t));
    LayoutFixpoint.NonNegativeItems(Abs(t).kids);
    forall i | 0 <= i < |t.kids| ensures Abs(t).kids[i] == Abs(t.kids[i]) {
      AbsAllAt(t.kids, i);
    }
  }

  // ----- Before and after the passes

  /** Marks the whole tree for repacking. */
  method DlgPackInit(w: Widget, ghost t: Tree, ghost up: Widget?)
    requires t.w == w && Shape(t, up) && allocated(All(t))
    modifies All(t)`st
    ensures Abs(t) == Init(old(Abs(t)))
    decreases t, 1
  {
    w.st := w.st.(repack := true);
    if w.st.reqcols == 0 || w.st.reqrows == 0 {
      w.st := w.st.(resize := true);
    }
    DlgPackInitAll(w.children, t.kids, w);
  }

  method DlgPackInitAll(ws: seq<Widget>, ghost ts: seq<Tree>, ghost up: Widget)
    requires ws == Roots(ts) && Shapes(ts, up) && allocated(AllOf(ts))
    modifies AllOf(ts)`st
    ensures AbsAll(ts) == InitAll(old(AbsAll(ts)))
    decreases ts
  {
    if ws != [] {
      ghost var rest := AbsAll(ts[1..]);
      DlgPackInit(ws[0], ts[0], up);
      assert AbsAll(ts[1..]) == rest;
      DlgPackInitAll(ws[1..], ts[1..], up);
    }
  }

  /** Assigns absolute positions, each widget inheriting that of its container. */
  method DlgPackApply(w: Widget, ghost t: Tree)
    requires t.w == w && Shape(t, w.parent) && allocated(All(t)) && w.parent !in All(t)
    modifies All(t)`st
    ensures Abs(t) == LayoutFixpoint.Apply(old(Abs(t)),
                                           if w.parent == null then 0 else w.parent.st.absx,
                                           if w.parent == null then 0 else w.parent.st.absy)
    decreases t, 1
  {
    Position(w);
    DlgPackApplyAll(w.children, t.kids, w);
  }

  method Position(w: Widget)
    requires w.parent != w
    modifies w`st
    ensures w.st == old(w.st).(absx := old(w.st).x + if w.parent == null then 0 else w.parent.st.absx,
                               absy := old(w.st).y + if w.parent == null then 0 else w.parent.st.absy)
  {
    w.st := w.st.(absx := w.st.x, absy := w.st.y);
    var p := w.parent;
    if p != null {
      w.st := w.st.(absx := w.st.absx + p.st.absx, absy := w.st.absy + p.st.absy);
    }
  }

  method DlgPackApplyAll(ws: seq<Widget>, ghost ts: seq<Tree>, ghost up: Widget)
    requires ws == Roots(ts) && Shapes(ts, up) && allocated(AllOf(ts)) && up !in AllOf(ts)
    modifies AllOf(ts)`st
    ensures AbsAll(ts) == LayoutFixpoint.ApplyAll(old(AbsAll(ts)), up.st.absx, up.st.absy)
    decreases ts
  {
    if ws != [] {
      ghost var rest := AbsAll(ts[1..]);
      DlgPackApply(ws[0], ts[0]);
      assert AbsAll(ts[1..]) == rest;
      DlgPackApplyAll(ws[1..], ts[1..], up);
    }
  }

  /** Packs the whole dialog: passes over the tree until the root is no longer marked. */
  method DlgPack(root: Widget, ghost t: Tree) returns (passes: nat)
    requires t.w == root && Shape(t, null) && allocated(All(t))
    requires LayoutFixpoint.NonNegativeTree(Abs(t))
    modifies All(t)`st
    ensures 1 <= passes == PassCount(old(Abs(t))) <= Height(old(Abs(t)))
    ensures Abs(t) == LayoutFixpoint.Apply(Pack(old(Abs(t))), 0, 0)
    ensures LayoutFixpoint.Steady(old(Abs(t))) ==> passes <= 2 && LayoutFixpoint.Settled(Abs(t))
  {
    hide Passes, PassCount, Height, Calc, Init, LayoutFixpoint.NonNegativeTree, LayoutFixpoint.Steady,
        LayoutFixpoint.Settled;
    ghost var n := Abs(t);
    StopsByHeight(n);
    LayoutFixpoint.NonNegativeInit(n);
    DlgPackInit(root, t, null);
    passes := 0;
    var again := true;
    PassesUnfold(Init(n), 1);
    while again
      invariant Abs(t) == Passes(Init(n), passes) && LayoutFixpoint.NonNegativeTree(Abs(t))
      invariant passes <= PassCount(n)
      invariant again <==> passes == 0 || Abs(t).st.repack
      decreases PassCount(n) - passes
    {
      LayoutFixpoint.NonNegativeKept(Abs(t));
      DlgPackCalc(root, t, []);
      again := root.st.repack;
      passes := passes + 1;
      PassesUnfold(Init(n), passes);
    }
    if LayoutFixpoint.Steady(n) {
      LayoutFixpoint.TwoPasses(n);
      LayoutFixpoint.ApplyKeepsRequests(Pack(n), 0, 0);
    }
    DlgPackApply(root, t);
  }
}

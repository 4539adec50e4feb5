/** Dialog packing on trees of widget values: one packing pass over a tree, and what repeated passes
    settle on. The class in Dialog.dfy does the same in place. */
module DialogLayout {
  import opened Basics
  import opened BoxPacking

  datatype Align = N | NE | E | SE | S | SW | W | NW | Center

  /** What the packer only reads. */
  datatype Config = Config(attach: Attach, align: Align, expand: bool, fillx: bool, filly: bool,
                           padx: int, pady: int, ipadx: int, ipady: int, border: int, tab: bool, propagate: bool)

  /** What the packer updates. */
  datatype State = State(reqcols: int, reqrows: int, cols: int, rows: int, x: int, y: int, absx: int, absy: int,
                         repack: bool, resize: bool, hidden: bool)

  datatype Node = Node(cfg: Config, st: State, kids: seq<Node>)

  // ----- Requests

  function Border(cfg: Config): int { cfg.border * 2 }

  /** A requested size that is not zero always wins over the current one. */
  function ReqCols(cfg: Config, st: State): int {
    (if st.reqcols != 0 then st.reqcols else st.cols) + Border(cfg)
  }

  function ReqRows(cfg: Config, st: State): int {
    (if st.reqrows != 0 then st.reqrows else st.rows) + Border(cfg)
  }

  function PaddingCols(cfg: Config): int { (cfg.padx + cfg.ipadx) * 2 }

  function PaddingRows(cfg: Config): int { (cfg.pady + cfg.ipady) * 2 }

  function ItemOf(cfg: Config, st: State): Item {
    Item(cfg.attach, cfg.expand, ReqCols(cfg, st) + PaddingCols(cfg), ReqRows(cfg, st) + PaddingRows(cfg))
  }

  function Items(kids: seq<Node>): (items: seq<Item>)
    ensures |items| == |kids|
    ensures forall i :: 0 <= i < |kids| ==> items[i] == ItemOf(kids[i].cfg, kids[i].st)
  {
    seq(|kids|, i requires 0 <= i < |kids| => ItemOf(kids[i].cfg, kids[i].st))
  }

  function MaxCols(items: seq<Item>, most: int): int {
    if items == [] then most else MaxCols(items[1..], Max(items[0].cols, most))
  }

  function MaxRows(items: seq<Item>, most: int): int {
    if items == [] then most else MaxRows(items[1..], Max(items[0].rows, most))
  }

  /** The size a container wants for its children, borders included. Tabs lie on top of each other. */
  function WantCols(cfg: Config, items: seq<Item>): int {
    if cfg.tab then MaxCols(items, Border(cfg)) else Border(cfg) + Need(ColSlots(items))
  }

  function WantRows(cfg: Config, items: seq<Item>): int {
    if cfg.tab then MaxRows(items, Border(cfg)) else Border(cfg) + Need(RowSlots(items))
  }

  // ----- Placing the children

  function Cavity(cfg: Config, st: State): Rect {
    Rect(cfg.border, cfg.border, st.cols, st.rows)
  }

  function FramesOf(cfg: Config, st: State, items: seq<Item>): (fs: seq<Rect>)
    ensures |fs| == |items|
  {
    if cfg.tab then seq(|items|,
        i requires 0 <= i < |items| => Rect(cfg.border, cfg.border, items[i].cols, items[i].rows))
    else
      FramesCount(items, Cavity(cfg, st));
      Frames(items, Cavity(cfg, st))
  }

  /** A child's size in a frame: limited by it, or filling it. */
  function Limit(size: int, fill: bool, room: int): int {
    if size > room then room else if fill then room else size
  }

  function Across(align: Align, pad: int, room: int, size: int): int {
    match align
    case N | S | Center => Trunc(pad + room - size - pad, 2)
    case NE | E | SE => room - size - pad
    case SW | W | NW => pad
  }

  function Down(align: Align, pad: int, room: int, size: int): int {
    match align
    case N | NE | NW => pad
    case E | W | Center => Trunc(pad + room - size - pad, 2)
    case SE | S | SW => room - size - pad
  }

  /** A child's rectangle in its frame, border included. */
  function Outer(cfg: Config, st: State, frame: Rect): Rect {
    var cols := Limit(ReqCols(cfg, st) + cfg.ipadx * 2, cfg.fillx, frame.cols - cfg.padx);
    var rows := Limit(ReqRows(cfg, st) + cfg.ipady * 2, cfg.filly, frame.rows - cfg.pady);
    Rect(frame.x + Across(cfg.align, cfg.padx, frame.cols, cols),
        frame.y + Down(cfg.align, cfg.pady, frame.rows, rows), cols, rows)
  }

  predicate Visible(cfg: Config, outer: Rect) {
    0 < outer.cols - Border(cfg) && 0 < outer.rows - Border(cfg)
  }

  /** A child after placement; one without room is hidden where it was. */
  function Placed(cfg: Config, st: State, frame: Rect): State {
    var o := Outer(cfg, st, frame);
    if Visible(cfg, o) then st.(x := o.x, y := o.y, cols := o.cols - Border(cfg), rows := o.rows - Border(cfg),
        hidden := false)
    else st.(hidden := true)
  }

  function PlaceAll(kids: seq<Node>, fs: seq<Rect>): (r: seq<Node>)
    requires |fs| == |kids|
    ensures |r| == |kids|
    ensures forall i :: 0 <= i < |kids| ==> r[i] == kids[i].(st := Placed(kids[i].cfg, kids[i].st, fs[i]))
  {
    seq(|kids|, i requires 0 <= i < |kids| => kids[i].(st := Placed(kids[i].cfg, kids[i].st, fs[i])))
  }

  /** The outer rectangle of a visible child lies in its frame. */
  lemma VisibleInFrame(cfg: Config, st: State, frame: Rect, x: int, y: int)
    requires 0 <= cfg.padx && 0 <= cfg.pady && 0 <= cfg.border
    requires Visible(cfg, Outer(cfg, st, frame)) && Inside(Outer(cfg, st, frame), x, y)
    ensures Inside(frame, x, y)
  {
  }

  /** Visible children of a container that is not a tab never overlap, and stay in its cavity. */
  lemma SiblingsApart(cfg: Config, st: State, kids: seq<Node>, i: int, j: int, x: int, y: int)
    requires !cfg.tab && 0 <= st.cols && 0 <= st.rows && Sizes(Items(kids))
    requires forall k <- kids :: 0 <= k.cfg.padx && 0 <= k.cfg.pady && 0 <= k.cfg.border
    requires 0 <= i < |kids| && 0 <= j < |kids|
    requires var fs := FramesOf(cfg, st, Items(kids));
             && Visible(kids[i].cfg, Outer(kids[i].cfg, kids[i].st, fs[i]))
                && Inside(Outer(kids[i].cfg, kids[i].st, fs[i]), x, y)
             && Visible(kids[j].cfg, Outer(kids[j].cfg, kids[j].st, fs[j]))
                && Inside(Outer(kids[j].cfg, kids[j].st, fs[j]), x, y)
    ensures i == j && Inside(Cavity(cfg, st), x, y)
  {
    var fs := FramesOf(cfg, st, Items(kids));
    VisibleInFrame(kids[i].cfg, kids[i].st, fs[i], x, y);
    VisibleInFrame(kids[j].cfg, kids[j].st, fs[j], x, y);
    FramesApart(Items(kids), Cavity(cfg, st), i, j, x, y);
  }

  // ----- Where a child is in its frame

  /** A shown child, with its border. */
  function Shown(cfg: Config, st: State): Rect {
    Rect(st.x, st.y, st.cols + 2 * cfg.border, st.rows + 2 * cfg.border)
  }

  /** Room at the near and at the far side of a child: at the sides of its frame that the alignment names
      it keeps its padding, and in between it is in the middle, give or take one cell. */
  predicate Aligned(near: bool, far: bool, pad: int, before: int, after: int) {
    if near then before == pad else if far then after == pad else 0 <= after - before <= 1
  }

  /** A child has the size it asks for, or as much as there is; one that fills has that much in any case.
      It is at the sides of its frame that its alignment names, at the distance of its padding. */
  lemma AlignedInFrame(cfg: Config, st: State, frame: Rect)
    requires 0 <= cfg.padx && 0 <= cfg.pady
    ensures var o := Outer(cfg, st, frame);
            && o.cols == (if cfg.fillx then frame.cols - cfg.padx
                          else Min(ReqCols(cfg, st) + 2 * cfg.ipadx, frame.cols - cfg.padx))
            && o.rows == (if cfg.filly then frame.rows - cfg.pady
                          else Min(ReqRows(cfg, st) + 2 * cfg.ipady, frame.rows - cfg.pady))
            && Aligned(cfg.align == W || cfg.align == NW || cfg.align == SW,
                       cfg.align == E || cfg.align == NE || cfg.align == SE, cfg.padx,
                       o.x - frame.x, frame.x + frame.cols - (o.x + o.cols))
            && Aligned(cfg.align == N || cfg.align == NE || cfg.align == NW,
                       cfg.align == S || cfg.align == SE || cfg.align == SW, cfg.pady,
                       o.y - frame.y, frame.y + frame.rows - (o.y + o.rows))
    ensures !Placed(cfg, st, frame).hidden ==> Shown(cfg, Placed(cfg, st, frame)) == Outer(cfg, st, frame)
  {
  }

  /** What a widget asks for, without border: its request, or its size if it has made none. */
  function Asked(req: int, size: int): int { if req == 0 then size else req }

  /** A child that does not fill, in a frame with room for it: it gets exactly the size it asks for and its
      inner padding, and keeps its padding free on both sides; in a frame of just the size counted for it
      nothing else is left free, whatever its alignment. */
  lemma PaddedInFrame(cfg: Config, st: State, frame: Rect)
    requires 0 <= cfg.padx && 0 <= cfg.ipadx && 0 <= cfg.border && 0 < Asked(st.reqcols, st.cols) && !cfg.fillx
    requires 0 <= cfg.pady && 0 <= cfg.ipady && 0 < Asked(st.reqrows, st.rows) && !cfg.filly
    requires ItemOf(cfg, st).cols <= frame.cols && ItemOf(cfg, st).rows <= frame.rows
    ensures var r := Placed(cfg, st, frame);
            var (left, top) := (r.x - frame.x, r.y - frame.y);
            var right := frame.x + frame.cols - (r.x + r.cols + 2 * cfg.border);
            var bottom := frame.y + frame.rows - (r.y + r.rows + 2 * cfg.border);
            && !r.hidden
            && r.cols == Asked(st.reqcols, st.cols) + 2 * cfg.ipadx
            && r.rows == Asked(st.reqrows, st.rows) + 2 * cfg.ipady
            && cfg.padx <= left && cfg.padx <= right && cfg.pady <= top && cfg.pady <= bottom
            && (ItemOf(cfg, st).cols == frame.cols ==> left == right == cfg.padx)
            && (ItemOf(cfg, st).rows == frame.rows ==> top == bottom == cfg.pady)
  {
    AlignedInFrame(cfg, st, frame);
    hide Across, Down, Limit;
  }

  /** A child that asks for something is hidden if and only if its border and padding leave it nothing of
      its frame, and is then left where it was. */
  lemma HiddenIff(cfg: Config, st: State, frame: Rect)
    requires 0 <= cfg.padx && 0 <= cfg.ipadx && 0 < Asked(st.reqcols, st.cols)
    requires 0 <= cfg.pady && 0 <= cfg.ipady && 0 < Asked(st.reqrows, st.rows)
    ensures var r := Placed(cfg, st, frame);
            && (r.hidden <==> frame.cols <= cfg.padx + 2 * cfg.border || frame.rows <= cfg.pady + 2 * cfg.border)
            && (r.hidden ==> r == st.(hidden := true))
            && r.(x := st.x, y := st.y, cols := st.cols, rows := st.rows, hidden := st.hidden) == st
  {
    AlignedInFrame(cfg, st, frame);
    hide Across, Down, Limit;
  }

  lemma ShownInFrame(cfg: Config, st: State, frame: Rect)
    requires 0 <= cfg.padx && 0 <= cfg.pady && 0 <= cfg.border && !Placed(cfg, st, frame).hidden
    ensures EdgesWithin(Shown(cfg, Placed(cfg, st, frame)), frame)
  {
    AlignedInFrame(cfg, st, frame);
    hide Across, Down, Limit;
  }

  /** Children that are shown lie inside the border of a container that is not a tab, each on its side of
      all that come after it. */
  lemma ShownInOrder(cfg: Config, st: State, items: seq<Item>, i: nat, j: nat, c: Config, s: State,
                     c': Config, s': State)
    requires !cfg.tab && 0 <= st.cols && 0 <= st.rows && Sizes(items) && i < j < |items|
    requires items[i] == ItemOf(c, s) && 0 <= c.padx && 0 <= c.pady && 0 <= c.border
    requires items[j] == ItemOf(c', s') && 0 <= c'.padx && 0 <= c'.pady && 0 <= c'.border
    requires !Placed(c, s, FramesOf(cfg, st, items)[i]).hidden && !Placed(c', s', FramesOf(cfg, st, items)[j]).hidden
    ensures var inside := Rect(cfg.border, cfg.border, st.cols, st.rows);
            var r := Shown(c, Placed(c, s, FramesOf(cfg, st, items)[i]));
            var r' := Shown(c', Placed(c', s', FramesOf(cfg, st, items)[j]));
            OnSide(c.attach, r, r') && EdgesWithin(r, inside) && EdgesWithin(r', inside)
  {
    var cavity := Cavity(cfg, st);
    FramesCount(items, cavity);
    FramesInOrder(items, cavity, i, j);
    FramesWithin(items, cavity, i);
    FramesWithin(items, cavity, j);
    hide Frames;
    ShownInFrame(c, s, FramesOf(cfg, st, items)[i]);
    ShownInFrame(c', s', FramesOf(cfg, st, items)[j]);
  }

  /** A tab shows all its children in the same corner, each in just the size it asks for. */
  lemma TabsInCorner(cfg: Config, st: State, kids: seq<Node>, i: nat)
    requires cfg.tab && i < |kids|
    requires var (c, s) := (kids[i].cfg, kids[i].st);
             && 0 <= c.padx && 0 <= c.ipadx && 0 <= c.pady && 0 <= c.ipady && 0 <= c.border && !c.fillx && !c.filly
             && 0 < Asked(s.reqcols, s.cols) && 0 < Asked(s.reqrows, s.rows)
    ensures var (c, s, r) := (kids[i].cfg, kids[i].st, PlaceAll(kids, FramesOf(cfg, st, Items(kids)))[i].st);
            && !r.hidden && r.x == cfg.border + c.padx && r.y == cfg.border + c.pady
            && r.cols == Asked(s.reqcols, s.cols) + 2 * c.ipadx && r.rows == Asked(s.reqrows, s.rows) + 2 * c.ipady
  {
    PaddedInFrame(kids[i].cfg, kids[i].st, FramesOf(cfg, st, Items(kids))[i]);
    hide Placed;
  }

  // ----- What a container asks for

  lemma {:induction false} MaxIsLargest(items: seq<Item>, cols: int, rows: int)
    ensures cols <= MaxCols(items, cols) && rows <= MaxRows(items, rows)
    ensures forall i <- items :: i.cols <= MaxCols(items, cols) && i.rows <= MaxRows(items, rows)
    ensures MaxCols(items, cols) == cols || exists i <- items :: i.cols == MaxCols(items, cols)
    ensures MaxRows(items, rows) == rows || exists i <- items :: i.rows == MaxRows(items, rows)
    decreases |items|
  {
    if items != [] {
      MaxIsLargest(items[1..], Max(items[0].cols, cols), Max(items[0].rows, rows));
      assert items == [items[0]] + items[1..];
    }
  }

  /** A container that is not a tab asks for the least size whose cavity serves all its children; a tab for
      the columns and rows of its largest children, but always at least for its border twice. */
  lemma RequestIsLeast(cfg: Config, st: State, items: seq<Item>, cavity: Rect)
    requires Sizes(items) && 0 <= cavity.cols && 0 <= cavity.rows
    ensures var r := Requested(cfg, st, items);
            && r == st.(reqcols := r.reqcols, reqrows := r.reqrows, resize := true, repack := true)
            && (!cfg.tab ==> (AllServed(items, cavity) <==> r.reqcols <= cavity.cols && r.reqrows <= cavity.rows))
    ensures var r := Requested(cfg, st, items);
            var (cols, rows) := (r.reqcols + 2 * cfg.border, r.reqrows + 2 * cfg.border);
            cfg.tab ==>
              && 2 * cfg.border <= cols && 2 * cfg.border <= rows
              && (forall i <- items :: i.cols <= cols && i.rows <= rows)
              && (cols == 2 * cfg.border || exists i <- items :: i.cols == cols)
              && (rows == 2 * cfg.border || exists i <- items :: i.rows == rows)
  {
    hide AllServed, MaxCols, MaxRows, Need;
    if cfg.tab {
      MaxIsLargest(items, Border(cfg), Border(cfg));
    } else {
      NeedIsLeast(items, cavity);
    }
  }

  // ----- Packing one container

  /** The container asks its own container for another size. */
  predicate Requests(cfg: Config, st: State, items: seq<Item>) {
    items != [] && cfg.propagate
        && (WantCols(cfg, items) != ReqCols(cfg, st) || WantRows(cfg, items) != ReqRows(cfg, st))
  }

  function Requested(cfg: Config, st: State, items: seq<Item>): State {
    st.(resize := true, repack := true, reqrows := WantRows(cfg, items) - Border(cfg),
        reqcols := WantCols(cfg, items) - Border(cfg))
  }

  function Packed(n: Node): Node {
    var items := Items(n.kids);
    if n.kids == [] then n
    else if Requests(n.cfg, n.st, items) then n.(st := Requested(n.cfg, n.st, items))
    else n.(kids := PlaceAll(n.kids, FramesOf(n.cfg, n.st, items)))
  }

  // ----- One pass over the tree

  function Cleared(st: State): State {
    var s := st.(repack := false);
    if st.resize then s.(resize := false, rows := st.reqrows, cols := st.reqcols) else s
  }

  /** A container as the pass finds it once its children are done; their requests have marked it. */
  function Reached(n: Node): Node
    decreases n, 1
  {
    n.(kids := CalcAll(n.kids), st := n.st.(repack := n.st.repack || MarksAny(n.kids)))
  }

  function Calc(n: Node): Node
    decreases n, 2
  {
    var m := Reached(n);
    if m.st.repack then Packed(m.(st := Cleared(m.st))) else m
  }

  function CalcAll(kids: seq<Node>): (r: seq<Node>)
    ensures |r| == |kids|
    decreases kids
  {
    if kids == [] then [] else [Calc(kids[0])] + CalcAll(kids[1..])
  }

  /** Whether the pass over n marks the containers above it for repacking. */
  predicate Marks(n: Node)
    decreases n, 2
  {
    MarksAny(n.kids) ||
    var m := Reached(n);
    m.st.repack && Requests(m.cfg, Cleared(m.st), Items(m.kids))
  }

  predicate MarksAny(kids: seq<Node>)
    decreases kids
  {
    kids != [] && (Marks(kids[0]) || MarksAny(kids[1..]))
  }

  /** Before the first pass everything is marked; a widget without a full request takes up its request. */
  function Init(n: Node): Node
    decreases n, 1
  {
    n.(kids := InitAll(n.kids),
       st := n.st.(repack := true, resize := n.st.resize || n.st.reqcols == 0 || n.st.reqrows == 0))
  }

  function InitAll(kids: seq<Node>): (r: seq<Node>)
    ensures |r| == |kids|
    decreases kids
  {
    if kids == [] then [] else [Init(kids[0])] + InitAll(kids[1..])
  }
}

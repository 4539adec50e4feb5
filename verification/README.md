# GRIEF cores: diff engine, dialog packer, cursor motion, macro objects

Models of the algorithmic cores of the GRIEF editor, and proofs of what they compute.

* **Diff engine** (`gr/diff_engine.c`). Edit distance is defined by recursion over an arbitrary match
  predicate on the whole quadrant, because the search does not clip its diagonals to the grid
  (`EditDistance.dfy`). `FurthestReaching.dfy` says what the V buffer means and when the two searches
  meet, `DiffScript.dfy` what a list of edits means and costs, `SparseArray.dfy` models the binned sparse
  array, `Recursion.dfy` shows that the recursion only produces problems its base case can handle, and
  `DiffEngine.dfy` is the code itself: a context class over two sparse arrays, with the search, the
  recursion, the coalescing of edits and the entry point. The result: the distance returned is the
  least number of deletions and insertions, and the script left in the array is a shortest one that
  turns one sequence into the other.
* **Dialog packer** (`gr/dialog_tty.c`). `BoxPacking.dfy` has the geometry of one container on values,
  `DialogLayout.dfy` one pass over a tree of widgets, `LayoutPasses.dfy` how many passes any tree takes
  and what they leave marked, `LayoutFixpoint.dfy` the sizes they settle on, and `Dialog.dfy` the code on
  widget objects with parent and child links, proved to do the same in place.
* **Cursor motion** (`gr/basic.c`). `LineText.dfy` deals with characters of one line whose width may
  depend on their column, `Motion.dfy` with the window: character motion as arithmetic on one flat
  offset, and vertical motion with its remembered column.
* **Macro objects** (`gm/gm.c`). `MacroUnits.dfy` has streams of atoms and the interning of their
  strings, `ObjectFile.dfy` the writer, the layout of the file and the disassembler.
* **Line hash** (`gr/diff_hash.c`) in `DiffHash.dfy` and **event queue** (`gr/builtin.c`) in
  `EventRing.dfy`.

Where the code falls short of what one would hope, the code is modelled as it is, with the exact
condition and a concrete case:

* The depth counter of event delivery is incremented by every list that ends with events pending while
  it is not zero, and never decremented for it (line 463). The first such list ends inside a running
  handler. The delivery that is under way goes on, but no list that ends after it delivers anything,
  until 2^32 have failed to (`FailsIffCollides`, `DeliversUnlessCollided`, `Wedged`; case `NestedListWedges`).
* Packing a dialog always stops, after at most as many passes as its tree is high, but not always after
  two: it stops in the first pass in which the root's need repeats (`StopsByHeight`, `StopsIff`,
  `TwoPassesIff`; case `BorderedTabTakesLonger`, a bordered tab over a small child). A container whose
  outdated request a wider sibling hides from the root is left marked and its children are never placed
  (`AllPlaced`, `AllPlacedIff`; case `HiddenByWiderSibling`).
* `move_next_char` does not always move the cursor on by n characters. It arrives if and only if it starts
  above the bottom line, the walk ends by the start of that line, and the cursor need not leave a buffer
  that it may not leave (`NextArrives`, `NextInside`). On a terminal of exactly six rows the bottom line is
  the last one, within which the cursor then cannot move at all (case `StuckOnLastLine`); and in a binary
  buffer under the end-of-file rule, moving on to the end goes back to the start of the last line (case
  `ClippedBack`).
* A vertical move takes the column off a wide character of the line that it was asked to go to. When that is
  past a buffer that may not be left, nothing is looked at, and the cursor can end inside a wide character of
  the last line (`SplitsIff`; case `SplitsLastCharacter`).
* The comment at the end of `diff_hash` promises never to return zero; the code has no such test. Whatever
  the flags, no line of up to four bytes hashes to zero, and some line of every greater length does
  (`ShortNeverZero`, `ZeroLengths`; case `ZeroHash`). Its case folding table moves the whole range from
  '@' to '_', so six pairs of bytes that are not letters count as the same too (`LowerIdentifies`,
  `SameNormalForm`; case `BracketIsBrace`).
* A cap of -1 on the distance is returned as the distance when it is reached, and so reads as an
  error (`Diff`, through `Answer`; case `CapOfMinusOne`).

After packing a new dialog of plain widgets that propagate, every widget lies inside its container
(`NewIsTidy`). In other dialogs a container that its parent shrinks is not packed again, and its children
can stick out of it (`ShrunkIsUntidy`).

## Model

| member | source | states |
|---|---|---|
| EditDistance.DistDiagonal | gr/diff_engine.c:240-253 | distance never decreases along a diagonal, so following matches is safe |
| EditDistance.Triangle | gr/diff_engine.c:354-367 | splitting a path at any grid point never beats the best path |
| EditDistance.DistReverse | gr/diff_engine.c:264-289 | the reversed problem has the same distance |
| EditDistance.OptimalPoint | gr/diff_engine.c:225-298 | some best path has a grid point at every intermediate cost |
| EditDistance.DistWindow | gr/diff_engine.c:361-365 | the problem behind a split point, taken alone, has the distance of that point from the end |
| FurthestReaching.FurthestIsGreatest | gr/diff_engine.c:232-254 | a furthest reaching point is the greatest of its diagonal within d edits: a point is within d edits if and only if it is not past it |
| FurthestReaching.StartReached | gr/diff_engine.c:233-241 | the point where round d enters a diagonal is within d edits, by one edit from a neighbour of round d - 1 |
| FurthestReaching.FurthestStep | gr/diff_engine.c:232-254 | following matches from there ends at the furthest reaching point of round d |
| FurthestReaching.MeetingInGrid | gr/diff_engine.c:256-262 | although diagonals are not clipped, a meeting at d + e <= D edits lies in the n by m grid |
| FurthestReaching.MeetingSplits | gr/diff_engine.c:256-262 | a forward point at or past the reverse one lies in the grid, and splits D exactly into d and e |
| FurthestReaching.MeetingSplitsReverse | gr/diff_engine.c:290-296 | the same for a meeting found by the reverse search |
| FurthestReaching.NoMeetingNotThere | gr/diff_engine.c:225-298 | if d forward and e reverse rounds meet nowhere, D is not d + e |
| FurthestReaching.ForwardMeets | gr/diff_engine.c:256-262 | the first forward meeting gives D = 2d - 1 and a middle snake: in the grid, all matches, ceil(D/2) before it and floor(D/2) after it |
| FurthestReaching.ReverseMeets | gr/diff_engine.c:290-296 | the first reverse meeting gives D = 2d and a middle snake |
| DiffScript.NoCheaperScript | gr/diff_engine.c:331-407 | no script between two points costs less than their distance |
| DiffScript.WalksTransforms | gr/diff_engine.c:306-407 | a script that walks from (x0, y0) to (x1, y1) reads exactly a[x0..x1] and yields b[y0..y1], up to elements the comparison takes for the same |
| DiffScript.PushCost | gr/diff_engine.c:306-328 | coalescing keeps the cost, and no two neighbouring edits have the same operation |
| DiffScript.PushMatch | gr/diff_engine.c:316-327 | a coalesced MATCH still walks on from where the script was, through matching pairs |
| DiffScript.PushDelete | gr/diff_engine.c:316-327 | the same for DELETE |
| DiffScript.PushInsert | gr/diff_engine.c:316-327 | the same for INSERT |
| DiffScript.EmittedAround | gr/diff_engine.c:355-367 | scripts before and after a run of matches join into one, at the sum of their costs |
| SparseArray.PlaceIsUnique | gr/diff_engine.c:129-163 | no two places in bins stand for the same index |
| SparseArray.BinsApart | gr/diff_engine.c:129-163 | bins hold disjoint ranges of indices, all below 2^20 |
| SparseArray.PackBijection | gr/diff_engine.c:185-208 | the packing of (diagonal, direction) is a bijection from integers times {0, 1} onto the naturals |
| SparseArray.VArray.constructor | gr/diff_engine.c:67-81 | an empty array, which reads as zeroes |
| SparseArray.VArray.Allocate | gr/diff_engine.c:151-160 | an absent bin is added zeroed: no cell changes and no other bin moves |
| SparseArray.VArray.Locate | gr/diff_engine.c:129-163 | every index below 2^20 has its own in-bounds cell, none has beyond; no cell changes and no bin already there moves |
| SparseArray.VArray.Get | gr/diff_engine.c:200-208 | reads the cell of the index, changing nothing |
| SparseArray.VArray.Put | gr/diff_engine.c:185-197 | writes the cell of the index and no other |
| SparseArray.VArray.FreeBins | gr/diff_engine.c:113-118 | clears exactly the cells from the first freed bin on |
| SparseArray.VArray.Release | gr/diff_engine.c:95-126 | clears whole bins only: every index below `from` keeps its cell and its bin stays, the bins past it are gone; all are with 0 |
| SparseArray.ReleasedFrom | gr/diff_engine.c:105-112 | the first index that a release clears is 0 for 0, and otherwise not below `from`, or past the array, and less than twice `from`, or 32 |
| Recursion.StrippedDisciplined | gr/diff_engine.c:448-465 | a problem whose first pair does not match has distance 1 or more, and at 1 its edit can come first or last |
| Recursion.EndStrippedDisciplined | gr/diff_engine.c:354-357 | so has one whose last pair does not match |
| Recursion.NearHalf | gr/diff_engine.c:355-357 | the part before a middle snake has distance ceil(D/2), is smaller, and is fit for the recursion |
| Recursion.FarHalf | gr/diff_engine.c:361-367 | the part after it has distance floor(D/2), and is fit for the recursion |
| Recursion.BaseCase | gr/diff_engine.c:368-403 | at distance 1 the edit comes last if the snake is empty, and can come first otherwise |
| DiffEngine.VUpdate | gr/diff_engine.c:185-208 | writing one V value changes no other |
| DiffEngine.ForwardKeeps | gr/diff_engine.c:232-263 | the forward loop keeps: done diagonals hold furthest reaching points of round d, the others those of round d - 1, and the searches have not met |
| DiffEngine.ReverseKeeps | gr/diff_engine.c:264-297 | the same for the reverse loop |
| DiffEngine.ForwardDone | gr/diff_engine.c:232-263 | a forward loop without a meeting raises the bound D >= 2d - 1 to D >= 2d |
| DiffEngine.ReverseDone | gr/diff_engine.c:264-297 | a reverse loop without a meeting raises it to D >= 2d + 1 |
| DiffEngine.Seeded | gr/diff_engine.c:222-223 | the seeds suffice, whatever the buffer holds from earlier calls |
| DiffEngine.MeetingTests | gr/diff_engine.c:256-290 | the guards of the two meeting tests pick out exactly the diagonals the other search has visited |
| DiffEngine.DiagonalFits | gr/diff_engine.c:225-297 | every diagonal that a fitting round touches has a place in the buffer |
| DiffEngine.RoundsFit | gr/diff_engine.c:225-230 | a search that fits touches no other rounds: it stops by the distance or the cap |
| DiffEngine.RoomSuffices | gr/diff_engine.c:306-328 | the script of a problem that fits has room in its array |
| DiffEngine.Context.ForwardStep | gr/diff_engine.c:233-254 | one step of the forward search ends at the furthest reaching point and writes it, and nothing else, to the buffer |
| DiffEngine.Context.ReverseStep | gr/diff_engine.c:265-288 | the same for the reverse search, which is the forward search of the reversed problem |
| DiffEngine.Context.FindMiddleSnake | gr/diff_engine.c:211-303 | returns min(D, cap), and below the cap a middle snake in the grid; the EFAULT exit is not reached |
| DiffEngine.Context.Emit | gr/diff_engine.c:306-328 | appends an edit to the script, coalescing it with the last; empty edits do nothing |
| DiffEngine.Context.Ses | gr/diff_engine.c:331-407 | returns the distance and extends the script by a walk through the problem at that cost; a cap reached leaves the script alone |
| DiffEngine.Context.SesSplit | gr/diff_engine.c:354-367 | both halves around the middle snake, joined, cost exactly D |
| DiffEngine.Context.SesBase | gr/diff_engine.c:368-403 | the four ways to place a single edit walk through the problem at cost 1 |
| DiffEngine.Halves | gr/diff_engine.c:354-367 | both recursive problems are smaller, fit the buffer, and have distances ceil(D/2) and floor(D/2) |
| DiffEngine.Context.Solve | gr/diff_engine.c:453-468 | eats the common prefix and solves the rest: the distance, or the cap if both sides have elements left and the distance reaches it |
| DiffEngine.PrefixEaten | gr/diff_engine.c:448-466 | eating the common prefix keeps the distance and makes the rest fit for the recursion |
| DiffEngine.ShortestAtDistance | gr/diff_engine.c:306-407 | a script of cost D reads all of a, yields all of b, is coalesced, and no other script costs less |
| DiffEngine.EqualAtNoDistance | gr/diff_engine.c:460-464 | by equality of elements only equal sequences are at distance 0 |
| DiffEngine.ExactScript | gr/diff_engine.c:306-407 | by equality of elements a shortest script yields exactly the second sequence |
| DiffEngine.UncappedNeverStops | gr/diff_engine.c:435-435 | the cap in force when none is given is never reached |
| DiffEngine.Run | gr/diff_engine.c:437-477 | the distance, cut off at the cap, and in the first sn cells a shortest script of that cost; if cut off, just the common prefix |
| DiffEngine.CutShort | gr/diff_engine.c:350-351 | where the sequences differ at one place, the distance never passes the cap, and the script has that cost if and only if the distance stays below the cap; at the cap it costs nothing |
| DiffEngine.Diff | gr/diff_engine.c:410-484 | the same for the caller's comparison, or for equality of elements when no callbacks are given, at any cap, buffer and size as long as the search, if there is one, fits the buffer; an error if only one callback is given; without cap and callbacks the distance is 0 if and only if the sequences are equal, and the script reads exactly the one and yields exactly the other |
| DiffEngine.CapOfMinusOne | gr/diff_engine.c:350-351 | two different sequences at distance 2 whose distance is returned as -1, and no script length |
| BoxPacking.GrowthIsGreatest | gr/dialog_tty.c:1477-1514 | the growth meant is the greatest that all remaining expanding children can have alike, or nothing when they do not even fit |
| BoxPacking.GreatestGrowthUnique | gr/dialog_tty.c:1477-1514 | there is only one such growth |
| BoxPacking.FitsAfterGrowth | gr/dialog_tty.c:1343-1350 | siblings that fit the cavity before an expansion still fit after it |
| BoxPacking.AllServedMeaning | gr/dialog_tty.c:1314-1359 | every child is served if and only if every frame is as large as its child asks for |
| BoxPacking.NeedIsLeast | gr/dialog_tty.c:1226-1278 | the computed need is exactly the least container size in which every child gets a frame at least of its requested size and padding, expanding or not |
| BoxPacking.FramesTile | gr/dialog_tty.c:1290-1359 | every cell of the cavity is in exactly one frame or in what is left, and no other cell in any |
| BoxPacking.FramesApart | gr/dialog_tty.c:1290-1359 | frames of different children share no cell, and lie in the cavity |
| BoxPacking.FramesFromSides | gr/dialog_tty.c:1321-1358 | every frame touches its own side, left, right, top or bottom, of the cavity less all that the frames before it took from its four sides, and spans it across; what is left is the cavity less all of them |
| BoxPacking.FrameLengths | gr/dialog_tty.c:1321-1350 | along its axis a frame is as long as its child asks for, with the greatest common growth if it expands, and never longer than the cavity |
| BoxPacking.FramesInOrder | gr/dialog_tty.c:1321-1358 | a frame attached left ends at or before the start of every later frame and of what is left, one attached right starts at or after their ends, and so for top and bottom on rows |
| BoxPacking.RestIsLeftover | gr/dialog_tty.c:1320-1358 | the cavity left has the two lengths left over along its axes |
| BoxPacking.NoSlackLeft | gr/dialog_tty.c:1343-1350 | if the children fit, all lie along the axis and one at least expands, nothing is left over |
| DialogLayout.VisibleInFrame | gr/dialog_tty.c:1379-1461 | the outer rectangle of a visible child lies in its frame, for every alignment, fill and padding |
| DialogLayout.SiblingsApart | gr/dialog_tty.c:1290-1462 | visible children of a container that is not a tab never overlap, and stay in its cavity |
| DialogLayout.AlignedInFrame | gr/dialog_tty.c:1379-1441 | a child is as large as it asks for or as there is room, one that fills as large as there is room; it is at the sides of its frame that its alignment names, at the distance of its padding, and in the middle between sides it does not name |
| DialogLayout.PaddedInFrame | gr/dialog_tty.c:1379-1461 | a child that does not fill, in a frame with room for it, gets exactly the size it asks for and its inner padding, and keeps its padding free on both sides, no more than that if the frame is just the size counted for it |
| DialogLayout.HiddenIff | gr/dialog_tty.c:1442-1461 | a child that asks for something is hidden if and only if its frame leaves nothing inside padding and border, and stays as it was then |
| DialogLayout.ShownInOrder | gr/dialog_tty.c:1290-1461 | shown children lie inside the border of a container that is not a tab, each on its side of all that come after it |
| DialogLayout.TabsInCorner | gr/dialog_tty.c:1314-1319 | a tab shows all children that do not fill in the same corner, in just the size each asks for |
| DialogLayout.RequestIsLeast | gr/dialog_tty.c:1226-1277 | a container that is not a tab asks for the least size whose cavity serves all its children; a tab for the columns and rows of its largest children, at least for its border |
| LayoutPasses.ClearIff | gr/dialog_tty.c:1106-1126 | a pass leaves a widget marked if and only if some container of the tree asked for another size in it |
| LayoutPasses.ClearStays | gr/dialog_tty.c:1106-1126 | a pass over a tree without marks changes nothing and asks for nothing |
| LayoutPasses.AfterPass | gr/dialog_tty.c:1106-1126 | what every pass achieves: after t passes subtrees up to height t are quiet for good, and those one higher will find their request met |
| LayoutPasses.ClearByHeight | gr/dialog_tty.c:1079-1081 | whatever the sizes, after as many passes as the tree is high nothing is marked |
| LayoutPasses.StopsByHeight | gr/dialog_tty.c:1079-1081 | packing stops for every tree, after no more passes than it is high |
| LayoutPasses.StopsIff | gr/dialog_tty.c:1271-1277 | for every tree and every p: p passes or fewer if and only if the root never asks, or the need for its children's sizes, each left to itself, repeats by pass p |
| LayoutPasses.AllPlaced | gr/dialog_tty.c:1070-1088 | for every tree: packing leaves no widget marked if and only if no child's tree asks for another size in the last pass |
| LayoutFixpoint.FirstPass | gr/dialog_tty.c:1091-1126 | for every tree: what each widget asks for and shows after the first pass, computed from the sizes before it, and that the pass asks for nothing if and only if every request was up to date |
| LayoutFixpoint.CalcKeepsFinal | gr/dialog_tty.c:1106-1126 | no pass changes the sizes that widgets end up asking for |
| LayoutFixpoint.PoisedPass | gr/dialog_tty.c:1106-1126 | a pass over a tree whose marked containers have been answered asks for nothing and keeps every request |
| LayoutFixpoint.SteadyPoised | gr/dialog_tty.c:1106-1126 | if every widget below shows its final size at once, the first pass leaves every request final and every marked container answered |
| LayoutFixpoint.TwoPassesIff | gr/dialog_tty.c:1079-1081 | over children that show final sizes below them, two passes suffice if and only if the root's first need is what it asked for already, or its final one |
| LayoutFixpoint.OnePassIff | gr/dialog_tty.c:1079-1081 | for every tree: one pass is enough if and only if the root's request is up to date |
| LayoutFixpoint.TwoPasses | gr/dialog_tty.c:1070-1088 | such a tree takes one pass or two, and every request equals the computed need afterwards |
| LayoutFixpoint.AllPlacedIff | gr/dialog_tty.c:1070-1088 | over such children packing leaves no widget marked if and only if every request was up to date before or the root's own was not |
| LayoutFixpoint.UnaskedIsSteady | gr/dialog_tty.c:1096-1099 | a dialog whose containers start without a request is such a tree, whatever its widgets ask for, zero included |
| LayoutFixpoint.PlainIsSteady | gr/dialog_tty.c:1168-1185 | so is one of positive requests and borderless tabs, whatever was asked for before |
| LayoutFixpoint.FramesServe | gr/dialog_tty.c:1271-1359 | in a container of exactly the size it needs, tab or not, every frame has room for its child |
| LayoutFixpoint.NewIsServed | gr/dialog_tty.c:1070-1463 | after packing a new dialog of such widgets none is hidden, and each has at least the size it asks for |
| LayoutFixpoint.NewIsTidy | gr/dialog_tty.c:1070-1463 | and in the whole tree every widget lies inside its container as it is in the end, apart from its siblings and on its side of those after it unless they are tabs |
| LayoutFixpoint.ShrunkIsUntidy | gr/dialog_tty.c:1188-1198 | a tree in which a container is shrunk after its child has been placed, and the child sticks out |
| LayoutFixpoint.HiddenByWiderSibling | gr/dialog_tty.c:1070-1088 | a tree on which a container stays marked |
| LayoutFixpoint.BorderedTabTakesLonger | gr/dialog_tty.c:1168-1185 | a tree of height three that takes three passes |
| LayoutFixpoint.AbsoluteIsSum | gr/dialog_tty.c:1129-1145 | the absolute position of any widget is the sum of the relative ones up the tree, which stay |
| LayoutFixpoint.ApplyKeepsRequests | gr/dialog_tty.c:1129-1145 | assigning positions changes no request |
| LayoutFixpoint.NonNegativeKept | gr/dialog_tty.c:1106-1126 | a pass keeps all sizes and requests non-negative |
| Dialog.TruncBound | gr/dialog_tty.c:1497-1497 | what C division says about shares, with a negative slack as well |
| Dialog.PackExpandX | gr/dialog_tty.c:1477-1514 | computes the greatest common growth, never dividing by zero |
| Dialog.PackExpandY | gr/dialog_tty.c:1528-1559 | the same for rows |
| Dialog.ScanNeeds | gr/dialog_tty.c:1226-1258 | the one-pass scan with its running maxima computes the need defined by recursion, and the largest child for tabs |
| Dialog.RequestResize | gr/dialog_tty.c:1156-1165 | records the request without borders, and marks the widget and everything above it, nothing else |
| Dialog.CutFrame | gr/dialog_tty.c:1321-1359 | cuts the frame and the remaining cavity as defined, also when there is not enough room: the frame touches the side of the cavity that its child is attached to, and what is left lies on the other side of it |
| Dialog.PlaceChild | gr/dialog_tty.c:1379-1461 | sizes and places a child in its frame, or hides it and leaves it where it was |
| Dialog.PlaceChildren | gr/dialog_tty.c:1290-1462 | every child is placed in its own frame |
| Dialog.Packer | gr/dialog_tty.c:1201-1463 | asks for another size, marking only itself and the containers above it, or places all children and marks nothing; shown children of a container that is not a tab are then inside its border, each on its side of all that come after it |
| Dialog.DlgPackInit | gr/dialog_tty.c:1091-1103 | marks the whole tree, and lets widgets without a full request take it up |
| Dialog.DlgPackCalc | gr/dialog_tty.c:1106-1126 | one pass over a linked tree does what it does on values, and marks the containers above exactly when a request below is made |
| Dialog.DlgPackApply | gr/dialog_tty.c:1129-1145 | assigns absolute positions as on values |
| Dialog.DlgPack | gr/dialog_tty.c:1070-1088 | stops for every tree, after exactly the number of passes that the model gives, at most its height; positions are applied; a tree that shows its final sizes at once is settled in two |
| Motion.FlatIsPosition | gr/basic.c:886-906 | in text mode a flat offset is one position |
| Motion.Window.Move | gr/basic.c:1287-1375 | the new cursor and remembered column, for any target and flags, and whether the cursor moved |
| Motion.Window.Move2 | gr/basic.c:1258-1284 | the same for a target of which a part may be missing |
| Motion.MovedStaysNear | gr/basic.c:1297-1313 | the cursor goes to its target line, back to the first or the last line allowed at most; unless it obeys the end of lines also to its target column, clipped to the end of the line at most |
| Motion.Window.MoveNextChar | gr/basic.c:861-942 | where the cursor is afterwards, in every case: at flat offset o + n, but never past the start of the bottom line, and under the end-of-file rule at the start of the last line if that is past the buffer |
| Motion.Window.NextText | gr/basic.c:886-906 | text mode: one unit for each line end |
| Motion.Window.NextBinary | gr/basic.c:918-938 | binary mode: nothing between lines |
| Motion.NextArrives | gr/basic.c:861-942 | the offset of the cursor is o + n if and only if it starts above the bottom line, the walk ends by the start of that line, and it need not leave a buffer that it may not leave |
| Motion.NextInside | gr/basic.c:861-942 | the same for a walk that ends inside the buffer: it arrives if and only if it starts above the last line and ends by its start, or lines are allowed past the buffer and it is not a binary walk to the end under the end-of-file rule |
| Motion.Window.MovePrevChar | gr/basic.c:945-1070 | n characters back the cursor is at flat offset max(0, o - n), from lines past the buffer too, on which it keeps its column |
| Motion.Window.PrevText | gr/basic.c:965-1038 | text mode, over lines of characters of any width |
| Motion.Window.CharsBefore | gr/basic.c:978-1001 | the count of characters before the cursor, or the shortcut for a single one |
| Motion.Window.PrevBinary | gr/basic.c:1046-1066 | binary mode |
| Motion.Window.NextThenPrev | gr/basic.c:861-1070 | whenever the cursor arrives, both moves made one after the other end at the same flat offset, in text mode at the very same line and column |
| Motion.StuckOnLastLine | gr/basic.c:865-875 | on a one-line buffer and a terminal of six rows the cursor does not move on by one character |
| Motion.ClippedBack | gr/basic.c:1303-1305 | in a binary buffer of two bytes under the end-of-file rule, moving on by one from the second goes back to the first |
| Motion.Window.MovLine | gr/basic.c:1209-1255 | a vertical move: down to line + n or the last line allowed, up to line - n or the first line, with the column moved off a wide character that it would split |
| Motion.VerticalLine | gr/basic.c:1219-1228 | down goes n lines on, up n lines back, as far as the first and the last line allow |
| Motion.StraddleIsBoundary | gr/basic.c:1231-1252 | a column inside a character is moved to its first column; the first column of a character, or one past the line, stays |
| Motion.VerticalColumn | gr/basic.c:1230-1254 | on a line of the buffer a column inside a wide character is moved to that character's start, in binary mode never; every other column stays where the end of lines need not be obeyed |
| Motion.PastKeepsColumn | gr/basic.c:1324-1338 | on a line past the buffer a vertical move leaves the column, and the one remembered, as they are |
| Motion.SplitsIff | gr/basic.c:1231-1254 | a vertical move leaves the cursor inside a wide character if and only if it was to go past a buffer that may not be left, onto such a character of the last line |
| Motion.SplitsLastCharacter | gr/basic.c:1233-1254 | five lines down from the first of two lines the cursor is in the middle of a wide character |
| Motion.RunAddsUp | gr/basic.c:1219-1228 | a run of vertical moves that never has to stop short ends where its steps add up to |
| Motion.ThereAndBack | gr/basic.c:1209-1351 | if they add up to nothing, the cursor is back at the very same place |
| Motion.MoveStartsColumn | gr/basic.c:1320-1350 | a move that does not obey the end of lines, or changes the column on its line, sets the column that later vertical moves come back to |
| Motion.StepSticks | gr/basic.c:1315-1351 | one vertical move keeps: the cursor is at its column or remembers it, and is there whenever the line reaches that far |
| Motion.StickyColumn | gr/basic.c:1315-1351 | over any run of vertical moves the column comes back on every line that is long enough, and the cursor is never past the end of a shorter one |
| Motion.SingleWidthsNeverStraddle | gr/basic.c:1231-1252 | where every character is one column wide nothing is realigned |
| MacroUnits.InternGrows | gm/gm.c:416-433 | the string table only grows, without duplicates; sizes of atoms stay |
| MacroUnits.InternRestores | gm/gm.c:416-433 | interned atoms refer to strings in the table, and putting those back gives the original stream |
| MacroUnits.InternConcat | gm/gm.c:308-355 | interning macro by macro is interning the joined stream |
| MacroUnits.InternedAtom | gm/gm.c:319-350 | wherever an atom begins, interning keeps it but for the string of atoms 4, 12 and 13, in whose place is that of the string in the table |
| MacroUnits.AtomsFollow | gr/word.c:33-50 | atoms follow each other without a gap, at the sizes of the byte stream |
| MacroUnits.GlobalsExact | gm/gm.c:330-338 | the globals table is exactly the offsets of the global statements, in increasing order |
| MacroUnits.GlobalsConcat | gm/gm.c:330-338 | offsets within a macro plus its start are offsets in the joined stream |
| ObjectFile.Writer.PutString | gm/gm.c:416-433 | the string is in the table once, and its place in the atom |
| ObjectFile.Writer.InternMacro | gm/gm.c:319-350 | rewrites one macro in place as interning says |
| ObjectFile.Writer.InternMacros | gm/gm.c:308-355 | the atoms of all macros interned in order, where each begins, and the globals |
| ObjectFile.Writer.WriteOutput | gm/gm.c:272-413 | the file is the image of the joined and interned macros, their string table and globals; read back, word 4 * i is where macro i begins, and the words from the place in the header up to the end are the offsets of exactly the global statements, in increasing order |
| ObjectFile.Writer.StringTable | gm/gm.c:364-381 | the offsets written are where the strings are |
| ObjectFile.WordAt | gm/gm.c:500-507 | a 32-bit table is read back entry by entry |
| ObjectFile.StringAt | gm/gm.c:533-536 | every string is found whole at its offset |
| ObjectFile.MacroLies | gm/gm.c:308-355 | the first macro begins at the start, every other where the one before it ends, and from there on lies what it holds |
| ObjectFile.Layout | gm/gm.c:500-505 | where the reader looks for atoms, offsets and strings is where the writer put them, padding included |
| ObjectFile.HeadRead | gm/gm.c:505-507 | behind a header of 32 bytes are, word by word, where each macro begins, the length of the atoms with padding, and the number of strings; the string offsets are aligned |
| ObjectFile.GlobalsRead | gr/language.c:1351-1352 | the globals are, word by word, at the aligned place that the header tells, up to the end of the file |
| ObjectFile.ReadAtom | gm/gm.c:529-563 | reads one atom, its string in place of the number |
| ObjectFile.Disassemble | gm/gm.c:526-563 | walks all atoms of a file and restores every string |
| ObjectFile.RoundTrip | gm/gm.c:272-563 | what is restored from the written atoms and table is the original stream; no string is in the table twice; globals are exact and in order |
| ObjectFile.WriteAndDisassemble | gm/gm.c:272-581 | disassembling what was written gives back the atoms of all macros |
| DiffHash.NextDigit | gr/diff_hash.c:115-117 | one step in 32 bits is one base-127 digit of the unbounded value |
| DiffHash.TrimLeading | gr/diff_hash.c:210-229 | the length of the blank start |
| DiffHash.TrimTrailing | gr/diff_hash.c:243-261 | the length without the blank end |
| DiffHash.LeadingShorter | gr/diff_hash.c:210-229 | only blanks are dropped in front, and all of them |
| DiffHash.TrailingShorter | gr/diff_hash.c:243-261 | only blanks are dropped at the end, and all of them |
| DiffHash.SumStripped | gr/diff_hash.c:119-136 | the value of the string without white space |
| DiffHash.SumCompressed | gr/diff_hash.c:150-174 | the value of the string with runs of blanks compressed |
| DiffHash.DiffHash | gr/diff_hash.c:98-196 | for every flag set, the base-127 value modulo 2^32 of a normal form defined without the loops |
| DiffHash.CompressedNext | gr/diff_hash.c:154-174 | the pending space of the loop is what compression does one character at a time |
| DiffHash.LeadingByte | gr/diff_hash.c:210-229 | with leading white space suppressed, a byte before a line that does not start with white space drops out if it is 0x09, 0x0b, 0x0c or 0x20, and counts, folded if case is ignored, otherwise |
| DiffHash.TrailingByte | gr/diff_hash.c:243-261 | the same after a line that does not end with white space |
| DiffHash.CarriageReturn | gr/diff_hash.c:108-111 | with the flag for it one carriage return at the end drops out, no more; nothing else depends on that flag |
| DiffHash.IgnoredByte | gr/diff_hash.c:119-136 | when white space is ignored exactly those four and 0x0d drop out, anywhere |
| DiffHash.RunIsSpace | gr/diff_hash.c:150-174 | under compression any run of the four counts as one space, anywhere and under all other flags |
| DiffHash.SpacesKept | gr/diff_hash.c:150-174 | compression leaves a line alone that has only single spaces between other bytes |
| DiffHash.CompressedIsWords | gr/diff_hash.c:150-174 | the compressed string is the words of the line with single spaces, and one in front if it is indented |
| DiffHash.SameCompressed | gr/diff_hash.c:150-174 | two lines compress to the same if and only if they have the same words and both or neither are indented |
| DiffHash.OnlyWordsCount | gr/diff_hash.c:138-174 | under compression two lines have the same normal form if and only if they have the same words, up to case when ignored, and the same indentation unless suppressed |
| DiffHash.LowerIdentifies | gr/diff_hash.c:69-95 | which bytes case folding identifies: exactly those 32 apart from '@' to '_', of which six pairs are not letters |
| DiffHash.SameNormalForm | gr/diff_hash.c:98-196 | for every flag set two lines have the same normal form if and only if what white space handling leaves of them is the same byte by byte, up to those pairs |
| DiffHash.BracketIsBrace | gr/diff_hash.c:69-95 | two lines without letters that have the same normal form when case is ignored |
| DiffHash.ShortNeverZero | gr/diff_hash.c:189-195 | a line of which at most four bytes are left never hashes to zero, whatever the flags |
| DiffHash.EveryHash | gr/diff_hash.c:98-196 | whatever the flags, any line can be brought to any hash by five more bytes |
| DiffHash.ZeroLengths | gr/diff_hash.c:189-195 | whatever the flags, lines of a length can hash to zero if and only if it is five or more |
| DiffHash.ZeroHash | gr/diff_hash.c:189-195 | the line "WOoGQ" hashes to zero |
| DiffHash.TrailingIsRedundant | gr/diff_hash.c:145-174 | adding trailing suppression to compression changes nothing |
| EventRing.EventQueue.constructor | gr/builtin.c:74-80 | an empty queue |
| EventRing.EventQueue.ExecuteEvent | gr/builtin.c:438-448 | accepts an event unless 32 are pending, with counters that wrap; the signal bit is set exactly when events are pending |
| EventRing.EventQueue.Take | gr/builtin.c:468-470 | takes the oldest pending event; the signal bit is cleared with the last |
| EventRing.EventQueue.Drain | gr/builtin.c:464-472 | delivers all that is pending and all that arrives meanwhile |
| EventRing.EventQueue.Do | gr/builtin.c:456-475 | one step of a run, with the depth counter as the code keeps it |
| EventRing.SlotsDiffer | gr/builtin.c:442-443 | the slot written is not that of a pending event, whether or not the counters have wrapped |
| EventRing.ExecKeeps | gr/builtin.c:438-475 | every step keeps: accepted events are delivered or pending, in order of arrival, at most 32 pending |
| EventRing.DrainedKeeps | gr/builtin.c:464-472 | a delivery leaves nothing pending, and delivers what was promised in order |
| EventRing.Fifo | gr/builtin.c:438-475 | over any run: delivered events are the first of those accepted, in order; only arrivals at a full queue are dropped |
| EventRing.LostIffFull | gr/builtin.c:438-448 | after any run, an event that arrives is lost if and only if exactly 32 are pending, and is the last one pending otherwise |
| EventRing.ExecCounts | gr/builtin.c:463-473 | the depth counter is off by the number of list ends that found events pending and did not deliver them |
| EventRing.DeliversIff | gr/builtin.c:462-475 | after any run, the end of a list outside any handler delivers what is pending if and only if those earlier failures are a multiple of 2^32 in number |
| EventRing.FailsIffCollides | gr/builtin.c:456-475 | a run fails to deliver somewhere if and only if in it some list ends inside a running handler with events pending, by a play of the run that knows no counter |
| EventRing.DeliversUnlessCollided | gr/builtin.c:456-475 | after any run of fewer than 2^32 list ends the next one delivers what is pending if and only if that never happened |
| EventRing.Wedged | gr/builtin.c:462-475 | from a state between lists after a failure, no list that ends later delivers anything, as long as failures are fewer than 2^32 |
| EventRing.NestedListWedges | gr/builtin.c:462-475 | two pending events and a handler with a nested list are enough |
| EventRing.FlatHandlersNeverWedge | gr/builtin.c:462-475 | if no list ends while an event is handled, the counter is back at zero after every list, over any run |

## Left out

- Allocation failure, file input and output, byte order conversion and tracing; the object file is a sequence of units, a multi-byte operand one unit and filler.
- DiffEngine.Diff: requires that the search left after the common prefix fits the sparse array, by a bound on the distance, the sizes and the cap (`Fits`) that is sufficient only, because the code does not handle `varray_get` returning NULL; `idx` is indexing of a sequence and `cmp` a pure function.
- DiffEngine.Run: promises no script when an array is given without a count, since its first cell is then not reset and the edits may extend what was there before.
- The errno values of the error exits of the diff engine.
- Integers are unbounded in the diff engine, the packer and the motion code, except for the line limit in `mov_line` and the 32-bit counters and sums.
- Dialog.Packer: requires the children's sizes, padding and borders not to be negative.
- Dialog.DlgPack: requires the same of the whole tree; the pass counts on values in LayoutPasses do not.
- Dialog.Resize: the notification to the widget is not sent, so handlers leave geometry alone and the packing error flag is never set.
- Widget handlers, painting, focus, keyboard and mouse; the panic on an unknown alignment.
- LayoutPasses.StopsIff: beyond steady children its condition speaks of the children's own passes; what they show in later passes depends on how slack was shared out among them in earlier ones, so there is no shorter form in the sizes before packing.
- Dialog widgets link their children by a sequence, not by a tail queue.
- Motion.Window.MoveNextChar: starts at a character boundary; so does Motion.Window.MovePrevChar.
- LineText.LineOffset and the other text helpers of `gr/map.c` are modelled only at character boundaries, over a decoder whose widths and lengths are positive; tabs, control characters and encodings are whatever the decoder says.
- Motion.Window.Move: the return value is the function result; undo records and window damage are left out. System and dialog buffers behave as with the end-of-line rules off.
- MacroUnits.GlobalsOf takes which builtin is `global` as a predicate on its number; the other fields of the header and its signature checks are left out.
- ObjectFile.Writer.WriteOutput: the fixed sizes of the tables for strings and globals, which the code does not check, are unbounded here; atoms with an operation code of F_MAX or more, on which both walks give up with a message, are excluded.
- DiffHash.DiffHash: a null buffer is an empty line.
- EventRing.EventQueue.Do: arrival, taking and delivery are atomic steps; an event interrupting the middle of one is not modelled. What a handler does is given as the steps that reach the queue.
- Accumulator, anchors, bookmarks, chunks, dictionaries, character maps, borders, echo line, options and startup: input and output, interface code or easy lookups.

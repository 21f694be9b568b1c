# Verification of the native core

A Dafny model of the stateful algorithms in the repository's native code, with
proofs. Each module follows one source component.

**The skyline packer** (`imstb_rectpack.h`). The outline of what is packed is a
linked list of nodes, searched for the best position and spliced in place.
`Skyline` and `SkylineSearch` read a node list as one height per column and
relate scan, search and splice to brute force over columns and integer
positions. `Packing`, `PackingSafety`, `PackingFloor`, `PackingNodes` and
`PackingRounded` state the packer as a machine on values and prove what holds over
all runs.
`SkylinePacker` is the heap code itself, its two lists of nodes included, proved
to refine that machine; `PackerSearch` holds the lemmas its loops use.
`RectPacking` sorts, packs and unsorts the caller's array, and `PackerCalls` has runs
of such calls.

**The undo engine and text field** (`imstb_textedit.h`). Undo and redo records
grow towards each other in one array, their characters in another. `Edits` has
edits, their inverses and the history an editor's user expects. `UndoArena` is
the buffer on values, `UndoHistory` and `UndoRedo` say what its records mean,
`UndoRuns` has the theorems over runs. `UndoBuffer` is the code on arrays.
`Reconcile` finds the shortest replacement when a client changed the text, and
`TextEditor` is the field around all this: cursor, selection and keys.

**Smaller parts.** `CircularBuffer` (`circular_buffer.h`) and the trace history
kept in it (`TraceHistory`: `Tool/Frida.cpp`, `Main.cpp`); the predecessor search
in the method table (`MethodTable`: `Tool/Frida.cpp`); the hex printer and reader
(`HexStrings`: `KittyMemory/KittyUtils.cpp`).

Methods on arrays and linked nodes are proved equal to specification functions
(`View() == Step(old(View()), ...)`, `Snap() == Undo(old(Snap()), ...)`), and the
theorems are about those functions. Large source functions are cut into several
methods, one for each loop or stage, so that each proof stays small.

## Where the code and its promises differ

- The header of the packer promises that the default quantum keeps it from
  running out of nodes (`imstb_rectpack.h:145-153`, `253-262`). Widths are rounded
  for the search only, the splice uses the raw width, and unit squares use up the
  nodes. `PackingNodes.NodesSufficeIff` has the exact condition, for both
  heuristics: as many nodes as columns, or a target one unit high and narrower
  than nodes plus quantum.
- For the same reason a placement can raise columns beside its block.
  `PackingSafety.PointwiseIff` says when a single one does; no placement ever does
  exactly with bottom-left or a quantum of at most 3
  (`PackingRounded.PointwiseExactly`), and for every larger quantum there is a run
  from a fresh target that gets there (`PackingRounded.PointwiseFails`).
- The scan can charge a block for columns left of it (`imstb_rectpack.h:326-332`),
  exactly when the block starts strictly inside a stretch of height 0
  (`SkylineSearch.ExactIff`). On reachable skylines the report is exact.
- An undo that discards redo records to make room looks its slot up again but does
  not write place and lengths to it again (`imstb_textedit.h:1250-1269`). What is
  left in the slot belongs to another record (`UndoRedo.DiscardWritesOver`), and
  unless the two are equally long the redo side is no longer tiled
  (`UndoRedo.DiscardTiledIff`). Redo may then ask for a place outside the text, and
  a later undo that has to discard such a record either gives up, through the return
  marked as never happening (1253-1254), or would move characters out of the array
  (1152-1153). `UndoArena.UndoneIff` is the exact guard for one undo,
  `UndoRuns.ThreePastes` a family of runs with all three endings, such as pastes of
  600, 500 and 600 characters or of 200, 900 and 100. An undo that is carried out
  does restore the previous text, and one that gives up keeps the whole past
  (`UndoRedo.GivenUpKeepsPast`); but then undo is stuck until the next edit
  (`UndoRuns.GivenUpIsStuck`).
- So edits whose records are all there (`UndoRuns.EditsAreRemembered`) can still not
  always be undone, as those pastes show: it takes undos that are carried out
  (`UndoRuns.EditsAreTakenBack`), for which it is enough that all the characters deleted
  and inserted fit in the buffer (`UndoRuns.EditsAndBack`).
- Overwriting a character in a full field deletes it although the new one does not
  fit, and leaves a record that does not bring it back (`TextEditor.Field.Overwrite`).
  If it was the last character the record does not lie in the text
  (`TextEditor.OverwriteLast`).
- A selection left over from a longer text lets left, word left and one step right
  with shift put the cursor behind the text (`TextEditor.Field.Press`). The run
  `TextEditor.LeftOfStaleSelection` gets there with keys alone, at the interface
  `stb_textedit_key`. The repository's own caller rules that run out: it clears the
  selection after undo and redo (`imgui_widgets.cpp:4546`) and clamps it when the
  text is reloaded (`imgui_widgets.cpp:4231`, `4304`).
- The history's search and append are not one atomic step, so overlapping calls can
  enter a name twice (`TraceHistory.OverlappingCallsRepeat`), exactly if two threads
  are about to append one name (`TraceHistory.FinishIff`, `TraceHistory.SeparateRunsKeep`).
- The binary search cuts a 64-bit difference to a 32-bit `int`. The exact condition
  is `MethodTable.SearchRightIff`.

## Model

| member | source | states |
|---|---|---|
| `Skyline.SpliceWf` | app/src/main/jni/imgui/imstb_rectpack.h:464-499 | after a block was spliced in, the nodes still start at 0, increase strictly in x and end at the sentinel |
| `Skyline.SpliceRaises` | app/src/main/jni/imgui/imstb_rectpack.h:464-499 | read as one height per column, the splice sets exactly the columns it raises to the block's top and leaves all others alone |
| `Skyline.RaiseArea` | app/src/main/jni/imgui/imstb_rectpack.h:464-499 | raising `w` columns to `y + h` adds `w * h` and the waste below `y` to the area under the outline |
| `Skyline.NodesAtMostColumns` | app/src/main/jni/imgui/imstb_rectpack.h:265-288 | a proper skyline has at most one node per column besides the sentinel (pigeonhole on strictly increasing x) |
| `SkylineSearch.ScanFindsPeak` | app/src/main/jni/imgui/imstb_rectpack.h:314-338 | the scan's height is the highest column under the block, from any node and any position over it |
| `SkylineSearch.ScanIsExact` | app/src/main/jni/imgui/imstb_rectpack.h:314-338 | the scan's tally is peak and waste over the columns it has reached, if it sees the whole first stretch or rises on it |
| `SkylineSearch.ExactIff` | app/src/main/jni/imgui/imstb_rectpack.h:315-333 | height and waste are right on every skyline through a first node exactly when the block starts at that node or the node is above 0 |
| `SkylineSearch.WasteOverstated` | app/src/main/jni/imgui/imstb_rectpack.h:326-332 | for every block that starts strictly inside a stretch of height 0 there is a skyline on which the waste reported is wrong |
| `SkylineSearch.ExactWhenZeroLast` | app/src/main/jni/imgui/imstb_rectpack.h:291-339 | where only the last stretch is still at height 0, the scan is exact for every start |
| `SkylineSearch.NodeAlignedSuffices` | app/src/main/jni/imgui/imstb_rectpack.h:365-389 | the start of the stretch under any position is no higher and no further right: bottom-left loses nothing by trying nodes only |
| `SkylineSearch.CandidatesSuffice` | app/src/main/jni/imgui/imstb_rectpack.h:391-441 | a lowest integer position can be slid to one where a node meets the left or right edge, no worse in height, waste and place |
| `Packing.Rounded` | app/src/main/jni/imgui/imstb_rectpack.h:353-356 | the searched width is a multiple of the quantum, at least the width asked for and less than a quantum above it |
| `Packing.Quantum` | app/src/main/jni/imgui/imstb_rectpack.h:253-262 | the quantum times the node count reaches the width, by less than one node per quantum |
| `Packing.InitInv` | app/src/main/jni/imgui/imstb_rectpack.h:265-288 | a fresh target satisfies the invariant under every configuration, with no area under its outline |
| `Packing.BestMeans` | app/src/main/jni/imgui/imstb_rectpack.h:365-441 | what best means: none lower; of those as low none further left with bottom-left, and with best-fit none with less waste, nor further left with as little |
| `Packing.BestBelow` | app/src/main/jni/imgui/imstb_rectpack.h:365-441 | among the integer positions there always is one that no other beats |
| `Packing.BestIsUnique` | app/src/main/jni/imgui/imstb_rectpack.h:365-441 | and only one, so the order of the search cannot matter |
| `Packing.PlacedIffFits` | app/src/main/jni/imgui/imstb_rectpack.h:455-462 | a request has a place exactly when at some integer position the highest column plus its height stays in the target, and a node is spare |
| `PackingSafety.PlacedNeverLowers` | app/src/main/jni/imgui/imstb_rectpack.h:464-499 | no column gets lower by a placement, at any quantum and heuristic |
| `PackingSafety.PlacedSafe` | app/src/main/jni/imgui/imstb_rectpack.h:449-499 | the new box lies in the target, overlaps none placed before, and is below the new outline |
| `PackingSafety.StepKeepsInv` | app/src/main/jni/imgui/imstb_rectpack.h:449-526 | every request, placed or not, keeps the whole invariant: proper skyline, nodes accounted for, boxes disjoint and inside |
| `PackingSafety.After` | app/src/main/jni/imgui/imstb_rectpack.h:449-526 | so does every run of requests, which leaves size, quantum, node count and heuristic alone |
| `PackingSafety.RunIsSafe` | app/src/main/jni/imgui/imstb_rectpack.h:449-526 | over every run of single requests from a fresh target, under both heuristics and both memory settings, placed boxes are pairwise disjoint and inside |
| `PackingSafety.PointwiseIff` | app/src/main/jni/imgui/imstb_rectpack.h:475-499 | a placement is exactly "columns [x, x+w) become y+h" unless the node under the left edge starts further left and ends right of the block |
| `PackingRounded.PointwiseFails` | app/src/main/jni/imgui/imstb_rectpack.h:353-499 | for every quantum of at least 4 a run with best-fit, from a fresh target, after which placing a unit square raises more than its column |
| `PackingRounded.PointwiseExactly` | app/src/main/jni/imgui/imstb_rectpack.h:347-499 | every placement in every state raises its columns and no others exactly with bottom-left, or with a quantum of at most 3 |
| `PackingFloor.FloorSpot` | app/src/main/jni/imgui/imstb_rectpack.h:347-447 | as long as the rounded width fits on the ground left at the right, a block goes to its left end, whatever else is built and under both heuristics |
| `PackingFloor.FloorStep` | app/src/main/jni/imgui/imstb_rectpack.h:449-526 | and what the outline and the stock of nodes are then |
| `PackingSafety.BottomLeftStartsAtNode` | app/src/main/jni/imgui/imstb_rectpack.h:367-375 | with bottom-left the best position starts at a node, so the exception never arises |
| `PackingSafety.NarrowRoundingMeetsNode` | app/src/main/jni/imgui/imstb_rectpack.h:353-441 | nor does it with a quantum of at most 3: a block that starts and ends inside one stretch would do better on the left end of that stretch |
| `PackingSafety.BestAvoidsInnerZero` | app/src/main/jni/imgui/imstb_rectpack.h:449-462 | a best position never starts strictly inside ground at height 0, which keeps the waste report exact on every reachable skyline |
| `PackingSafety.StepArea` | app/src/main/jni/imgui/imstb_rectpack.h:464-499 | with no rounding a placement adds its area and its waste to the area under the outline |
| `PackingSafety.AreaConserved` | app/src/main/jni/imgui/imstb_rectpack.h:291-499 | over whole runs with no rounding: area under the outline = area of the placed boxes + waste the scan reported for them |
| `PackingNodes.SpareNode` | app/src/main/jni/imgui/imstb_rectpack.h:449-469 | with as many nodes as columns a node is always spare |
| `PackingNodes.EnoughNodesFailIff` | app/src/main/jni/imgui/imstb_rectpack.h:449-462 | and then a request fails exactly when no integer position has room for it |
| `PackingNodes.RowRun` | app/src/main/jni/imgui/imstb_rectpack.h:245-288 | with fewer nodes than columns unit squares line up side by side, each using up a node, under both heuristics |
| `PackingNodes.RowStarves` | app/src/main/jni/imgui/imstb_rectpack.h:449-469 | so that after as many of them as there are nodes another one fits, on top or behind, but is turned away |
| `PackingNodes.LowSpareNode` | app/src/main/jni/imgui/imstb_rectpack.h:449-469 | in a target one unit high a request that fits finds a node as long as the quantum does not fit behind as many boxes as there are nodes |
| `PackingNodes.NodesSufficeIff` | app/src/main/jni/imgui/imstb_rectpack.h:145-153 | with the default quantum no run, under either heuristic, turns away what fits for lack of a node, exactly when there are as many nodes as columns, or the target is one unit high and narrower than nodes plus quantum |
| `PackerSearch.NodesDecide` | app/src/main/jni/imgui/imstb_rectpack.h:365-389 | no worse than every node position means no worse than every integer position (bottom-left) |
| `PackerSearch.CandidatesDecide` | app/src/main/jni/imgui/imstb_rectpack.h:391-441 | no worse than every candidate means no worse than every integer position (best-fit); no candidate fitting means nothing fits |
| `PackerSearch.Refused` | app/src/main/jni/imgui/imstb_rectpack.h:455-462 | the three reasons to give up are exactly those for which the model has no place, and nothing changes |
| `SkylinePacker.Context.InitTarget` | app/src/main/jni/imgui/imstb_rectpack.h:265-288 | links the nodes into the spare list, builds the two-node skyline, and reaches the fresh state of the model |
| `SkylinePacker.Context.SetupHeuristic` | app/src/main/jni/imgui/imstb_rectpack.h:233-243 | changes the heuristic and nothing else |
| `SkylinePacker.Context.SetupAllowOutOfMem` | app/src/main/jni/imgui/imstb_rectpack.h:245-263 | sets the quantum to 1, or to the least one with quantum times nodes at least the width |
| `SkylinePacker.Context.FindMinY` | app/src/main/jni/imgui/imstb_rectpack.h:291-339 | returns the highest column and the exact wasted area under the block, for every start and reachable list |
| `SkylinePacker.Context.FindBottomLeft` | app/src/main/jni/imgui/imstb_rectpack.h:365-391 | the link returned leads to the leftmost lowest of all integer positions |
| `SkylinePacker.Context.FitLeftEdges` | app/src/main/jni/imgui/imstb_rectpack.h:365-389 | after the first pass the leader is no worse than every fitting position with a node at its left edge |
| `SkylinePacker.Context.FitRightEdges` | app/src/main/jni/imgui/imstb_rectpack.h:410-441 | after the second pass also than every fitting position with a node at its right edge |
| `SkylinePacker.Context.Advance` | app/src/main/jni/imgui/imstb_rectpack.h:421-426 | the node the walk stops at is the one whose stretch holds the position, and the link leads to it |
| `SkylinePacker.Context.FindBestFit` | app/src/main/jni/imgui/imstb_rectpack.h:365-446 | no integer position is lower, or as low with less waste, or equal and further left; no link means no position fits |
| `SkylinePacker.Context.FindBestPos` | app/src/main/jni/imgui/imstb_rectpack.h:347-447 | refines brute force over all integer positions, for both heuristics; no link means the request does not fit |
| `SkylinePacker.Context.HookIn` | app/src/main/jni/imgui/imstb_rectpack.h:464-483 | takes the first spare node and hooks it in, behind the node that starts further left or in place of the one that does not |
| `SkylinePacker.Context.Release` | app/src/main/jni/imgui/imstb_rectpack.h:485-493 | moves the covered nodes to the spare list, last one first, and stops where the model's splice does |
| `SkylinePacker.Context.Stitch` | app/src/main/jni/imgui/imstb_rectpack.h:495-499 | links the rest behind the new node and moves its start to the block's end if it began before that |
| `SkylinePacker.Context.Insert` | app/src/main/jni/imgui/imstb_rectpack.h:464-499 | the pointer surgery as a whole: active list becomes the spliced one, both lists stay acyclic, disjoint, and hold the same nodes |
| `SkylinePacker.Context.Place` | app/src/main/jni/imgui/imstb_rectpack.h:464-499 | placing keeps the invariant and takes the abstract state to the one after the placement |
| `SkylinePacker.Context.PackRectangle` | app/src/main/jni/imgui/imstb_rectpack.h:449-526 | one request on the heap is one step of the model, found exactly if it has a place, and at that place |
| `RectPacking.MarkIsFailure` | app/src/main/jni/imgui/imstb_rectpack.h:562-577 | no rectangle that got a place ends at the far away mark, so the mark identifies exactly the failures |
| `RectPacking.PlacedIsBox` | app/src/main/jni/imgui/imstb_rectpack.h:558-570 | each non-empty rectangle that got a place accounts for a box of its own |
| `RectPacking.PackedAreDisjoint` | app/src/main/jni/imgui/imstb_rectpack.h:558-570 | such rectangles lie inside the target and overlap neither each other nor anything packed by earlier calls |
| `RectPacking.IncreasingIsIdentity` | app/src/main/jni/imgui/imstb_rectpack.h:572-573 | sorting by the saved positions can only give the original order |
| `RectPacking.UnsortedIndex` | app/src/main/jni/imgui/imstb_rectpack.h:550-573 | the second sort undoes the first, whatever the sorting routine does with ties |
| `RectPacking.SortedSizes` | app/src/main/jni/imgui/imstb_rectpack.h:555-556 | tagging does not disturb the order by height and width |
| `RectPacking.CallerSees` | app/src/main/jni/imgui/imstb_rectpack.h:546-584 | every rectangle is back in its position with id and size; its flag is set exactly if it is empty or got a place |
| `RectPacking.FlaggedAreDisjoint` | app/src/main/jni/imgui/imstb_rectpack.h:546-584 | no two non-empty rectangles flagged by one call overlap |
| `RectPacking.Sort` | app/src/main/jni/imgui/imstb_rectpack.h:555-573 | what is assumed of the sorting routine: it permutes the array into the order asked for |
| `RectPacking.PlaceAll` | app/src/main/jni/imgui/imstb_rectpack.h:558-570 | each rectangle gets the place it would get after all before it |
| `RectPacking.SetFlags` | app/src/main/jni/imgui/imstb_rectpack.h:575-583 | flags all but those at the mark, and returns 1 exactly if all are flagged |
| `RectPacking.OrderIsByHeight` | app/src/main/jni/imgui/imstb_rectpack.h:528-536 | the comparator's order is exactly: no rectangle before a higher one, or before a wider one of the same height |
| `RectPacking.AnswerSeen` | app/src/main/jni/imgui/imstb_rectpack.h:558-584 | an empty rectangle is flagged and at (0, 0), and one that is not flagged, and no other, has 0x7fffffff for both coordinates |
| `RectPacking.PackRects` | app/src/main/jni/imgui/imstb_rectpack.h:546-584 | packs high rectangles before lower ones and, of one height, wide ones first; the array comes back in order with ids and sizes, the coordinates of empty and failed ones as stated in numbers, and 1 means that every flag is set |
| `PackerCalls.FlaggedIsBox` | app/src/main/jni/imgui/imstb_rectpack.h:546-584 | where a flagged non-empty rectangle is, there is one of the packer's boxes after the call |
| `PackerCalls.LaterIsApart` | app/src/main/jni/imgui/imstb_rectpack.h:546-584 | what later calls flag is inside and overlaps no box there is now |
| `PackerCalls.FlaggedAreApart` | app/src/main/jni/imgui/imstb_rectpack.h:546-584 | over every run of calls, with heuristic and memory setting changed at will in between, no two flagged non-empty rectangles overlap, be they of one call or of two |
| `PackerCalls.CallsAreSafe` | app/src/main/jni/imgui/imstb_rectpack.h:265-584 | so from a fresh target on: all of them are inside, and any two are apart |
| `PackerCalls.DoAll` | app/src/main/jni/imgui/imstb_rectpack.h:233-584 | any sequence of such calls on the heap is a run the theorems speak of: each call packs what its array held before, and the array holds what it gave back, as far as no other call packs the same array |
| `PackerCalls.PackInto` | app/src/main/jni/imgui/imstb_rectpack.h:233-584 | from a fresh target, in the end all flagged non-empty rectangles in the arrays are inside, and no two of them overlap |
| `Edits.InverseTakesBack` | app/src/main/jni/imgui/imstb_textedit.h:1217-1334 | the inverse of an edit takes the new text back to the old one, and its inverse is the edit |
| `UndoArena.DiscardUndoTiled` | app/src/main/jni/imgui/imstb_textedit.h:1121-1137 | dropping the oldest undo record leaves the others' characters tiling the lower part in order |
| `UndoArena.DiscardRedoTiled` | app/src/main/jni/imgui/imstb_textedit.h:1143-1171 | dropping the oldest redo record leaves the others tiling the upper part in order |
| `UndoRedo.DiscardKeepsEdits` | app/src/main/jni/imgui/imstb_textedit.h:1143-1171 | and keeps the edits all the others denote, their characters included, although records and characters move |
| `UndoRedo.RoomKeepsEdits` | app/src/main/jni/imgui/imstb_textedit.h:1250-1257 | making room drops the last redo edits and keeps what the others denote |
| `UndoArena.MakeRoom` | app/src/main/jni/imgui/imstb_textedit.h:1190-1192 | dropping oldest undo records ends with room for the characters, and leaves all other records and characters alone |
| `UndoArena.RoomDropsFewest` | app/src/main/jni/imgui/imstb_textedit.h:1190-1192 | and drops no record that could stay: without the last one dropped there is not enough room |
| `UndoArena.ClearedDropsFewest` | app/src/main/jni/imgui/imstb_textedit.h:1173-1195 | making a record drops the fewest oldest records that leave a free slot and room for its characters |
| `UndoArena.RecordedIsOneMore` | app/src/main/jni/imgui/imstb_textedit.h:1173-1215 | so an edit costs no record as long as there is a free slot and room, and adds its own record and characters |
| `UndoArena.Cleared` | app/src/main/jni/imgui/imstb_textedit.h:1173-1195 | the redo side is emptied and there is a free slot and room, unless the characters exceed the buffer: then nothing is left |
| `UndoArena.RoomMadeIff` | app/src/main/jni/imgui/imstb_textedit.h:1250-1257 | making room on the redo side ends well exactly when dropping some suffix of the redo records, by the lengths they tell, frees enough and reaches no further than the array; it runs out of records exactly when all of them are too few |
| `UndoArena.RedoRoomDropsFewest` | app/src/main/jni/imgui/imstb_textedit.h:1250-1257 | it drops the fewest last redo records that free enough |
| `UndoArena.RoomOnTiled` | app/src/main/jni/imgui/imstb_textedit.h:1250-1257 | on a tiled redo side it always ends well, and the side stays tiled |
| `UndoArena.UndoneIff` | app/src/main/jni/imgui/imstb_textedit.h:1226-1257 | undo is carried out exactly when there is nothing to save, no hope to save it, or room can be made; otherwise it gives up or would move characters out of the array, and which of them is told by the lengths |
| `UndoArena.Undo` | app/src/main/jni/imgui/imstb_textedit.h:1217-1283 | after an undo that is carried out neither the records nor the characters of the two sides have crossed |
| `UndoHistory.DiscardLosesOldest` | app/src/main/jni/imgui/imstb_textedit.h:1121-1137 | dropping the oldest undo record loses the oldest text of the history and keeps what all other records mean |
| `UndoHistory.ClearedLosesOldest` | app/src/main/jni/imgui/imstb_textedit.h:1173-1195 | making a record forgets oldest texts only |
| `UndoHistory.RecordedLeads` | app/src/main/jni/imgui/imstb_textedit.h:1197-1215 | after an edit the records lead back through all remembered texts, the new one first, and nothing is left to redo |
| `UndoHistory.TiledWorks` | app/src/main/jni/imgui/imstb_textedit.h:1236-1259 | on a tiled redo side every undo is carried out, as the source has it (there is room eventually) |
| `UndoHistory.RedoRecordKeepsUndo` | app/src/main/jni/imgui/imstb_textedit.h:1227-1269 | making the redo record touches no record or character the undo side relies on, also when it discards |
| `UndoHistory.TopIsReady` | app/src/main/jni/imgui/imstb_textedit.h:1225-1279 | the newest record always lies within the text, and carrying it out gives the previous text |
| `UndoHistory.UndoLeadsBack` | app/src/main/jni/imgui/imstb_textedit.h:1217-1283 | an undo that is carried out restores the previous text and keeps all older ones reachable, whatever the redo side looks like |
| `UndoRedo.UndoLeadsOn` | app/src/main/jni/imgui/imstb_textedit.h:1217-1283 | an undo that fits puts the text left behind in front of the future |
| `UndoRedo.NextIsReady` | app/src/main/jni/imgui/imstb_textedit.h:1295-1318 | the next redo record lies within the text and there is always room for its undo record, as the source asserts |
| `UndoRedo.RedoLeads` | app/src/main/jni/imgui/imstb_textedit.h:1285-1334 | redo goes on to the next text, and from there back and on through all the others |
| `UndoRedo.RedoStepsOn` | app/src/main/jni/imgui/imstb_textedit.h:1285-1334 | redo of any record that lies in text and array, with room for what it deletes, can be undone, whatever text it leads to |
| `UndoRedo.RedoWithoutRoom` | app/src/main/jni/imgui/imstb_textedit.h:1304-1306 | without that room its undo record leads back exactly if nothing was changed |
| `UndoRedo.UndoExactIff` | app/src/main/jni/imgui/imstb_textedit.h:1217-1283 | undo turns the newest undo edit into its inverse in front of the redo edits, leaving all others, exactly when the deleted characters fit between the sides |
| `UndoRedo.UndoNoneBelow` | app/src/main/jni/imgui/imstb_textedit.h:1217-1283 | no undo leaves characters of a redo record below the redo side, which is all the exactness of undo asks of it |
| `UndoRedo.DiscardDropsRecords` | app/src/main/jni/imgui/imstb_textedit.h:1250-1257 | an undo that makes room ends up with no more redo records than before |
| `UndoRedo.ForgottenIsEmpty` | app/src/main/jni/imgui/imstb_textedit.h:1244-1246 | an undo with no room at all leaves a redo record without text, on an otherwise sound redo side |
| `UndoRedo.GivenUpKeepsPast` | app/src/main/jni/imgui/imstb_textedit.h:1226-1257 | an undo that gives up loses all redo records and nothing else: the records still lead back through the whole past, and the next undo gives up, too |
| `UndoRedo.DiscardWritesOver` | app/src/main/jni/imgui/imstb_textedit.h:1250-1269 | after an undo that discards, the front redo record has the place and lengths of the former front record, while the characters stored for it are those the undo deleted; the records dropped are the fewest that free enough |
| `UndoRedo.DiscardLeaves` | app/src/main/jni/imgui/imstb_textedit.h:1217-1283 | a discarding undo as a whole: one undo edit gone, the redo edits behind the front one are a front part of the former ones, and the front one is mixed as stated above |
| `UndoRedo.DiscardTiledIff` | app/src/main/jni/imgui/imstb_textedit.h:1250-1269 | so the redo side stays tiled exactly if the former front record was as long as what the undo deleted |
| `UndoRuns.UndoMeaning` | app/src/main/jni/imgui/imstb_textedit.h:1217-1283 | read as a history, an undo that fits is one step back |
| `UndoRuns.RedoMeaning` | app/src/main/jni/imgui/imstb_textedit.h:1285-1334 | read as a history, a redo is one step on |
| `UndoRuns.RedoUndoesUndo` | app/src/main/jni/imgui/imstb_textedit.h:1217-1334 | and these steps undo each other |
| `UndoRuns.PointsFromMeaning` | app/src/main/jni/imgui/imstb_textedit.h:1217-1334 | the history alone determines both record points and both character points |
| `UndoRuns.StepTracks` | app/src/main/jni/imgui/imstb_textedit.h:1217-1359 | edits, undos and redos keep the undo side tiled, all points in bounds and the records in step with the edit history, also past an undo that discards or gives up |
| `UndoRuns.ExactWorks` | app/src/main/jni/imgui/imstb_textedit.h:1217-1334 | while no undo has lost anything both undo and redo find what they need |
| `UndoRuns.Run` | app/src/main/jni/imgui/imstb_textedit.h:1114-1359 | so does every run in which no undo leaves the array and each redo finds a record it can carry out |
| `UndoRuns.GivenUpIsStuck` | app/src/main/jni/imgui/imstb_textedit.h:1217-1334 | once an undo has given up no number of undos and redos changes text or history |
| `UndoRuns.EditFrees` | app/src/main/jni/imgui/imstb_textedit.h:1173-1359 | and the next edit makes undo work again, with the whole past in the history |
| `UndoRuns.UndosReachPast` | app/src/main/jni/imgui/imstb_textedit.h:1217-1283 | after any such run k undos give exactly the text k edits earlier, for every k as far as the undos are carried out |
| `UndoRuns.EditsAreRemembered` | app/src/main/jni/imgui/imstb_textedit.h:1173-1215 | in any run of edits with record slots and room for what they delete every edit adds one record, and none is dropped |
| `UndoRuns.EditsAreTakenBack` | app/src/main/jni/imgui/imstb_textedit.h:1173-1283 | so as many undos lead back to the text before the first of them, as long as undo is carried out |
| `UndoRuns.EditsAndBack` | app/src/main/jni/imgui/imstb_textedit.h:1173-1334 | which it always is when all they delete and insert fits in the buffer: then they can all be undone, back to the first text, and redone, on to the last |
| `UndoRuns.UndoTiledIff` | app/src/main/jni/imgui/imstb_textedit.h:1217-1283 | an undo leaves a tiled redo side tiled exactly if it does not drop records for a text of another length |
| `UndoRuns.LevelWorks` | app/src/main/jni/imgui/imstb_textedit.h:1217-1283 | so from a tiled side all undos there are records for are carried out, as long as none before the last drops records for a text of another length |
| `UndoRuns.UndosRedosRestore` | app/src/main/jni/imgui/imstb_textedit.h:1217-1334 | n fitting undos and n redos restore the meaning of every record |
| `UndoRuns.UndosRedosIdentity` | app/src/main/jni/imgui/imstb_textedit.h:1217-1334 | and with it the text, both record points and both character points |
| `UndoRuns.ThreePastes` | app/src/main/jni/imgui/imstb_textedit.h:1217-1283 | pastes of x, y and z characters, the last two together too many, and two undos leave a redo record that does not lie in the text; a third undo is carried out, gives up or would leave the array, depending on x, y and z as stated |
| `UndoBuffer.Memmove` | app/src/main/jni/imgui/imstb_textedit.h:1129-1135 | moves a block within an array also where source and target overlap |
| `UndoBuffer.Buffer.constructor` | app/src/main/jni/imgui/imstb_textedit.h:1362-1384 | a new buffer is empty on both sides and tiled |
| `UndoBuffer.Buffer.FlushRedoSide` | app/src/main/jni/imgui/imstb_textedit.h:1114-1118 | empties the redo side |
| `UndoBuffer.Buffer.DiscardOldestUndo` | app/src/main/jni/imgui/imstb_textedit.h:1121-1137 | moves records and characters down over the oldest record, as the model's drop does |
| `UndoBuffer.Buffer.DiscardOldestRedo` | app/src/main/jni/imgui/imstb_textedit.h:1143-1171 | moves records and characters up over the oldest redo record, as the model's drop does |
| `UndoBuffer.Buffer.CreateUndoRecord` | app/src/main/jni/imgui/imstb_textedit.h:1173-1195 | ends with a free record and room for the characters, having dropped the fewest records for it, or an empty undo side if they never fit |
| `UndoBuffer.Buffer.CreateUndo` | app/src/main/jni/imgui/imstb_textedit.h:1197-1215 | fills in the record and says where its characters go; no record is dropped that could stay |
| `UndoBuffer.Buffer.MakeUndoReplace` | app/src/main/jni/imgui/imstb_textedit.h:1351-1359 | records a replacement, with the characters it removes |
| `UndoBuffer.Buffer.MakeUndoDelete` | app/src/main/jni/imgui/imstb_textedit.h:1341-1349 | records a deletion |
| `UndoBuffer.Buffer.MakeUndoInsert` | app/src/main/jni/imgui/imstb_textedit.h:1336-1339 | records an insertion |
| `UndoBuffer.Buffer.MakeSpace` | app/src/main/jni/imgui/imstb_textedit.h:1248-1257 | drops redo records until the characters fit, or returns without success when none is left |
| `UndoBuffer.Buffer.MakeRedoRecord` | app/src/main/jni/imgui/imstb_textedit.h:1226-1270 | the redo record of an undo in all cases: nothing to save, no room at all, room, room after discarding, and none left to discard |
| `UndoBuffer.Buffer.UndoNewest` | app/src/main/jni/imgui/imstb_textedit.h:1217-1283 | undo on the arrays ends as in the model, with the same text and cursor, also when it gives up |
| `UndoBuffer.Buffer.MakeUndoRecord` | app/src/main/jni/imgui/imstb_textedit.h:1295-1322 | the undo record of a redo |
| `UndoBuffer.Buffer.RedoNext` | app/src/main/jni/imgui/imstb_textedit.h:1285-1334 | redo on the arrays is redo of the model, with the same text and cursor |
| `TextEditor.Field.Clamp` | app/src/main/jni/imgui/imstb_textedit.h:573-584 | selection and cursor are cut to the text; a selection cut to nothing takes the cursor along |
| `TextEditor.Field.DeleteSelection` | app/src/main/jni/imgui/imstb_textedit.h:595-608 | exactly the part of the selection inside the text goes, as one recorded edit that costs no record that could stay; the cursor is where it was |
| `TextEditor.Field.Replace` | app/src/main/jni/imgui/imstb_textedit.h:1351-1359 | replaces a range as one edit, with one record more and none dropped that could stay |
| `TextEditor.Field.InsertAtCursor` | app/src/main/jni/imgui/imstb_textedit.h:711-716 | inserts at the cursor as one edit if there is room, and changes nothing otherwise |
| `TextEditor.Field.DeleteRange` | app/src/main/jni/imgui/imstb_textedit.h:587-592 | deletes the range and adds one text to the history, and one record, dropping none that could stay |
| `TextEditor.Field.MoveToFirst` | app/src/main/jni/imgui/imstb_textedit.h:621-629 | puts the cursor at the lower end of the selection, which it drops |
| `TextEditor.Field.MoveToLast` | app/src/main/jni/imgui/imstb_textedit.h:632-641 | puts it at the upper end, cut to the text |
| `TextEditor.Field.PrepSelectionAtCursor` | app/src/main/jni/imgui/imstb_textedit.h:683-689 | an empty selection starts at the cursor; otherwise the cursor goes to the selection's end |
| `TextEditor.Field.MoveToWordPrevious` | app/src/main/jni/imgui/imstb_textedit.h:650-661 | finds the nearest boundary left of the position, or the start of the text |
| `TextEditor.Field.MoveToWordNext` | app/src/main/jni/imgui/imstb_textedit.h:665-677 | finds the nearest boundary right of the position, or the end of the text |
| `TextEditor.Field.LineStartAt` | app/src/main/jni/imgui/imstb_textedit.h:1054-1057 | finds where the line starts: no newline in between, and one before it |
| `TextEditor.Field.LineEndAt` | app/src/main/jni/imgui/imstb_textedit.h:1068-1071 | finds where the line ends |
| `TextEditor.Field.ReplaceText` | app/src/main/jni/imgui/imgui_widgets.cpp:3834-3850 | replaces the whole text as one edit, with the cursor behind it |
| `Reconcile.Difference` | app/src/main/jni/imgui/imgui_widgets.cpp:4036-4054 | finds a replacement that turns one text into the other, and no single replacement deletes or inserts fewer characters |
| `Reconcile.Shortest` | app/src/main/jni/imgui/imgui_widgets.cpp:4036-4054 | two texts that differ at the first and last place of a replacement admit no shorter one |
| `TextEditor.Field.TakeOver` | app/src/main/jni/imgui/imgui_widgets.cpp:4024-4060 | a text changed from outside is recorded as one edit, and not at all if it is the same |
| `TextEditor.Field.Cut` | app/src/main/jni/imgui/imstb_textedit.h:692-700 | deletes the selection if there is one, and says so |
| `TextEditor.Field.Paste` | app/src/main/jni/imgui/imstb_textedit.h:703-718 | replaces the selection by the pasted text in two edits, so one undo shows the text without either; without room only the selection goes |
| `TextEditor.Field.TypeChar` | app/src/main/jni/imgui/imstb_textedit.h:728-754 | character 0, and a newline in a single line, are ignored; without a selection insert mode replaces one character as one edit; else as paste, also a newline in several lines, or over a selection in insert mode; no text is forgotten while there are slots and room |
| `TextEditor.Field.Overwrite` | app/src/main/jni/imgui/imstb_textedit.h:737-743 | overwriting is one edit; without room for the new character the old one is deleted all the same, and the record made does not lead back to it, nor even lies in the text if it was the last one |
| `TextEditor.OverwriteLast` | app/src/main/jni/imgui/imstb_textedit.h:737-743 | a run that ends with such a record and an empty text |
| `TextEditor.Field.DeleteForward` | app/src/main/jni/imgui/imstb_textedit.h:986-996 | deletes the selection or the character behind the cursor, if any, as one edit |
| `TextEditor.Field.DeleteBackward` | app/src/main/jni/imgui/imstb_textedit.h:998-1010 | deletes the selection or the character before the cursor, if any, as one edit |
| `TextEditor.Field.MoveBy` | app/src/main/jni/imgui/imstb_textedit.h:772-1074 | where each moving key takes the cursor, and that it leaves the text exactly through a stale selection with left or word left |
| `TextEditor.Field.ExtendBy` | app/src/main/jni/imgui/imstb_textedit.h:792-1103 | where each extending key leaves both ends of the selection, and that only one step right on a stale selection escapes the text |
| `TextEditor.Field.Navigate` | app/src/main/jni/imgui/imstb_textedit.h:772-1103 | up and down on a single line do what left and right do, with shift and without; every other key that leaves the text alone does what its case says |
| `TextEditor.Field.PressEdit` | app/src/main/jni/imgui/imstb_textedit.h:728-1010 | typing, delete and backspace do what their cases say, and forget no text while there are slots and room |
| `TextEditor.Field.Undo` | app/src/main/jni/imgui/imstb_textedit.h:762-765 | moves one text back in the history, the cursor behind what was put back; or gives up, and text, cursor and history stay as they are |
| `TextEditor.Field.Redo` | app/src/main/jni/imgui/imstb_textedit.h:767-770 | carries out the next record, the cursor behind what was put in; while nothing was lost that is one text on in the history |
| `TextEditor.Field.Press` | app/src/main/jni/imgui/imstb_textedit.h:724-1105 | every key, named in its own case, undo that gives up and redo without room included, does to text, caret and history what that case says, and from a cursor in the text leaves it there exactly unless the key escapes through a stale selection |
| `TextEditor.LeftOfStaleSelection` | app/src/main/jni/imgui/imstb_textedit.h:772-780 | type two characters, select one, undo both, left: the cursor is behind the text |
| `CircularBuffer.PushesKeepLast` | app/src/main/jni/Includes/circular_buffer.h:334-361 | n pushes into an empty buffer leave the last min(n, capacity) elements in order |
| `CircularBuffer.LastOfAt` | app/src/main/jni/Includes/circular_buffer.h:334-361 | what is kept of a sequence are its last elements, each at its distance from the end |
| `CircularBuffer.WrapsRound` | app/src/main/jni/Includes/circular_buffer.h:353-361 | wrapping by remainder is one subtraction at most |
| `CircularBuffer.Ring.constructor` | app/src/main/jni/Includes/circular_buffer.h:28-29 | a new buffer of any capacity is empty, its head at its tail |
| `CircularBuffer.Ring.PushBack` | app/src/main/jni/Includes/circular_buffer.h:334-361 | appends the element; a full buffer loses its oldest one |
| `CircularBuffer.Ring.Increment` | app/src/main/jni/Includes/circular_buffer.h:353-361 | moves the head on, and the tail with it if the buffer is full |
| `CircularBuffer.Ring.PopFront` | app/src/main/jni/Includes/circular_buffer.h:363-377 | removes the oldest element, or fails on an empty buffer |
| `CircularBuffer.Ring.Back` | app/src/main/jni/Includes/circular_buffer.h:325-332 | the newest element, also when the head has wrapped to 0 |
| `CircularBuffer.Ring.Front` | app/src/main/jni/Includes/circular_buffer.h:320-323 | the oldest element |
| `CircularBuffer.Ring.At` | app/src/main/jni/Includes/circular_buffer.h:379-421 | the element at an index counted from the oldest, or an error beyond the size |
| `CircularBuffer.Ring.SetAt` | app/src/main/jni/Includes/circular_buffer.h:379-388 | assignment through an index changes that element only, and is refused beyond the size |
| `CircularBuffer.Cursor.Current` | app/src/main/jni/Includes/circular_buffer.h:161-165 | a cursor shows the element at its index, counted from the other end in reverse, and none at the end |
| `CircularBuffer.Traverse` | app/src/main/jni/Includes/circular_buffer.h:130-263 | begin to end yields the contents, rbegin to rend their reverse |
| `TraceHistory.AppendKeepsIff` | app/src/main/jni/Tool/Frida.cpp:179 | appending a name keeps names unique exactly if it is not among the entries that stay |
| `TraceHistory.CallKeeps` | app/src/main/jni/Tool/Frida.cpp:162-179 | a traced call keeps non-empty names unique and leaves its own name in the history |
| `TraceHistory.DrawKeeps` | app/src/main/jni/Main.cpp:157-189 | so does drawing an entry, which may clear its name |
| `TraceHistory.NamesStayUnique` | app/src/main/jni/Tool/Frida.cpp:162-179 | over every interleaving of calls and drawn entries, evictions included, from any history without repeated names, no non-empty name occurs twice |
| `TraceHistory.CalledEnters` | app/src/main/jni/Tool/Frida.cpp:166-179 | a call gives the newest entry with its name 2 and 10 seconds and one more hit, and leaves all others alone; or it appends an entry with 2 and 10 seconds and no further hits, for which only the oldest may go |
| `TraceHistory.DrawnFades` | app/src/main/jni/Main.cpp:157-189 | drawing takes the time off an entry that has a name, and takes the name once none is left |
| `TraceHistory.EntryLives` | app/src/main/jni/Tool/Frida.cpp:162-179 | over every run of calls and drawn entries, the entry of a name first called before it, until it is evicted, has as many hits as there were calls since, and its name exactly while it was never drawn for 10 seconds without a call |
| `TraceHistory.CallLives` | app/src/main/jni/Tool/Frida.cpp:162-179 | so does the entry a call makes, from whatever history it starts |
| `TraceHistory.SearchThenAppendIsCall` | app/src/main/jni/Tool/Frida.cpp:166-179 | search and append with nothing in between are one traced call |
| `TraceHistory.OverlappingCallsRepeat` | app/src/main/jni/Tool/Frida.cpp:165-179 | two threads that both search before either appends enter a new name twice, into any history |
| `TraceHistory.SeparateRunsKeep` | app/src/main/jni/Tool/Frida.cpp:165-179 | over every run of searches, appends and fading entries in which no thread searches for a name another is about to append, names stay unique |
| `TraceHistory.FinishIff` | app/src/main/jni/Tool/Frida.cpp:179 | whatever the order of the pending appends, names stay unique exactly if no two of them are for one name |
| `TraceHistory.Newest` | app/src/main/jni/Tool/Frida.cpp:168-177 | the entry refreshed is the newest one with the name |
| `TraceHistory.History.Find` | app/src/main/jni/Tool/Frida.cpp:166-178 | the reverse iteration finds the newest entry with the name |
| `TraceHistory.History.OnEnter` | app/src/main/jni/Tool/Frida.cpp:162-179 | on the ring buffer a call does that, in place, and keeps names unique |
| `TraceHistory.PassDraws` | app/src/main/jni/Main.cpp:157-189 | a pass of the draw loop is one draw step for each entry, and nothing else |
| `TraceHistory.History.DrawAll` | app/src/main/jni/Main.cpp:157-189 | drawing is that pass on the ring buffer: by index, every named entry ages by the time drawn, those whose time is over lose their names, and names stay unique |
| `MethodTable.BinarySearchClosest` | app/src/main/jni/Tool/Frida.cpp:13-37 | ends with the greatest entry at or below the address, on every sorted table whose entries the cut difference tells apart; -1 if there is none |
| `MethodTable.ComparisonIs` | app/src/main/jni/Tool/Frida.cpp:21 | the number compared is the one 32-bit signed integer that differs from the difference by a multiple of 2^32 |
| `MethodTable.SearchIsClosest` | app/src/main/jni/Tool/Frida.cpp:18-36 | the search between any bounds that enclose the answer finds it |
| `MethodTable.SearchRightIff` | app/src/main/jni/Tool/Frida.cpp:21-23 | for any set of addresses: right on all sorted tables of them exactly when the difference cut to 32 bits tells each one's side of the address |
| `MethodTable.NearIsRight` | app/src/main/jni/Tool/Frida.cpp:13-37 | in particular when all differences fit a signed 32-bit integer |
| `MethodTable.FarIsMistaken` | app/src/main/jni/Tool/Frida.cpp:21-34 | an entry 2^31 to 2^32 above the address is returned although it is not below it |
| `HexStrings.BytesRoundTrip` | app/src/main/jni/KittyMemory/KittyUtils.cpp:38-81 | reading what was printed gives back every byte string |
| `HexStrings.StringRoundTrip` | app/src/main/jni/KittyMemory/KittyUtils.cpp:38-81 | printing what was read from an even number of hex digits gives them in lower case |
| `HexStrings.PrintedByte` | app/src/main/jni/KittyMemory/KittyUtils.cpp:47-49 | a byte prints as two digits, zero padded |
| `HexStrings.DigitIs` | app/src/main/jni/KittyMemory/KittyUtils.cpp:47-49 | the digits printed are those of 0123456789abcdef, in that order |
| `HexStrings.PrintedAt` | app/src/main/jni/KittyMemory/KittyUtils.cpp:48-49 | the i-th byte is printed at 2 i and 2 i + 1, its high digit first |
| `HexStrings.HexDigits` | app/src/main/jni/KittyMemory/KittyUtils.cpp:21-24 | digits are exactly the characters of 0123456789abcdefABCDEF, and each is read as its place among them |
| `HexStrings.ValueIs` | app/src/main/jni/KittyMemory/KittyUtils.cpp:69-79 | and as no other number |
| `HexStrings.PairRead` | app/src/main/jni/KittyMemory/KittyUtils.cpp:69-79 | what the stream makes of any two characters: two digits, one digit before something else, a digit after any of the six white-space characters or a plus, the complement after a minus, and 0 otherwise |
| `HexStrings.DigitsAt` | app/src/main/jni/KittyMemory/KittyUtils.cpp:66-80 | so the i-th pair of digits gives the i-th byte, high digit first, whatever else is in the string |
| `HexStrings.TrimmedIs` | app/src/main/jni/KittyMemory/KittyUtils.cpp:3-13 | trimming keeps, in order, exactly the characters behind a leading 0x that are none of the six white-space characters |
| `HexStrings.TrimmedOnce` | app/src/main/jni/KittyMemory/KittyUtils.cpp:3-13 | and only one string is that |
| `HexStrings.Trim` | app/src/main/jni/KittyMemory/KittyUtils.cpp:3-13 | trims the string so |
| `HexStrings.ValidateHexString` | app/src/main/jni/KittyMemory/KittyUtils.cpp:16-26 | accepts exactly the strings of at least two characters that, trimmed, are an even number of characters of 0123456789abcdefABCDEF; what it accepts makes the round trip |
| `HexStrings.ToHexString` | app/src/main/jni/KittyMemory/KittyUtils.cpp:38-51 | prints the whole block in order, two characters of 0123456789abcdef to a byte, high digit first |
| `HexStrings.FromHexString` | app/src/main/jni/KittyMemory/KittyUtils.cpp:58-81 | fills one byte per two characters or part of it, with 16 times the first digit plus the second where both are digits and whatever the stream reads elsewhere, and leaves the rest of the store alone |
| `HexStrings.DigitsAreRead` | app/src/main/jni/KittyMemory/KittyUtils.cpp:69-79 | of two digits the stream reads both |

## Left out

- Integer overflow in packer and editor: coordinates, areas and lengths are unbounded integers. The packer assumes width, height and node count of at least 1, a height below 2^30, and non-negative rectangle sizes.
- RectPacking.Sort: stands for the sorting routine the packer is configured with (qsort or ImGui's own); callers rely on its contract only, which allows any order among ties.
- UndoRuns.Run: an undo that would move characters out of the array ends the run; so does a redo of a record outside text or array, or one without room for what it deletes, after which the undo records do not lead back. The guards are exact (`UndoArena.UndoneIff`, `UndoRedo.RedoStepsOn`, `UndoRedo.RedoWithoutRoom`).
- UndoBuffer.Buffer.DiscardOldestRedo: a last record that claims more characters than there are above the redo point is excluded, since the source would then move a negative amount.
- UndoBuffer.Buffer.RedoNext: the next redo record must lie in the text and in the array, which the source does not check.
- TextEditor.Field.Undo: excludes the undos that would leave the array.
- TextEditor.Field.Redo: excludes records outside text or array, and, once an undo has lost something, results too long for the field; without room for what it deletes only text and cursor are promised.
- MethodTable.BinarySearchClosest: where the source would index the table at -1 (all entries above the address, or an empty table) the model returns -1.
- HexStrings.FromHexString: the store has room for the bytes, and the stream reads in the classic locale.
- TextEditor.Field.Paste: whether a text fits in the field is a parameter, of which only is asked that deleting keeps a text fitting; the counts of UTF-8 bytes behind it are not modelled.
- TextEditor.Field.TakeOver: a text changed from outside fits in the field, and so does one replaced as a whole, as the source asserts.
- TextEditor.Field.Press: page keys, and up and down in text of several lines, which depend on pixel layout; so do mouse click and drag (`imstb_textedit.h:402-565`, `865-984`).
- TextEditor.Field.MoveToWordPrevious: what a word boundary is, and which character is the newline, are parameters of the field.
- Characters are Dafny characters; conversion between UTF-8 and wide text, the preferred column, and what a client's callback does to cursor and selection are not modelled.
- The members of `UndoBuffer.Buffer` take the text as a value and return the new one; the string object the macros change in place belongs to the field.
- CircularBuffer.Ring.PushBack: a buffer without capacity takes no elements; the source would write outside its array. Copying, moving, iterator arithmetic and comparison, and interleavings inside one locked method are left out.
- TraceHistory.History.OnEnter: hit counters of the method, the collected objects and the backtrace, which do not touch the history. Times are real numbers.
- User interface, drawing, Android and Java glue, memory patching, reading of `/proc` and ELF files, and the calls into IL2CPP, Dobby, Frida and Capstone: no algorithm of their own, or code that is not in the repository.
- Page rounding and string obfuscation macros: short facts about bits.

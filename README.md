# pd_code_to_diagram in Dafny

A Dafny model of the core of pd_code_to_diagram. The program takes the planar-diagram (PD) code of a knot or
link: one line `X[a, b, c, d]` per crossing, where each strand id occurs exactly twice. It lays the crossings out
on a grid and routes every strand between its two sockets. The result is a grid diagram of the knot. The pipeline
has four stages, and each stage is a group of modules here:

- **Reading PD codes** (`NumInput`, `PdCrossings`, `PdCodes`). This stage extracts the integers from the
  text, checks that each crossing has four ids and that each id occurs twice, and loads the crossings. It also
  prints the code back, and the printed text reads back to the same code.
- **Laying out crossings** (`Directions`, `Coord2dPosition`, `PdTrees`, `Sockets`). This stage grows a spanning
  tree of crossings, places each crossing on a free socket of its parent, and records which sockets are used
  and where every crossing sits.
- **Routing strands** (`LineData`, `PixelGraph`, `VectorGraph`, `GraphViews`, `SortedSets`, `IntegerSets`,
  `Coord2dSets`, `SafeMatrix`, `HeapMatrix`, `SpfaPath`, `Linking`):
  - The drawn lines live in a sparse pixel map. Above it sit the read-only views that merge, spread, erase and
    fence cells.
  - Coordinates are compressed through sorted sets.
  - An SPFA (shortest path faster algorithm) search finds the cheapest walk for each strand. A step forward costs
    1.0 and a quarter turn 0.1, so the walk is a shortest one, with fewer turns breaking ties. Every non-zero cell
    blocks the walk, except the crossing cells and the cell ahead of each of the two plugs, which are forced open.
- **Checking and exporting** (`Matrices`, `Bfs`, `Graphs`, `DiagramGraphs`, `Connectivity`, `BorderSets`,
  `BorderDetection`, `FileInput`, `NodeSets`, `GenNodeSets`, `PdToDiagram`):
  - The rendered grid is re-read as a matrix. A flood fill from the corner finds the outside.
  - A union-find then joins socket ids through the crossings. The check passes only when the component of the
    largest id holds some value that lies on the border of the outer zero region.
  - The driver retries with new seeds while a failure is retryable. It also groups strand ids into link
    components and exports the 3D node set.

Objects that the program updates in place are classes whose methods carry `modifies` clauses, and loops are
`while`/`for` loops with invariants. Read-only views and value types are datatypes and functions. C++ `assert`/`ASSERT`
failures and the program's exceptions become the `Failure` values of `Wrappers`. The driver uses `Retryable()`
to tell a bad layout, which it retries, from a broken invariant, which is fatal.

## Model

| member | source | states |
|---|---|---|
| Directions.Index | pd_code_to_diagram/cpp_src/Utils/Direction.h:5-10 | each direction has its fixed number 0..3, counter-clockwise from east |
| Directions.FromIndex | pd_code_to_diagram/cpp_src/Utils/Direction.h:5-10 | casting a number 0..3 back to a direction inverts the numbering |
| Directions.IndexRoundTrip | pd_code_to_diagram/cpp_src/Utils/Direction.h:5-10 | number then cast gives back the same direction |
| Directions.Opposite | src/PDTree.h:251 | the opposite direction is the one two steps further round, and is never the direction itself |
| Directions.OppositeInvolution | src/PDTree.h:251 | turning round twice gives back the original direction |
| Directions.AllDirectionsComplete | pd_code_to_diagram/cpp_src/Utils/Direction.h:5-10 | the four enumerators are listed in counter-clockwise order with no gaps |
| LineData.NewLine | src/PathEngine/Common/LineData.h:11-18 | a line is built exactly when it is horizontal or vertical, with the given ends and value; otherwise the assertion fails |
| LineData.SetV | src/PathEngine/Common/LineData.h:25-27 | a new value leaves both ends of the line unchanged |
| LineData.SetAimPos | src/PathEngine/Common/LineData.h:29-31 | moving the end succeeds exactly when the line stays axis-aligned, keeping start and value |
| LineData.SetStartPos | src/PathEngine/Common/LineData.h:33-35 | moving the start succeeds exactly when the line stays axis-aligned, keeping end and value |
| LineData.SetVLaws | src/PathEngine/Common/LineData.h:25-27 | the last value set wins, and setting the current value changes nothing |
| LineData.SetPosLaws | src/PathEngine/Common/LineData.h:29-35 | re-setting an end to itself changes nothing; a vertical line may move its end along its column, a horizontal one along its row |
| IntegerSets.IntegerSet.constructor | src/PathEngine/IntegerSet.h:11-13 | a new set is empty and not yet sorted |
| IntegerSets.IntegerSet.AddInt | src/PathEngine/IntegerSet.h:18-25 | the value joins the set; the vector gains it only when it is new, which marks the vector unsorted; a repeat changes nothing |
| IntegerSets.IntegerSet.Rank | src/PathEngine/IntegerSet.h:29-37 | for a member value, the answer is the number of smaller members; afterwards the vector is the members in increasing order |
| IntegerSets.Insert | src/PathEngine/IntegerSet.h:32 | inserting into a list keeps its elements and adds exactly one |
| IntegerSets.SortSeq | src/PathEngine/IntegerSet.h:32 | sorting is a permutation of the vector |
| IntegerSets.InsertSorted | src/PathEngine/IntegerSet.h:32 | inserting into a sorted list keeps it sorted, strictly when the value is new |
| IntegerSets.SortSeqSorted | src/PathEngine/IntegerSet.h:32 | the sorted vector is in order, strictly when it had no duplicates |
| SortedSets.LowerBound | src/PathEngine/IntegerSet.h:36 | in a sorted list, the answer splits it into the elements below the value and those at or above it |
| SortedSets.LowerBoundIsRank | src/PathEngine/IntegerSet.h:36 | on the strictly sorted members, that split point is the number of members below the value |
| SortedSets.RankMonotone | src/PathEngine/IntegerSet.h:28 | different members have different ranks, in the order of the members, all below the set size |
| SortedSets.RankBelowSize | src/PathEngine/IntegerSet.h:28 | a member's rank is at least 0 and below the set size |
| SortedSets.SortedIntsSpec | src/PathEngine/IntegerSet.h:12-13 | the members of an integer set listed in increasing order: strictly sorted, the same elements, one entry per member |
| SortedSets.StrictlySortedUnique | src/PathEngine/IntegerSet.h:12-13 | two strictly sorted lists with the same elements are equal, so the sorted listing is unique |
| SortedSets.SortedPairsSpec | pd_code_to_diagram/cpp_src/PathEngine/Common/Coord2dSet.h:22-29 | the members of a set of points listed in the order of a std::set of pairs: lexicographically sorted, same elements, one entry each |
| Coord2dPosition.Origin | src/PDTreeAlgo/Coord2dPosition.h:24-26 | the default position is the origin |
| Coord2dPosition.SameIsEquality | src/PDTreeAlgo/Coord2dPosition.h:88-90 | two positions are the same exactly when they are equal |
| Coord2dPosition.AddSubRoundTrip | src/PDTreeAlgo/Coord2dPosition.h:73-80 | subtracting what was added, or adding what was subtracted, restores the position |
| Coord2dPosition.DeltaProperties | src/PDTreeAlgo/Coord2dPosition.h:53-70 | a step in a direction is a unit step along exactly one axis, and opposite steps cancel |
| Coord2dPosition.DeltaInjective | src/PDTreeAlgo/Coord2dPosition.h:53-70 | different directions give different steps |
| Coord2dPosition.DotAsWrittenDropsX | src/PDTreeAlgo/Coord2dPosition.h:83-85 | the dot product as written ignores the x products: the east step dotted with itself gives 0, not 1 |
| Coord2dPosition.DotSymmetric | src/PDTreeAlgo/Coord2dPosition.h:83-85 | the corrected dot product is symmetric |
| Coord2dPosition.DotOfSteps | src/PDTreeAlgo/Coord2dPosition.h:83-85 | corrected: two direction steps dot to 1 when equal, -1 when opposite, 0 when perpendicular |
| Coord2dSets.MergeSet | pd_code_to_diagram/cpp_src/PathEngine/Common/Coord2dSet.h:10-20 | the merged set is the union of both sets |
| Coord2dSets.SetToVecOf | pd_code_to_diagram/cpp_src/PathEngine/Common/Coord2dSet.h:22-29 | walking a set in order lists its members strictly increasing, each once |
| Coord2dSets.KRankMapSpacing | pd_code_to_diagram/cpp_src/PathEngine/Common/Coord2dSet.h:71-83 | scaled ranks lie in 0..(size-1)*k, keep the order of the coordinates, are at least k apart and are equal only for equal coordinates |
| Coord2dSets.Coord2dSet.constructor | pd_code_to_diagram/cpp_src/PathEngine/Common/Coord2dSet.h:31-37 | a new set holds no coordinates and no listings |
| Coord2dSets.Coord2dSet.AddPos | pd_code_to_diagram/cpp_src/PathEngine/Common/Coord2dSet.h:40-43 | x joins the x set and y the y set; the cached listings are left as they were |
| Coord2dSets.Coord2dSet.Merge | pd_code_to_diagram/cpp_src/PathEngine/Common/Coord2dSet.h:45-50 | the merged object holds the union of the x sets and of the y sets |
| Coord2dSets.Coord2dSet.SetToVec | pd_code_to_diagram/cpp_src/PathEngine/Common/Coord2dSet.h:52-57 | afterwards both listings are the current sets in increasing order, so the size test does rebuild every stale listing |
| Coord2dSets.Coord2dSet.XRank | pd_code_to_diagram/cpp_src/PathEngine/Common/Coord2dSet.h:59-63 | for a present x, the answer is the number of smaller x coordinates |
| Coord2dSets.Coord2dSet.YRank | pd_code_to_diagram/cpp_src/PathEngine/Common/Coord2dSet.h:65-69 | for a present y, the answer is the number of smaller y coordinates |
| Coord2dSets.Coord2dSet.XkRank | pd_code_to_diagram/cpp_src/PathEngine/Common/Coord2dSet.h:71-76 | for k >= 1 and a present x, the answer is its rank times k |
| Coord2dSets.Coord2dSet.YkRank | pd_code_to_diagram/cpp_src/PathEngine/Common/Coord2dSet.h:78-83 | for k >= 1 and a present y, the answer is its rank times k |
| PdCrossings.PDCrossing.Load | src/PDCrossing.h:17-22 | the four socket ids are stored whatever their number; loading passes exactly when there are four, otherwise the assertion fails |
| PdCrossings.PDCrossing.HasSocket | src/PDCrossing.h:35-45 | true exactly when the id is one of the crossing's four sockets |
| PdCrossings.PDCrossing.ToString | src/PDCrossing.h:48-64 | the text is the prefix, the four ids in decimal separated by the separator, then the suffix |
| PdCrossings.CrossingTextRoundTrip | src/PDCrossing.h:48-64 | the default rendering `X[a, b, c, d]` of non-negative ids reads back as the same four ids |
| PdCrossings.CrossingTextRuns | src/PDCrossing.h:48-64 | with digit-free decorations and a non-empty separator, the digit runs of the text are exactly the four ids |
| PdCrossings.PDCrossing.GetSocketIdByDirectionAsWritten | src/PDCrossing.h:68-73 | as written, the guard `delta_dir > 4` fails for every pair of directions, so every call ends in a failed assertion |
| PdCrossings.GuardAsWrittenNeverHolds | src/PDCrossing.h:70-71 | the rotation offset is always in 0..3: the written guard never holds, the intended `< 4` always does |
| PdCrossings.PDCrossing.GetSocketIdByDirection | src/PDCrossing.h:68-73 | corrected: the socket seen in the aim direction, with the first socket turned to the base direction, is one of the crossing's sockets |
| PdCrossings.SocketAtBase | src/PDCrossing.h:66-72 | looking in the base direction itself gives the first socket |
| PdCrossings.SocketRotationInvariant | src/PDCrossing.h:66-72 | turning base and aim by the same amount gives the same socket |
| PdCrossings.SocketDirectionsDistinct | src/PDCrossing.h:66-72 | for a fixed base, different aim directions give different socket positions |
| PdCrossings.SocketIndex | src/PDCrossing.h:39-44 | the first position in the crossing holding a given socket id |
| PdCrossings.BaseShiftSound | src/PDTree.h:251-256 | for any socket of a crossing and any wanted direction there is a base direction that puts that socket in that direction |
| Sockets.SocketInfo.constructor | src/PDTreeAlgo/SocketInfo.h:23-25 | a new record has no used sockets, no positions and is unchecked |
| Sockets.SocketInfo.GetUsedCnt | src/PDTreeAlgo/SocketInfo.h:27-35 | the count is the number of ids marked used |
| Sockets.UsedUpToIsCard | src/PDTreeAlgo/SocketInfo.h:77-81 | counting used ids over 1..m counts exactly the used ids in that range |
| Sockets.SocketInfo.GetAllUnusedId | src/PDTreeAlgo/SocketInfo.h:38-46 | the answer lists, in increasing order, exactly the ids in 1..2n that are not used |
| Sockets.SocketInfo.SetUsed | src/PDTreeAlgo/SocketInfo.h:48-50 | the id takes the new flag and no other id's flag changes |
| Sockets.SocketInfo.AddInfo | src/PDTreeAlgo/SocketInfo.h:53-56 | before the check, the plug is appended to the id's list; after it, the assertion fails and nothing changes |
| Sockets.SocketInfo.GetInfo | src/PDTreeAlgo/SocketInfo.h:68-71 | the plug list is returned exactly when it has two entries, otherwise the assertion fails |
| Sockets.SocketInfo.Check | src/PDTreeAlgo/SocketInfo.h:74-90 | a second check passes at once; otherwise it passes exactly when every id in 1..2n has two plugs and n-1 ids are used, and then marks the record checked |
| Sockets.SocketInfo.CommitCoordMap | src/PDTreeAlgo/SocketInfo.h:93-124 | passes exactly when both maps cover every plug; then every plug moves to its mapped coordinates, keeping its direction, ids and used flags |
| Sockets.MapInfoRecords | src/PDTreeAlgo/SocketInfo.h:100-118 | each id's new plug list is its old list mapped entry by entry |
| Sockets.SocketInfo.GetTreeEdgeVGE | src/PDTreeAlgo/SocketInfo.h:127-145 | the engine holds, in increasing id order, one line per used socket between its two plugs, tagged with the id; it fails exactly when one of them is not axis-aligned |
| Sockets.TreeEdgeGrid | src/PDTreeAlgo/SocketInfo.h:131-143 | every tree-edge line joins the two plugs of its socket, there is one exactly for each used socket, and ids increase along the list |
| Sockets.TreeEdgeRawsPrefix | src/PDTreeAlgo/SocketInfo.h:141 | one used socket whose plugs are not aligned makes the line list contain a non-aligned line |
| Sockets.SocketInfo.GetCrossingVGE | src/PDTreeAlgo/SocketInfo.h:148-172 | the engine marks with -2 every distinct plug position, in the order of the position set |
| Sockets.MarkersPaint | src/PDTreeAlgo/SocketInfo.h:164-170 | after painting, a cell holds -2 exactly when it is a plug position, and 0 otherwise |
| Sockets.SortedCellsOf | src/PDTreeAlgo/SocketInfo.h:150-164 | the position set is walked in lexicographic order of (x, y) |
| Sockets.AddCells | src/PDTreeAlgo/SocketInfo.h:155-160 | the set gains the positions of all plugs in the list |
| Sockets.MapPlugList | src/PDTreeAlgo/SocketInfo.h:103-117 | mapping a plug list succeeds exactly when both maps cover it, and then maps every plug |
| NumInput.ExtractIntegers | pd_code_to_diagram/cpp_src/PDTreeAlgo/NumInput.h:9-30 | the integers read are exactly the digit runs of the text, in order, cut off at the first run too large for an int |
| NumInput.ReadInts | pd_code_to_diagram/cpp_src/PDTreeAlgo/NumInput.h:22-27 | reading the cleaned text gives the values of its digit runs, stopping at the first one that overflows |
| NumInput.ReadRun | pd_code_to_diagram/cpp_src/PDTreeAlgo/NumInput.h:25 | one read consumes a maximal run of digits and yields its decimal value |
| NumInput.ParseValues | pd_code_to_diagram/cpp_src/PDTreeAlgo/NumInput.h:25-27 | every value read is the decimal value of its run and fits an int; reading stops short only at a run above INT_MAX |
| NumInput.KeepRuns | pd_code_to_diagram/cpp_src/PDTreeAlgo/NumInput.h:13-19 | replacing every non-digit by a space does not change the digit runs |
| NumInput.RunsSeparator | pd_code_to_diagram/cpp_src/PDTreeAlgo/NumInput.h:25 | a non-digit separates the runs before it from those after it |
| NumInput.AllDigitsIsOneRun | pd_code_to_diagram/cpp_src/Utils/Debug.h:30-39 | the all-digits test passes exactly when the whole text is one digit run, so a sign or any other separator fails it |
| NumInput.LeadDigitsUnique | pd_code_to_diagram/cpp_src/PDTreeAlgo/NumInput.h:25 | the leading run of digits of a text is unique |
| NumInput.NatToStringValue | src/PDCrossing.h:58 | the decimal text of a number reads back as that number |
| NumInput.ExtractIntToString | src/PDCrossing.h:58 | reading the decimal text of an int in 0..INT_MAX gives back exactly that int |
| NumInput.ExtractJoined | src/PDCrossing.h:54-63 | numbers written with digit-free decorations and separators read back as the same numbers |
| NumInput.RunsJoin | src/PDTreeAlgo/PDCode.h:74-82 | joining items with a digit-free separator keeps the digit runs of each item apart |
| PdCodes.PDCode.constructor | src/PDTreeAlgo/PDCode.h:36-37 | a new code has zero crossings |
| PdCodes.PDCode.Clear | src/PDTreeAlgo/PDCode.h:29-32 | clearing returns the code to zero crossings |
| PdCodes.PDCode.GetCrossingNumber | src/PDTreeAlgo/PDCode.h:41-43 | the crossing number is the number of stored crossings; zero exactly when none are stored |
| PdCodes.PDCode.GetCrossing | src/PDTreeAlgo/PDCode.h:53-63 | for an index in 0..n-1 of a loaded code, a new crossing holding that crossing's four ids |
| PdCodes.PDCode.CrossingString | src/PDTreeAlgo/PDCode.h:77 | the text of one crossing is its rendering with the given decorations |
| PdCodes.PDCode.ToString | src/PDTreeAlgo/PDCode.h:66-83 | the text is the prefix and opening, the crossing texts joined by the separator, then the closing |
| PdCodes.CodeTextReadsIds | src/PDTreeAlgo/PDCode.h:66-83 | reading the integers back out of the rendered code gives all socket ids in crossing order |
| PdCodes.CodeTextRoundTrip | src/PDTreeAlgo/PDCode.h:66-120 | loading the rendering of a code gives back the same crossings, valid exactly when every id 1..2n occurs twice |
| PdCodes.PDCode.LoadFromText | src/PDTreeAlgo/PDCode.h:88-119 | the load fails when the integer count is zero or not a multiple of four; otherwise the crossings are consecutive groups of four and the answer says whether every id 1..2n occurs exactly twice |
| PdCodes.ReadCrossings | src/PDTreeAlgo/PDCode.h:102-110 | the integers are cut into groups of four, and the tally counts every occurrence of every id |
| PdCodes.ReadCrossing | src/PDTreeAlgo/PDCode.h:103-109 | one group is the next four integers, and the tally grows by exactly those four |
| PdCodes.EachIdTwice | src/PDTreeAlgo/PDCode.h:114-119 | true exactly when each id 1..2n was counted twice |
| PdCodes.ExactlyTwoCopies | src/PDTreeAlgo/PDCode.h:112-119 | with 4n integers, every id 1..2n occurring twice means the integers are exactly two copies of 1..2n |
| PdCodes.ChunksSameIds | src/PDTreeAlgo/PDCode.h:102-110 | grouping into fours determines the integer list |
| PdCodes.PDCode.InputPdCodeAsWritten | src/PDTreeAlgo/PDCode.h:86-120 | as written, the outcome depends only on standard input, never on the stream passed in |
| PdCodes.InputIgnoresStream | src/PDTreeAlgo/PDCode.h:92 | a stream holding a valid one-crossing code and an empty standard input give a failed assertion, where the stream alone passes |
| PdCodes.PDCode.InputPdCode | src/PDTreeAlgo/PDCode.h:86-120 | corrected: the code is read from the given stream; on success it has n > 0 crossings holding the stream's integers, and the answer is true exactly when they are two copies of 1..2n |
| PdTrees.PDTree.constructor | src/PDTree.h:36-43 | a new tree holds no code, no nodes and no messages |
| PdTrees.PDTree.NewTreeNode | src/PDTree.h:46-50 | a blank node and a blank message are appended; the answer is the new node's index |
| PdTrees.PDTree.Clear | src/PDTree.h:272-281 | afterwards the code is empty and only the blank node 0 exists, which is a valid tree |
| PdTrees.PopRandomCrossing | src/PDTree.h:53-60 | from a non-empty list, the crossing at the drawn position is removed and returned, the rest keep their order; an empty list fails the assertion |
| PdTrees.PopCrossingBySocketId | src/PDTree.h:65-83 | succeeds exactly when some crossing holds the socket; it removes and returns the first such crossing, keeping the others in order; otherwise the assertion fails |
| PdTrees.PDTree.Dfs | src/PDTree.h:139-188 | the map is toggled by every free plug of the subtree below x in visiting order: a socket id seen an odd number of times ends up recorded, an even number of times erased |
| PdTrees.ToggleParity | src/PDTree.h:148-182 | after the toggles, an id is recorded exactly when its sightings flip its initial presence, and a record is one of its sightings |
| PdTrees.Candidates | src/PDTree.h:197-209 | the recorded sockets are exactly those seen an odd number of times among the tree's free plugs, and each record names a free slot of a real node showing that id |
| PdTrees.PlugsAreFree | src/PDTree.h:140-146 | every plug dfs lists is a free slot of a real node showing its socket id |
| PdTrees.PDTree.GetBestSocket | src/PDTree.h:201-220 | with candidates, one of them is chosen and it names a free slot showing its socket id, seen an odd number of times in the tree; with none, the assertion fails |
| PdTrees.GrownShaped | src/PDTree.h:247-265 | hanging a new node on a free slot keeps the structure a tree whose slots point to parent or children |
| PdTrees.GrownPlaced | src/PDTree.h:247-265 | when the new crossing is turned so the joining socket faces back, the grown tree still puts every child one step from its parent with matching socket ids on both sides of each tree edge |
| PdTrees.PDTree.LinkNode | src/PDTree.h:251-265 | the new node links back to its parent and the parent forward to it, it sits one step away in the slot's heading, and its crossing is turned so the joining socket faces the parent |
| PdTrees.PDTree.PlantRoot | src/PDTree.h:234-237 | the root takes the drawn crossing, base EAST, at the origin, and forms a valid tree |
| PdTrees.PDTree.GrowOnce | src/PDTree.h:240-266 | one round adds exactly one node, moves one crossing from the unused list onto the tree, keeps the tree valid and leaves the root in place; failures are assertion failures |
| PdTrees.PDTree.BuildTree | src/PDTree.h:223-267 | no crossings fail the assertion; a finished build is a valid tree with one node per crossing, holding every crossing of the code once, rooted at the drawn crossing at the origin with base EAST |
| PdTrees.PDTree.Load | src/PDTree.h:284-291 | the tree is cleared and takes the code; an empty code fails, and a finished load satisfies everything a finished build promises |
| SafeMatrix.IntMatrix.constructor | src/PathEngine/Common/IntMatrix.h:15-23 | an n by m matrix with every cell 0 |
| SafeMatrix.IntMatrix.GetPos | src/PathEngine/Common/IntMatrix.h:25-31 | inside the matrix the stored value, outside it 0 |
| SafeMatrix.IntMatrix.SetPos | src/PathEngine/Common/IntMatrix.h:33-36 | for a cell inside the matrix, that cell reads the new value and every other cell is unchanged |
| SafeMatrix.IntMatrix.Value | src/PathEngine/Common/IntMatrix.h:38-44 | the matrix's snapshot has its row count, column count and cells |
| HeapMatrix.IntMatrix.constructor | src/PathEngine/IntMatrix.h:21-31 | with at least one row and one column, a fresh row by col array with every cell 0 |
| HeapMatrix.IntMatrix.Clear | src/PathEngine/IntMatrix.h:33-39 | every cell becomes 0 |
| HeapMatrix.IntMatrix.Set | src/PathEngine/IntMatrix.h:41-45 | inside the array, that cell takes the value and all others keep theirs |
| PixelGraph.PixelGraphEngine.constructor | src/PathEngine/PixelGraphEngine.h:13 | a new engine is all air |
| PixelGraph.PutGet | src/PathEngine/PixelGraphEngine.h:53-63 | after setting a cell it reads the new value (0 erases it), every other cell reads as before, and no stored cell is 0 |
| PixelGraph.PixelGraphEngine.SetPos | src/PathEngine/PixelGraphEngine.h:53-63 | a non-zero value is stored at the cell, a zero value removes the cell; the map never stores 0 |
| PixelGraph.PixelGraphEngine.SetLine | src/PathEngine/AbstractGraphEngine.h:24-40 | every cell of the axis-aligned segment, both ends included, takes the line's value and no other cell changes |
| PixelGraph.PixelGraphEngine.PaintColumn | src/PathEngine/AbstractGraphEngine.h:31-35 | the loop sets the cells of column x from lo to hi, both included, to the value |
| PixelGraph.PixelGraphEngine.PaintRow | src/PathEngine/AbstractGraphEngine.h:36-39 | the loop sets the cells of row y from lo to hi, both included, to the value |
| PixelGraph.PaintIsColumn | src/PathEngine/AbstractGraphEngine.h:31-35 | painting a vertical segment is painting its column between the lower and the higher end |
| PixelGraph.PaintIsRow | src/PathEngine/AbstractGraphEngine.h:36-39 | painting a segment that is not vertical is painting its row between the lower and the higher end |
| PixelGraph.PaintGet | src/PathEngine/AbstractGraphEngine.h:24-40 | after painting, a cell on the segment reads the line's value and every other cell reads as before |
| PixelGraph.SegmentCellsLaws | src/PathEngine/AbstractGraphEngine.h:31-39 | the segment does not depend on which end comes first, contains both ends, and a zero-length line is its one cell |
| PixelGraph.PaintAllAppend | src/PathEngine/VectorGraphEngine.h:28-31 | painting a list of lines then one more is painting the longer list in order |
| PixelGraph.PaintAllNoZeros | src/PathEngine/PixelGraphEngine.h:53-63 | painting any lines never stores a 0 |
| PixelGraph.PixelGraphEngine.GetBorderCoord | src/PathEngine/PixelGraphEngine.h:31-50 | the box is the least and greatest x and y over the non-zero cells, each bound staying at plus or minus INT_MAX when there are none |
| PixelGraph.ComputeBox | src/PathEngine/PixelGraphEngine.h:31-50 | folding min and max over the stored cells gives the box of the non-zero cells |
| PixelGraph.ExtendIsBoxOf | src/PathEngine/PixelGraphEngine.h:42-47 | widening the box by one more cell gives the box of the larger cell set |
| PixelGraph.IsBoxOfUnique | src/PathEngine/PixelGraphEngine.h:31-50 | a cell set has only one box |
| PixelGraph.NegativeCells | src/PathEngine/VectorGraphEngine.h:89-91 | the cells holding a negative value, in the map's (x, y) order |
| VectorGraph.VectorGraphEngine.constructor | src/PathEngine/VectorGraphEngine.h:12-15 | a new engine has no lines and an all-air grid |
| VectorGraph.VectorGraphEngine.SetLine | src/PathEngine/VectorGraphEngine.h:28-31 | the line is appended to the list and painted, so the grid stays the list's lines painted in order |
| VectorGraph.VectorGraphEngine.SetPos | src/PathEngine/VectorGraphEngine.h:33-35 | setting a cell records a zero-length line at that cell |
| VectorGraph.VectorGraphEngine.GetBorderCoord | src/PathEngine/VectorGraphEngine.h:37-39 | the box of the non-zero cells of the grid |
| VectorGraph.VectorGraphEngine.GetCoord2dSet | src/PathEngine/VectorGraphEngine.h:43-51 | a new coordinate set holding exactly the x and y coordinates of both ends of every line |
| VectorGraph.CoordsCollected | src/PathEngine/VectorGraphEngine.h:46-49 | every end coordinate of every line is collected, and every collected coordinate is the end of some line |
| VectorGraph.VectorGraphEngine.CommitCoordSet | src/PathEngine/VectorGraphEngine.h:54-82 | every line's ends move to their scaled ranks, keeping values and order, and the grid is repainted from the new lines |
| VectorGraph.CompactionKeepsShape | src/PathEngine/VectorGraphEngine.h:54-82 | compaction keeps every line's value and orientation and keeps coordinates in order, at least k apart |
| VectorGraph.DryRunCoversEnds | src/LinkAlgo.h:23-27 | the maps of a dry run cover every end of every line they were taken from, so committing them to those lines never fails |
| VectorGraph.VectorGraphEngine.ParsifyDryRun | src/LinkAlgo.h:24 | (rebuilt, see Left out) the plan maps every x and y coordinate of the lines to its rank times k |
| VectorGraph.VectorGraphEngine.CommitCoordMap | src/LinkAlgo.h:26-27 | (rebuilt, see Left out) passes exactly when the maps cover every line end; then every line is moved by the maps and the grid repainted; otherwise nothing changes |
| VectorGraph.VectorGraphEngine.CopyFrom | src/LinkAlgo.h:114-115 | the engine takes the other's lines and the matching grid |
| VectorGraph.PaintLines | src/PathEngine/VectorGraphEngine.h:75-81 | a fresh grid holding the given lines painted in order |
| Linking.LinkAlgo.constructor | src/LinkAlgo.h:111-112 | the algorithm starts from a copy of the given socket record and two empty engines |
| Linking.LinkAlgo.RawParsify | src/LinkAlgo.h:23-28 | passes exactly when the rank plan of the tree-edge coordinates covers every plug and every crossing marker; then the plugs, the tree edges and the markers all move by that plan, and the used flags never change |
| Linking.NoEdgesNoSpread | src/LinkAlgo.h:23-28 | with no tree edges the plan is empty, so it cannot cover any plug and the re-arrangement fails |
| Linking.SingleCrossingHasNoTreeEdge | src/LinkAlgo.h:113-116 | a checked one-crossing code has no used socket, hence no tree edge |
| Linking.OpenedCellsAre | src/LinkAlgo.h:49-58 | the cells made walkable are exactly the two plug cells and the cell just outside each plug |
| Linking.ForceOpen | src/LinkAlgo.h:39-58 | the search sees the crossings spread out, merged over the tree edges, with the plug cells and the cells ahead of them erased |
| Linking.SearchRoute | src/LinkAlgo.h:64-74 | a success returns a non-empty cheapest route between the two plugs inside the view's box widened by 5 on every side, as the maximal straight runs of that walk, covering exactly its cells, all open; no route fails the assertion |
| Linking.FreshSearch | src/LinkAlgo.h:72 | a new engine's search returns what the route search promises for that view, box and pair of ends: the cheapest walk's straight runs, covering exactly its open cells |
| Linking.RetagCells | src/LinkAlgo.h:80-83 | tagging a route's segments with the socket id moves none of its cells |
| Linking.PaintRoute | src/LinkAlgo.h:80-83 | every segment of the route is added to the tree edges, tagged with the socket id |
| Linking.LinkAlgo.SaveOne | src/LinkAlgo.h:35-85 | the first unused socket's two plugs are joined by a cheapest route whose segments are the walk's straight runs; they are painted with the id on exactly the walk's cells, and the socket becomes used; nothing else changes |
| Linking.HeadIsSmallestUnused | src/LinkAlgo.h:35-36 | the head of the unused list is the smallest unused socket id |
| Linking.LinkAlgo.BuildOne | src/LinkAlgo.h:93-100 | a round marks exactly the smallest unused socket as used; with no tree edges and a plug on record the spreading step fails |
| Linking.UsedUpToMark | src/LinkAlgo.h:104-106 | marking an unused id raises the used count by one |
| Linking.FullWhenCounted | src/LinkAlgo.h:104 | when all used ids lie in 1..2n and 2n of them are used, every id in 1..2n is used |
| Linking.LinkAlgo.BuildAll | src/LinkAlgo.h:103-107 | on success at least 2n sockets are used and none was unmarked, so with ids in range every socket 1..2n is linked |
| Linking.LinkAlgo.Build | src/LinkAlgo.h:111-117 | the record is checked, the engines are filled and every socket linked; a one-crossing code always fails |
| Linking.LinkAlgo.GetFinalGraph | src/LinkAlgo.h:121-126 | the final grid shows each crossing marker where there is one and the tree edges everywhere else |
| SpfaPath.Forward | src/PathEngine/SpfaPathEngine.h:34-40 | going forward keeps the heading and moves to another cell |
| SpfaPath.GetNextPos | src/PathEngine/SpfaPathEngine.h:27-49 | four moves: first one step forward at cost 1.0, then a turn on the spot to each other heading at cost 0.1, and nothing else |
| SpfaPath.GetVecLineData | src/PathEngine/SpfaPathEngine.h:52-64 | one segment per maximal run of equal heading, from the run's first cell to its last, with value 0; together the segments cover exactly the path's cells |
| SpfaPath.RunsChain | src/PathEngine/SpfaPathEngine.h:52-63 | the merged segments form one chain: the first starts at the walk's first cell, the last ends at its last cell, each ends where the next starts, and all have value 0 |
| SpfaPath.WalkCellsOpen | src/PathEngine/SpfaPathEngine.h:116-118 | every cell of a walk whose start cell is free is free, since each step goes only to a cell of value 0 |
| SpfaPath.SpfaPathEngine.constructor | src/PathEngine/SpfaPathEngine.h:22-24 | a new engine has no distances, predecessors or queue marks |
| SpfaPath.Seed | src/PathEngine/SpfaPathEngine.h:92-97 | the queue starts with the four headings of the start cell, each at distance 0 and marked queued |
| SpfaPath.RelaxKeepsInv | src/PathEngine/SpfaPathEngine.h:116-128 | an improving move into a free cell keeps every distance the cost of a walk from the start and every predecessor chain leading back to it |
| SpfaPath.RelaxMove | src/PathEngine/SpfaPathEngine.h:112-128 | after trying one move, no distance grew, the target is reached at most at the current distance plus the move's cost, and the queue marks match the queue |
| SpfaPath.Expand | src/PathEngine/SpfaPathEngine.h:100-129 | after expanding a state, every reached state off the queue cannot be improved by any of its moves |
| SpfaPath.SettledByMoves | src/PathEngine/SpfaPathEngine.h:110-129 | once all four moves of a state were tried, no move from it can improve a distance |
| SpfaPath.PotentialShrinks | src/PathEngine/SpfaPathEngine.h:120-122 | lowering a distance strictly shrinks the set of (state, smaller distance) pairs, so the queue loop ends |
| SpfaPath.Search | src/PathEngine/SpfaPathEngine.h:99-130 | when the queue is empty, every reached state is settled: no move into a free cell improves any distance |
| SpfaPath.OpenInArena | src/PathEngine/SpfaPathEngine.h:88 | every free cell of the restricted grid lies inside the rectangle or is one of the two ends |
| SpfaPath.WalkBound | src/PathEngine/SpfaPathEngine.h:99-130 | with every state settled, the distance of a walk's last state is at most its first state's distance plus the walk's cost |
| SpfaPath.PickBest | src/PathEngine/SpfaPathEngine.h:132-146 | no target state reached means no answer; otherwise the reached target heading with the least distance, the first in enum order on ties |
| SpfaPath.NoRouteWithoutEnd | src/PathEngine/SpfaPathEngine.h:144-146 | when no heading of the target is reached, no walk through free cells joins start and target |
| SpfaPath.CheapestRoute | src/PathEngine/SpfaPathEngine.h:132-142 | the best target distance is at most the cost of every walk from start to target |
| SpfaPath.Backtrack | src/PathEngine/SpfaPathEngine.h:149-160 | following predecessors from the best target state back to a start state and reversing gives a walk through free cells whose cost is that state's distance |
| SpfaPath.SpfaPathEngine.RunAlgo | src/PathEngine/SpfaPathEngine.h:70-163 | as written, and given no stale predecessor of a start state: equal ends give one zero-length segment at cost 0; no route gives cost 0 and no segments; otherwise the segments are the maximal straight runs of a cheapest walk through the free cells of the restricted grid and cover exactly its cells |
| SpfaPath.StalePreNeverEnds | src/PathEngine/SpfaPathEngine.h:74-158 | after one search, a second search whose start held a predecessor in the first keeps that entry, and backtracking from it follows a cycle forever |
| SpfaPath.CycleForever | src/PathEngine/SpfaPathEngine.h:151-158 | a predecessor chain that returns to its start never runs out |
| SpfaPath.SpfaPathEngine.RunAlgoCleared | src/PathEngine/SpfaPathEngine.h:70-163 | corrected: clearing the predecessors with the distances gives the cheapest-route promise on any engine, reused or not: the segments are the cheapest walk's maximal straight runs and cover exactly its open cells |
| GraphViews.NonZeroMax | src/PathEngine/SpanGraphEngineWrap.h:20-40 | 0 exactly when every value is 0; otherwise one of the values, at least every non-zero value |
| GraphViews.MergeGetPos | src/PathEngine/MergeGraphEngineWrap.h:20-24 | a merged cell is air exactly when it is air in both; a non-zero front value wins, otherwise the back value shows |
| GraphViews.SpanGetPos | src/PathEngine/SpanGraphEngineWrap.h:16-41 | a spread cell is air exactly when it and its four neighbours are air; otherwise it shows the largest of their non-zero values |
| GraphViews.SpanSpreads | src/PathEngine/SpanGraphEngineWrap.h:16-41 | an obstacle makes its own cell and its four neighbours obstacles |
| GraphViews.ErasePointGetPos | src/PathEngine/ErasePointGraphEngineWrap.h:37-50 | with 3 or 4 forced cells, a forced cell reads as air and every other cell as in the base |
| GraphViews.MarginGetPos | src/PathEngine/MarginGraphEngineWrap.h:55-66 | start and target read as air; other cells read as in the base inside the rectangle and as the wall value outside it |
| GraphViews.GetBorderCoord | src/PathEngine/SpanGraphEngineWrap.h:43-49 | each wrapper's box: the union of both boxes for Merge, the base box grown by one for Span, the base box for ErasePoint and Margin |
| GraphViews.BorderEncloses | src/PathEngine/SpanGraphEngineWrap.h:47 | without a Margin in the stack, every non-zero cell lies inside the reported box, so growing the Span box by one is enough |
| GraphViews.NegPosComplete | pd_code_to_diagram/cpp_src/PathEngine/GraphEngineWrap/MergeGraphEngineWrap.h:52-72 | every cell a view shows as negative is in its listing of negative cells |
| GraphViews.NegPosSound | src/PathEngine/GraphEngineWrap/SpanGraphEngineWrap.h:58-79 | without a Margin, every listed cell reads negative in the view |
| GraphViews.SpanCandidateFrom | src/PathEngine/GraphEngineWrap/SpanGraphEngineWrap.h:63-72 | a negative spread cell next to a listed base cell is listed |
| GraphViews.MarginNegPos | src/PathEngine/MarginGraphEngineWrap.h:39-51 | a Margin lists exactly its base's negative cells that lie inside the rectangle |
| GraphViews.NegPosOrdered | pd_code_to_diagram/cpp_src/PathEngine/GraphEngineWrap/MergeGraphEngineWrap.h:56-71 | Merge and Span list their cells in (x, y) order, as read out of a std::set |
| GraphViews.MergeHidesBack | pd_code_to_diagram/cpp_src/PathEngine/GraphEngineWrap/MergeGraphEngineWrap.h:57-66 | a back crossing covered by a positive front value is not listed |
| GraphViews.SpanHidesNearPositive | src/PathEngine/GraphEngineWrap/SpanGraphEngineWrap.h:66-71 | a cell next to a positive value shows that value or more, so it is not listed |
| GraphViews.ErasePointWrap.constructor | src/PathEngine/ErasePointGraphEngineWrap.h:16 | the wrapper starts over its base with no forced cells |
| GraphViews.ErasePointWrap.Clear | src/PathEngine/ErasePointGraphEngineWrap.h:18-20 | no cell stays forced |
| GraphViews.ErasePointWrap.AddEmptyPos | src/PathEngine/ErasePointGraphEngineWrap.h:21-23 | the cell joins the forced cells; adding it twice changes nothing |
| GraphViews.ErasePointWrap.AsView | src/PathEngine/ErasePointGraphEngineWrap.h:9-12 | the wrapper reads as its base with its forced cells erased |
| BorderSets.Flood | src/PathEngine/Common/GetBorderSet.h:29-60 | with (0, 0) free, afterwards a cell is marked exactly when it is reachable from (0, 0) through zero cells by 4-neighbour steps |
| BorderSets.Expand | src/PathEngine/Common/GetBorderSet.h:43-59 | expanding a dequeued cell marks and queues its free unmarked neighbours, so no marked cell stays unexpanded without being queued |
| BorderSets.Visit | src/PathEngine/Common/GetBorderSet.h:46-58 | one neighbour step: an in-bounds free unmarked neighbour is marked and queued, anything else is skipped |
| BorderSets.Mark | src/PathEngine/Common/GetBorderSet.h:53-57 | marking keeps every earlier mark, marks the neighbour when it is free, and either changes nothing or shrinks the set of unmarked reachable cells |
| BorderSets.ReachableFree | src/PathEngine/Common/GetBorderSet.h:50-51 | every cell reached from the corner holds 0 |
| BorderSets.CountTouched | src/PathEngine/Common/GetBorderSet.h:67-74 | the count is between 0 and 4 and positive exactly when some neighbour is marked |
| BorderSets.Collect | src/PathEngine/Common/GetBorderSet.h:63-79 | the set holds exactly the values of the non-zero cells with a marked neighbour |
| BorderSets.CollectedStep | src/PathEngine/Common/GetBorderSet.h:65-77 | one cell adds its value exactly when it is non-zero and touches a marked cell |
| BorderSets.WrapReach | src/PathEngine/Common/GetBorderSet.h:71 | after the flood, a cell reads as marked exactly when it is reachable, cells off the matrix reading 0 |
| BorderSets.TouchesReach | src/PathEngine/Common/GetBorderSet.h:67-75 | a cell touches a marked cell exactly when one of its neighbours is reachable from the corner |
| BorderSets.CollectedBorder | src/PathEngine/Common/GetBorderSet.h:62-79 | collecting after the flood gives exactly the border values: those of the non-zero cells next to the zero region around (0, 0) |
| BorderSets.NeighbourIsBorder | src/PathEngine/Common/GetBorderSet.h:62-79 | a non-zero cell next to the zero region contributes its value |
| BorderSets.GetBorderSet.constructor | src/PathEngine/Common/GetBorderSet.h:28-80 | with a free corner, the object holds the border values of the matrix |
| BorderSets.GetBorderSet.GetAns | src/PathEngine/Common/GetBorderSet.h:17-19 | the answer is the set of border values, which never contains 0 |
| Matrices.Zeros | src/BorderDetect/IntMatrix2/IntMatrix2.h:22-36 | a fresh r-by-c matrix has those dimensions and holds 0 in every cell |
| Matrices.Mapped | src/BorderDetect/IntMatrix2/IntMatrix2.h:58-64 | mapping keeps the dimensions and replaces each cell by the map applied to its row, column and old value |
| Matrices.Combined | src/BorderDetect/IntMatrix2/IntMatrix2.h:67-78 | combining two equal-sized matrices keeps the size and sets each cell to the combiner applied to both cells at that position |
| Matrices.RowMaxBounds | src/BorderDetect/IntMatrix2/IntMatrix2.h:84-86 | the running maximum over a row is at least its start, at least every cell, and is either the start or one of the cells |
| Matrices.MaxFromBounds | src/BorderDetect/IntMatrix2/IntMatrix2.h:83-87 | the running maximum over all rows is at least its start, at least every cell, and is either the start or one of the cells |
| Matrices.GetMaxIsLargestCell | src/BorderDetect/IntMatrix2/IntMatrix2.h:81-89 | starting from INT_MIN, the maximum bounds every 32-bit cell, is attained by some cell of a non-empty matrix, and is INT_MIN for an empty one |
| Matrices.GetMaxAsWrittenMissesLowCells | src/BorderDetect/IntMatrix2/IntMatrix2.h:82 | with the written start value -2147482648, a matrix whose cells all lie below it reports that start value, which is no cell of the matrix |
| Matrices.NotIntMap | pd_code_to_diagram/cpp_src/BorderDetect/IntMap/NotIntMap.h:9-11 | the map yields 0 or 1, and 1 exactly when the value is 0 |
| Matrices.NonZero | pd_code_to_diagram/cpp_src/BorderDetect/IntMatrix2/ZeroOneMatrix.h:16 | the non-zero test is the complement of the logical-not map |
| Matrices.Binarised | pd_code_to_diagram/cpp_src/BorderDetect/IntMatrix2/ZeroOneMatrix.h:13-19 | binarising keeps the size, gives a 0/1 matrix, and a cell is 1 exactly when the source cell is non-zero |
| Matrices.NotAllTwice | pd_code_to_diagram/cpp_src/BorderDetect/IntMatrix2/ZeroOneMatrix.h:31-33 | on a 0/1 matrix, negating all cells keeps it 0/1 and negating twice gives the matrix back |
| Matrices.WrapAt | src/BorderDetect/IntMatrix2/BorderWrap.h:33-38 | inside the bounds the wrapped matrix shows the cell; outside it shows the border value |
| Matrices.WrapMax | src/BorderDetect/IntMatrix2/BorderWrap.h:41-43 | the larger of the wrapped matrix's maximum, which as written starts from -2147482648, and the border value: at least both and every cell, and equal to the border value, that start or some cell |
| Matrices.MaskMax | src/BorderDetect/IntMatrix2/BorderMask.h:52-54 | always 1: an upper bound on every mask cell, reached by every cell on the border |
| Matrices.MaskAt | src/BorderDetect/IntMatrix2/BorderMask.h:24-49 | a cell of the mask is 0 or 1, and 1 exactly when the cell holds the body value and one of its four in-bounds neighbours does not |
| Matrices.MaskMatrix | src/BorderDetect/IntMatrix2/BorderMask.h:17-49 | the mask has the size of the matrix under it, is 0/1, and each cell is the mask value at that position |
| Matrices.SelectedStep | pd_code_to_diagram/cpp_src/BorderDetect/IntMatrix2/ZeroOneMatrix.h:40-42 | one step of the scan adds the other matrix's cell exactly when the 0/1 cell is set |
| Matrices.SelectedNextRow | pd_code_to_diagram/cpp_src/BorderDetect/IntMatrix2/ZeroOneMatrix.h:38-39 | finishing a row of the scan is the same as starting the next one |
| Matrices.SelectedAll | pd_code_to_diagram/cpp_src/BorderDetect/IntMatrix2/ZeroOneMatrix.h:36-46 | scanning every row yields the set of selected values |
| Matrices.IntMatrix2.Value | src/BorderDetect/IntMatrix2/IntMatrix2.h:16-17 | the value view carries the row count, column count and cells of the object |
| Matrices.IntMatrix2.constructor | src/BorderDetect/IntMatrix2/IntMatrix2.h:22-36 | a new matrix is the all-zero matrix of the requested size |
| Matrices.IntMatrix2.SetPos | src/BorderDetect/IntMatrix2/IntMatrix2.h:52-55 | writing a cell in bounds changes that cell to the value and no other cell |
| Matrices.IntMatrix2.MapAll | src/BorderDetect/IntMatrix2/IntMatrix2.h:58-64 | the loop leaves the matrix equal to the old matrix mapped cell by cell |
| Matrices.IntMatrix2.CombineMatrix | src/BorderDetect/IntMatrix2/IntMatrix2.h:67-78 | the loop returns a fresh matrix equal to the two matrices combined cell by cell |
| Matrices.IntMatrix2.MaxStartingAt | src/BorderDetect/IntMatrix2/IntMatrix2.h:83-88 | the nested loop computes the running maximum of all cells from the given start |
| Matrices.IntMatrix2.GetMaxAsWritten | src/BorderDetect/IntMatrix2/IntMatrix2.h:81-89 | the written method returns the running maximum from -2147482648 |
| Matrices.IntMatrix2.GetMax | src/BorderDetect/IntMatrix2/IntMatrix2.h:81-89 | the corrected method returns the running maximum from INT_MIN, which is the largest cell |
| Matrices.ZeroOneMatrix.Value | pd_code_to_diagram/cpp_src/BorderDetect/IntMatrix2/ZeroOneMatrix.h:9 | the value of a 0/1 matrix is its underlying matrix, and every cell is 0 or 1 |
| Matrices.ZeroOneMatrix.constructor | pd_code_to_diagram/cpp_src/BorderDetect/IntMatrix2/ZeroOneMatrix.h:12 | a new 0/1 matrix of the given size is all zero |
| Matrices.ZeroOneMatrix.FromMatrix | pd_code_to_diagram/cpp_src/BorderDetect/IntMatrix2/ZeroOneMatrix.h:13-19 | building from a matrix gives its binarised copy |
| Matrices.ZeroOneMatrix.GetPos | pd_code_to_diagram/cpp_src/BorderDetect/IntMatrix2/ZeroOneMatrix.h:26-28 | reading a cell yields 0 or 1 and agrees with the stored cell |
| Matrices.ZeroOneMatrix.SetPos | pd_code_to_diagram/cpp_src/BorderDetect/IntMatrix2/ZeroOneMatrix.h:21-24 | only 0 or 1 may be written; the cell takes the value and no other cell changes |
| Matrices.ZeroOneMatrix.NotAll | pd_code_to_diagram/cpp_src/BorderDetect/IntMatrix2/ZeroOneMatrix.h:31-33 | negation leaves the matrix equal to the old one mapped by the logical-not map |
| Matrices.ZeroOneMatrix.Select | pd_code_to_diagram/cpp_src/BorderDetect/IntMatrix2/ZeroOneMatrix.h:36-46 | the scan returns exactly the values of the other matrix at the positions set to 1 |
| Bfs.ReachableInClosed | src/BorderDetect/BFS/BfsAlgo.h:43-68 | a set of free cells closed under free neighbours that holds the start holds every cell reachable from it |
| Bfs.ReachableStep | src/BorderDetect/BFS/BfsAlgo.h:49-66 | stepping from a reachable cell to an adjacent free cell reaches that cell too |
| Bfs.Mark | src/BorderDetect/BFS/BfsAlgo.h:58-66 | a free unvisited neighbour is marked visited and queued; the visited set only grows, stays within reachable free cells, and each mark shrinks the unvisited cells |
| Bfs.Visit | src/BorderDetect/BFS/BfsAlgo.h:50-66 | checking the k-th of the four neighbours keeps the search invariant and accounts for that neighbour |
| Bfs.Expand | src/BorderDetect/BFS/BfsAlgo.h:49-67 | after the four neighbours are checked, every free neighbour of the popped cell is visited, and the visited set grew or stayed the same |
| Bfs.SearchStart | src/BorderDetect/BFS/BfsAlgo.h:27-38 | marking the free start cell in a zero matrix and queueing it establishes the search invariant |
| Bfs.SearchDone | src/BorderDetect/BFS/BfsAlgo.h:43-72 | when the queue is empty, the visited cells are exactly the cells reachable from the start through free cells |
| Bfs.Search | src/BorderDetect/BFS/BfsAlgo.h:22-73 | from a free start cell, the result has the size of the graph and marks a cell 1 exactly when it is reachable from the start through 0 cells, never leaving the grid |
| Graphs.EdgesSymmetric | pd_code_to_diagram/cpp_src/BorderDetect/Graph/Graph.h:42-49 | in a well-formed adjacency list every edge has its reverse and both ends are node ids from 1 to the maximum |
| Graphs.Empties | pd_code_to_diagram/cpp_src/BorderDetect/Graph/Graph.h:35-38 | growing by n adds n empty neighbour lists, none when n is not positive |
| Graphs.GrowKeepsEdges | pd_code_to_diagram/cpp_src/BorderDetect/Graph/Graph.h:34-39 | appending empty neighbour lists keeps the adjacency well-formed and adds no edge |
| Graphs.PushEdge | pd_code_to_diagram/cpp_src/BorderDetect/Graph/Graph.h:47 | appending t to the list of f adds exactly the edge (f, t) |
| Graphs.PushBoth | pd_code_to_diagram/cpp_src/BorderDetect/Graph/Graph.h:47-48 | pushing both directions keeps the adjacency symmetric |
| Graphs.Graph.constructor | pd_code_to_diagram/cpp_src/BorderDetect/Graph/Graph.h:14-16 | a new graph has maximum node id 0 and no edge |
| Graphs.Graph.SetMaxNodeId | pd_code_to_diagram/cpp_src/BorderDetect/Graph/Graph.h:34-39 | the maximum id becomes the larger of the old and requested ids, empty lists are appended for the new ids, and the edges do not change |
| Graphs.Graph.AddEdge | pd_code_to_diagram/cpp_src/BorderDetect/Graph/Graph.h:42-49 | the maximum id grows to cover both ends; the edge is added in both directions exactly when both ids are at least 1, and otherwise an assertion failure is reported with the edges unchanged |
| Graphs.Graph.GetNextNode | pd_code_to_diagram/cpp_src/BorderDetect/Graph/Graph.h:52-55 | every neighbour returned is an existing node joined to the node by an edge in both directions, and every edge from the node is listed |
| DiagramGraphs.CrossingsStep | src/BorderDetect/Graph/DiagramGraph.h:20-21 | scanning one more cell adds it to the crossings seen exactly when it holds a negative value |
| DiagramGraphs.CrossingsNextRow | src/BorderDetect/Graph/DiagramGraph.h:19-20 | finishing an inner row of the scan is the same as starting the next row at column 1 |
| DiagramGraphs.CrossingsAll | src/BorderDetect/Graph/DiagramGraph.h:19-32 | scanning every inner row yields all crossing cells of the inner area |
| DiagramGraphs.BadCrossing | src/BorderDetect/Graph/DiagramGraph.h:24-25 | a crossing with a non-positive neighbour makes the matrix ill-formed |
| DiagramGraphs.EdgesAtAdd | src/BorderDetect/Graph/DiagramGraph.h:28-29 | the edges of one more crossing are added to the edges built so far |
| DiagramGraphs.ReadCrossing | src/BorderDetect/Graph/DiagramGraph.h:22-27 | reading the four neighbours of a crossing succeeds exactly when all are positive, returns them in the order right, up, left, down, raises the maximum id to at least 3 and adds no edge |
| DiagramGraphs.BuiltSkip | src/BorderDetect/Graph/DiagramGraph.h:21 | a cell that is not a crossing leaves the partial graph as built |
| DiagramGraphs.BuiltAdd | src/BorderDetect/Graph/DiagramGraph.h:21-30 | adding the two opposite-strand edges of a good crossing extends the graph built over the scanned crossings |
| DiagramGraphs.BuiltAll | src/BorderDetect/Graph/DiagramGraph.h:19-32 | a scan of all rows leaves the matrix well-formed and the graph built over all crossings |
| DiagramGraphs.AddCrossing | src/BorderDetect/Graph/DiagramGraph.h:22-29 | a good crossing adds the edges joining its left and right strands and its up and down strands, and raises the maximum id to cover them; a bad one fails the assertion |
| DiagramGraphs.VisitCell | src/BorderDetect/Graph/DiagramGraph.h:21-30 | one cell of the scan succeeds exactly when it is no crossing or a good one, and extends the built graph by one cell |
| DiagramGraphs.FillRow | src/BorderDetect/Graph/DiagramGraph.h:20-31 | a whole row either extends the built graph to the next row or fails on an ill-formed matrix |
| DiagramGraphs.Fill | src/BorderDetect/Graph/DiagramGraph.h:19-32 | the scan succeeds exactly when every inner crossing has four positive neighbours, and then builds the graph over all crossings |
| DiagramGraphs.DiagramGraph.constructor | src/BorderDetect/Graph/DiagramGraph.h:16-33 | construction succeeds exactly when the matrix is well-formed; the graph's edges are then exactly the opposite-strand pairs of all crossings, and the maximum id is 0 with no crossing, at least 3 otherwise, and is 3 or an endpoint of an edge |
| DiagramGraphs.DiagramGraph.GetNextNode | src/BorderDetect/Graph/DiagramGraph.h:47-49 | every neighbour returned is an existing node joined to the node by an edge, and every edge from the node is listed |
| Connectivity.ConnRefl | src/BorderDetect/Graph/ConnectedComponents.h:16-17 | every node is connected to itself |
| Connectivity.ConnEdge | src/BorderDetect/Graph/ConnectedComponents.h:21-27 | the two ends of an edge are connected |
| Connectivity.ConnTrans | src/BorderDetect/Graph/ConnectedComponents.h:21-27 | connectivity is transitive |
| Connectivity.ConnMono | src/BorderDetect/Graph/ConnectedComponents.h:31-37 | adding edges keeps connected nodes connected |
| Connectivity.LabelAlong | src/BorderDetect/Graph/ConnectedComponents.h:60-63 | a labelling that every edge respects gives both ends of any walk the same label |
| Connectivity.ConnEmpty | src/BorderDetect/Graph/ConnectedComponents.h:43-47 | without edges a node is connected only to itself |
| Connectivity.Compress | src/BorderDetect/Graph/ConnectedComponents.h:16-19 | pointing a node straight at its root keeps a valid union-find forest with the same roots |
| Connectivity.Hang | src/BorderDetect/Graph/ConnectedComponents.h:24-27 | hanging one root under another keeps a valid forest whose roots are relabelled from the first root to the second |
| Connectivity.PartitionEdges | src/BorderDetect/Graph/ConnectedComponents.h:21-27 | when the roots partition the nodes into the classes of the linked edges, every edge joins nodes of the same class |
| Connectivity.LinkSame | src/BorderDetect/Graph/ConnectedComponents.h:24 | linking two nodes that already share a root keeps the roots a partition into connected classes |
| Connectivity.LinkMerge | src/BorderDetect/Graph/ConnectedComponents.h:24-27 | linking two nodes of different roots, in either orientation, merges their classes and keeps the roots a partition into connected classes |
| Connectivity.Singletons | src/BorderDetect/Graph/ConnectedComponents.h:43-47 | with every node its own root and no edge, the roots are the partition into singletons |
| Connectivity.HookKeeps | src/BorderDetect/Graph/ConnectedComponents.h:21-27 | the hook in link keeps the union-find state matching the linked edges, whichever way the coin swaps the roots |
| Connectivity.SameKeeps | src/BorderDetect/Graph/ConnectedComponents.h:24 | a link between nodes of one class keeps the union-find state matching the linked edges |
| Connectivity.ComponentsUnique | src/BorderDetect/Graph/ConnectedComponents.h:51-73 | any two lists of the connected components contain the same sets |
| Connectivity.RootsInRange | src/BorderDetect/Graph/ConnectedComponents.h:16-19 | the root of every node is itself a node id |
| Connectivity.ClassIsComponent | src/BorderDetect/Graph/ConnectedComponents.h:60-63 | the set of nodes with a given root is a connected component |
| Connectivity.ConnectedComponents.constructor | src/BorderDetect/Graph/ConnectedComponents.h:43-49 | the structure covers the graph's node ids and has linked exactly the graph's edges |
| Connectivity.ConnectedComponents.Find | src/BorderDetect/Graph/ConnectedComponents.h:16-19 | find returns the root of the node's class, a node id, with path compression keeping the state valid |
| Connectivity.ConnectedComponents.Link | src/BorderDetect/Graph/ConnectedComponents.h:21-28 | link adds the edge in both directions to the edges the classes describe |
| Connectivity.ConnectedComponents.ConstructAll | src/BorderDetect/Graph/ConnectedComponents.h:31-37 | linking every adjacency of the graph makes the classes those of the graph's edges |
| Connectivity.ConnectedComponents.GetConnectedComponents | src/BorderDetect/Graph/ConnectedComponents.h:51-73 | the result lists the connected components of the graph: non-empty, pairwise disjoint, covering every node, each closed and connected |
| Connectivity.NonEmpty | src/BorderDetect/Graph/ConnectedComponents.h:66-71 | the result keeps the non-empty buckets 1..n in increasing order and drops only empty ones |
| Connectivity.ClassesAreComponents | src/BorderDetect/Graph/ConnectedComponents.h:59-72 | the non-empty classes of the root partition are the connected components |
| BorderDetection.Intersect | src/BorderDetect/BorderDetect.h:25-33 | the loop returns exactly the elements present in both sets |
| BorderDetection.Flooded | src/BorderDetect/BorderDetect.h:82-88 | the flood from the corner has the grid's size and marks a cell 1 exactly when it is reachable from (0, 0) over empty cells |
| BorderDetection.NodeTopUnique | src/BorderDetect/BorderDetect.h:102-104 | the largest node id of the diagram graph is determined by the grid alone |
| BorderDetection.BinarisedZeroOne | src/BorderDetect/BorderDetect.h:92-93 | copying a 0/1 matrix into a ZeroOneMatrix changes nothing |
| BorderDetection.PickedComponent | src/BorderDetect/BorderDetect.h:108-112 | a listed component that holds the target is the target's component |
| BorderDetection.CoveredSomewhere | src/BorderDetect/BorderDetect.h:108-112 | every node of the graph lies in some listed component |
| BorderDetection.EdgesWithin | src/BorderDetect/BorderDetect.h:102-104 | every edge of a valid graph joins node ids from 1 to the maximum |
| BorderDetection.LastHolding | src/BorderDetect/BorderDetect.h:107-112 | the scan over the components returns the component of the target, empty when the target is no node |
| BorderDetection.BorderSet | src/BorderDetect/BorderDetect.h:82-97 | binarising, flooding from the empty corner, masking and selecting yields exactly the grid values on the border of the outer empty region |
| BorderDetection.ComponentHolding | src/BorderDetect/BorderDetect.h:102-112 | building the diagram graph succeeds exactly when the grid is well-formed, and then yields the connected component of the given id |
| BorderDetection.CheckBorderMaxCC | src/BorderDetect/BorderDetect.h:70-121 | the check fails its assertion exactly when the largest cell is not positive, the corner is not an empty cell, or a crossing lacks four positive neighbours; otherwise it answers whether the component of the target id (last_socket_id when positive, else the largest id) meets the outer border |
| FileInput.LeadSpaces | src/BorderDetect/DataInput/FileDataInput.h:21 | the count of leading whitespace covers only whitespace and stops at the first other character |
| FileInput.TrailSpaces | src/BorderDetect/DataInput/FileDataInput.h:26 | the count of trailing whitespace covers only whitespace and stops at the last other character |
| FileInput.Trim | src/BorderDetect/DataInput/FileDataInput.h:19-28 | trimming never lengthens the text, yields the empty string exactly for all-whitespace text, and otherwise starts and ends with non-whitespace |
| FileInput.LeadSpacesAfter | src/BorderDetect/DataInput/FileDataInput.h:21 | whitespace followed by a non-whitespace character has exactly its own length as leading whitespace |
| FileInput.TrailSpacesBefore | src/BorderDetect/DataInput/FileDataInput.h:26 | text ending in non-whitespace followed by whitespace has exactly that whitespace as trailing whitespace |
| FileInput.TrimUnique | src/BorderDetect/DataInput/FileDataInput.h:19-28 | trimming whitespace, text with non-whitespace ends, and whitespace gives back exactly that text |
| FileInput.TrimInfix | src/BorderDetect/DataInput/FileDataInput.h:19-28 | the trimmed text is a slice of the original with only whitespace before and after it |
| FileInput.TrimTwice | src/BorderDetect/DataInput/FileDataInput.h:19-28 | trimming is idempotent |
| FileInput.NonEmptyLinesAppend | src/BorderDetect/DataInput/FileDataInput.h:38-45 | keeping non-blank lines distributes over concatenation of the input |
| FileInput.NonEmptyLinesExact | src/BorderDetect/DataInput/FileDataInput.h:38-45 | a line is kept exactly when it is an input line that is not all whitespace |
| FileInput.CountNonEmptyLines | src/BorderDetect/DataInput/FileDataInput.h:32-53 | the loop keeps the non-blank lines, untrimmed and in order, and counts them |
| FileInput.CountNonBlankSegments | src/BorderDetect/DataInput/FileDataInput.h:61-82 | the loop counts the maximal runs of non-whitespace characters |
| FileInput.NoSegmentsAllSpace | src/BorderDetect/DataInput/FileDataInput.h:61-82 | a line has no segment exactly when it is all whitespace |
| FileInput.SegmentsConcat | src/BorderDetect/DataInput/FileDataInput.h:61-82 | segment counts add up across a split at whitespace |
| FileInput.OneSegment | src/BorderDetect/DataInput/FileDataInput.h:66-79 | a space followed by a word without whitespace has exactly one segment |
| FileInput.ReadInt | src/BorderDetect/DataInput/FileDataInput.h:97 | one read never changes the text, stays within it, and cannot make a failed stream good again |
| FileInput.StreamAfterNext | src/BorderDetect/DataInput/FileDataInput.h:96-99 | the stream after j + 1 reads is the stream after one more read past j reads |
| FileInput.ReadManyAt | src/BorderDetect/DataInput/FileDataInput.h:96-99 | the j-th of k reads yields what one read stores from the stream left by the first j reads |
| FileInput.IntToStringSpells | src/BorderDetect/DataInput/FileDataInput.h:97 | the decimal text of a 32-bit int is an optional minus sign and the digits of its magnitude |
| FileInput.SpellsNoSpace | src/BorderDetect/DataInput/FileDataInput.h:97 | such a word is non-empty and has no whitespace |
| FileInput.ReadRendered | src/BorderDetect/DataInput/FileDataInput.h:97 | reading a space, a written int and a non-digit (or the end) yields that int and stops right after it, at end-of-file when nothing follows |
| FileInput.ReadAt | src/BorderDetect/DataInput/FileDataInput.h:96-98 | in a line of space-separated written ints, the read at the j-th word yields the j-th value |
| FileInput.StreamsAlong | src/BorderDetect/DataInput/FileDataInput.h:96-98 | after j reads over space-separated written ints the stream stands just after the j-th word and is still good |
| FileInput.ReadWords | src/BorderDetect/DataInput/FileDataInput.h:96-98 | reading as many ints as there are words yields every value in order |
| FileInput.ReadRow | src/BorderDetect/DataInput/FileDataInput.h:93-100 | a line of space-separated 32-bit ints reads back as those ints |
| FileInput.ReadLine | src/BorderDetect/DataInput/FileDataInput.h:93-100 | any space-separated spelling of the ints reads back as those ints |
| FileInput.SpacedSegments | src/BorderDetect/DataInput/FileDataInput.h:61-82 | space-separated non-empty words without whitespace make as many segments as words |
| FileInput.RowSegments | src/BorderDetect/DataInput/FileDataInput.h:90 | a written row of n ints has n segments |
| FileInput.GridText | src/BorderDetect/DataInput/FileDataInput.h:86-103 | the text of a grid has one line per row |
| FileInput.GridTextReads | src/BorderDetect/DataInput/FileDataInput.h:86-103 | for a non-empty rectangular grid of 32-bit ints, its text keeps every line, its first line has as many segments as columns, and every cell reads back |
| FileInput.AllKept | src/BorderDetect/DataInput/FileDataInput.h:38-45 | lines that are none of them blank are all kept |
| FileInput.KeepLast | src/BorderDetect/DataInput/FileDataInput.h:38-45 | a non-blank last line is kept after the lines kept before it |
| FileInput.FillRow | src/BorderDetect/DataInput/FileDataInput.h:94-99 | the row's cells take the values the reads store, and no other row changes |
| FileInput.LoadMatrix | src/BorderDetect/DataInput/FileDataInput.h:86-103 | loading fails its assertion exactly when no line is non-blank; otherwise the matrix has a row per non-blank line, as many columns as the first such line has segments, and each cell holds the value read for it whenever a read stores one |
| NodeSets.OrderedUndirected | pd_code_to_diagram/cpp_src/NodeSet3D/NodeSet3D.h:80-82 | ordering a pair puts the smaller id first, ignores the argument order and keeps the same two ids |
| NodeSets.NodeParts | pd_code_to_diagram/cpp_src/NodeSet3D/NodeSet3D.h:91-95 | the node lines contribute four labelled values per node |
| NodeSets.LinkParts | pd_code_to_diagram/cpp_src/NodeSet3D/NodeSet3D.h:97-99 | the link lines contribute two labelled values per link |
| NodeSets.RunsConcat | pd_code_to_diagram/cpp_src/NodeSet3D/NodeSet3D.h:86-101 | text made of digit-free labels and decimal words splits into exactly those words as digit runs |
| NodeSets.ExtractRendered | pd_code_to_diagram/cpp_src/NodeSet3D/NodeSet3D.h:86-101 | extracting the integers from rendered labelled values gives back the values |
| NodeSets.ConcatAppend | pd_code_to_diagram/cpp_src/NodeSet3D/NodeSet3D.h:86-101 | rendering distributes over concatenation of parts |
| NodeSets.NodePartsAt | pd_code_to_diagram/cpp_src/NodeSet3D/NodeSet3D.h:91-95 | the node parts of id i are its id and its three coordinates, at positions 4i-4 to 4i-1 |
| NodeSets.LinkPartsAt | pd_code_to_diagram/cpp_src/NodeSet3D/NodeSet3D.h:97-99 | the link parts of link k are its two ids, at positions 2k and 2k+1, and all labels are digit-free |
| NodeSets.GraphValuesFit | pd_code_to_diagram/cpp_src/NodeSet3D/NodeSet3D.h:86-101 | with non-negative coordinates and ids within the int range, every value written is a non-negative int |
| NodeSets.GraphNodeValues | pd_code_to_diagram/cpp_src/NodeSet3D/NodeSet3D.h:91-95 | the values of the output hold each node's id and coordinates at their positions |
| NodeSets.GraphLinkValues | pd_code_to_diagram/cpp_src/NodeSet3D/NodeSet3D.h:97-99 | the output holds 2 + 4n + 2m values, the ids of link k at positions 2 + 4n + 2k and 3 + 4n + 2k |
| NodeSets.GraphTextReads | pd_code_to_diagram/cpp_src/NodeSet3D/NodeSet3D.h:86-101 | reading the integers back from the output yields the node count, the link count, each node's id and coordinates, and each link's ids, in order |
| NodeSets.NodeSet3D.constructor | pd_code_to_diagram/cpp_src/NodeSet3D/NodeSet3D.h:52-54 | a new set has no node, no coordinate and no link |
| NodeSets.NodeSet3D.GetNodeId | pd_code_to_diagram/cpp_src/NodeSet3D/NodeSet3D.h:70-73 | the lookup succeeds exactly when the coordinate was added, and then gives the id that maps back to it; otherwise the assertion fails |
| NodeSets.NodeSet3D.AddOrGetNodeId | pd_code_to_diagram/cpp_src/NodeSet3D/NodeSet3D.h:59-67 | a known coordinate returns its id and changes nothing; a new one gets the next id, recorded in both directions; the coordinates gain the point and the links do not change |
| NodeSets.NodeSet3D.Link | pd_code_to_diagram/cpp_src/NodeSet3D/NodeSet3D.h:76-83 | linking succeeds exactly when the ids are different existing nodes, and then adds the ordered pair, which joins their two coordinates; a failed link changes nothing |
| NodeSets.NodeSet3D.OutputGraph | pd_code_to_diagram/cpp_src/NodeSet3D/NodeSet3D.h:86-101 | the text written is the graph text of the nodes and of the links in ascending order |
| NodeSets.WriteGraph | pd_code_to_diagram/cpp_src/NodeSet3D/NodeSet3D.h:88-100 | the loops write the count lines, one node line per id and one link line per link, then the blank line |
| NodeSets.WriteCounts | pd_code_to_diagram/cpp_src/NodeSet3D/NodeSet3D.h:88-89 | the header lines carry the node count and the link count |
| GenNodeSets.SegmentLinksExact | src/NodeSet3D/GenNodeSetAlgo.h:17-44 | a segment with a positive tag links exactly the pairs of consecutive cells along it that both read the tag; a tag of 0 or less links nothing |
| GenNodeSets.AlongLinksExact | src/NodeSet3D/GenNodeSetAlgo.h:27-42 | the walk up to a running coordinate links exactly the hits before it |
| GenNodeSets.StepShape | src/NodeSet3D/GenNodeSetAlgo.h:29-31 | a strand link joins two neighbouring cells at level 0 |
| GenNodeSets.CrossingShape | src/NodeSet3D/GenNodeSetAlgo.h:80-89 | each link of a crossing is either a neighbour step at level 1 or a drop from level 1 to the cell below |
| GenNodeSets.LinesShape | src/NodeSet3D/GenNodeSetAlgo.h:67-69 | every link made for the segments is a neighbour step at level 0 |
| GenNodeSets.CrossingsShape | src/NodeSet3D/GenNodeSetAlgo.h:73-90 | every link made for the crossings is a level-1 step or a drop |
| GenNodeSets.ExpectedShape | src/NodeSet3D/GenNodeSetAlgo.h:64-91 | every link of the skeleton joins two distinct points, horizontally or vertically adjacent at one level or one above the other |
| GenNodeSets.GenNodeSetAlgo.constructor | src/NodeSet3D/GenNodeSetAlgo.h:93-96 | construction succeeds exactly when every listed negative cell holds -1 or -2, and the node set then links exactly the segments' and crossings' links |
| GenNodeSets.GenNodeSetAlgo.LinkCoords | src/NodeSet3D/GenNodeSetAlgo.h:55-61 | linking two distinct points adds exactly the link between them |
| GenNodeSets.GenNodeSetAlgo.LinkDown | src/NodeSet3D/GenNodeSetAlgo.h:47-53 | a point is linked to the point below it |
| GenNodeSets.GenNodeSetAlgo.LinkEdge | src/NodeSet3D/GenNodeSetAlgo.h:17-44 | the loop adds exactly the segment's links |
| GenNodeSets.GenNodeSetAlgo.LinkSegments | src/NodeSet3D/GenNodeSetAlgo.h:67-69 | the loop adds the links of every segment |
| GenNodeSets.GenNodeSetAlgo.LinkCrossings | src/NodeSet3D/GenNodeSetAlgo.h:73-90 | the loop stays good exactly when every crossing holds -1 or -2, and then adds every crossing's bridge links |
| GenNodeSets.GenNodeSetAlgo.LinkBridge | src/NodeSet3D/GenNodeSetAlgo.h:80-89 | a crossing adds its two drops and its two bridge steps, along x for -1 and along y for -2 |
| GenNodeSets.GenNodeSetAlgo.BuildNodeSet3D | src/NodeSet3D/GenNodeSetAlgo.h:64-91 | the build succeeds exactly when every crossing holds -1 or -2, and then links exactly the expected skeleton |
| GenNodeSets.GenNodeSetAlgo.OutputGraph | src/NodeSet3D/GenNodeSetAlgo.h:104-106 | the output is the node set's graph text |
| GenNodeSets.BridgeLinks | src/NodeSet3D/GenNodeSetAlgo.h:86-89 | the four link calls of a crossing add exactly its crossing links |
| GenNodeSets.CrossingsStep | src/NodeSet3D/GenNodeSetAlgo.h:73-90 | one more crossing adds its links, and the crossings stay good exactly when it holds -1 or -2 |
| GenNodeSets.LinkedAfter | src/NodeSet3D/GenNodeSetAlgo.h:55-61 | after a link, every node, including up to two new ones, is an end of a stored link |
| PdToDiagram.RetryNext | src/PdToDiagram2d.h:81-97 | a retryable failure passes the decision to the remaining seeds; any other outcome is the answer |
| PdToDiagram.RetryStopsAtFirst | src/PdToDiagram2d.h:81-97 | when the first i attempts fail retryably and attempt i does not, the result is attempt i |
| PdToDiagram.RetryExhausted | src/PdToDiagram2d.h:81-107 | when every attempt fails retryably, the result is MaxTryExceeded |
| PdToDiagram.RetryCases | src/PdToDiagram2d.h:81-107 | the result is either MaxTryExceeded after only retryable failures, or the first attempt that is not a retryable failure |
| PdToDiagram.MaxTryExactlyWhenAllRetried | src/PdToDiagram2d.h:99-107 | when no attempt itself raises MaxTryExceeded, the loop raises it exactly when every attempt failed retryably |
| PdToDiagram.AttemptNeverMaxTry | src/PdToDiagram2d.h:20-67 | one attempt never raises MaxTryExceeded |
| PdToDiagram.BadBorderExactly | src/PdToDiagram2d.h:56-63 | an attempt raises BadBorder exactly when the code loads, the layout succeeds, the grid passes the border check's assertions, and the target component does not meet the outer border |
| PdToDiagram.VerdictIsOnBorder | src/PdToDiagram2d.h:58 | the border check's answer is the on-border verdict for the grid, independent of how the graph was built |
| PdToDiagram.ToIntMatrix2 | src/PdToDiagram2d.h:56 | the converted matrix holds exactly the exported grid |
| PdToDiagram.TryConvertOnce | src/PdToDiagram2d.h:20-67 | one attempt loads the code, lays it out for the seed, runs the border check, and yields the grid when the target component is outside, BadBorder when not, or the failure of the step that failed |
| PdToDiagram.AttemptOnce | src/PdToDiagram2d.h:82-92 | one round of the loop yields the seed's attempt |
| PdToDiagram.Convert | src/PdToDiagram2d.h:71-109 | the corrected loop tries max_try + 1 seeds from min_seed and yields the first outcome that is not a crossing meeting or bad border, or MaxTryExceeded when all are |
| PdToDiagram.SeedBoundAsWritten | src/PdToDiagram2d.h:81 | the written bound min_seed + max_try wraps modulo 2^32, and falls below min_seed exactly when the sum reaches 2^32 |
| PdToDiagram.ConvertAsWritten | src/PdToDiagram2d.h:71-109 | the written loop tries the seeds from min_seed up to the wrapped bound |
| PdToDiagram.WrappedBoundSkipsEverySeed | src/PdToDiagram2d.h:81 | from seed 2^32 - 1 with 100 tries the written bound wraps to 99, so no seed is tried and MaxTryExceeded is raised even when that seed would have succeeded |
| PdToDiagram.ConvertTriesEverySeed | src/PdToDiagram2d.h:71-109 | the corrected loop raises MaxTryExceeded exactly when all max_try + 1 seeds fail retryably |
| PdToDiagram.StrandSnoc | src/PdToDiagram2d.h:118-125 | one more crossing adds the edges joining its positions 0 and 2 and 1 and 3, and raises the maximum id to cover them |
| PdToDiagram.BadIdFound | src/PdToDiagram2d.h:120-124 | a crossing whose opposite ids are not both positive makes the code's ids unusable |
| PdToDiagram.InFlatten | src/PdToDiagram2d.h:118-119 | every id of every crossing occurs in the flattened code |
| PdToDiagram.LinkPair | src/PdToDiagram2d.h:121-123 | linking positions j and j + 2 succeeds exactly when both ids are positive and then adds that edge in both directions |
| PdToDiagram.LinkStrands | src/PdToDiagram2d.h:120-124 | both links of a crossing succeed exactly when its four ids are positive and then add both strands |
| PdToDiagram.StrandGraph | src/PdToDiagram2d.h:117-125 | the graph is built exactly when every id is positive and then joins positions 0 and 2 and 1 and 3 of every crossing, with the largest id as maximum |
| PdToDiagram.GetAllCc | src/PdToDiagram2d.h:112-131 | a load failure is passed on; otherwise the result exists exactly when every id is positive and lists the connected components of the strand graph |
| PdToDiagram.ComponentsOf | src/PdToDiagram2d.h:128-130 | the components of a graph are listed as connected components |
| PdToDiagram.StrandEndsShareComponent | src/PdToDiagram2d.h:118-130 | the two ids on opposite sides of a crossing lie in the same component |
| PdToDiagram.StrandEdgeAt | src/PdToDiagram2d.h:120-124 | each crossing contributes the edge between positions j and j + 2 |
| PdToDiagram.TopIdBound | src/PdToDiagram2d.h:117-125 | the maximum node id is non-negative and at least every id of the code |
| NumInput.AllDigitsReadsOne | pd_code_to_diagram/cpp_src/Utils/Debug.h:30-39 | a string that passes the all-digits test and fits an int reads as exactly that one integer |
| PdCrossings.PDCrossing.constructor | src/PDCrossing.h:11-13 | a new crossing holds no ids |
| Sockets.SocketInfo.Copy | src/LinkAlgo.h:111-112 | a copy has the same used flags, plug lists and checked flag as the original |

## Left out

- Command-line handling, stdin slurping and printing: `src/main.cpp` and `pd_code_to_diagram/cpp_src/main.cpp`. Their retry loop duplicates `PdToDiagram2d::convert`, which is modelled as `PdToDiagram.Convert`.
- Stream rewinding and stdin reading (`Utils/StringStream.h`), plus the Python driver and data scripts. Reading text is modelled as functions over strings.
- Output helpers: `debugOutput`, `showAllCc`, `PDTree::debugOutput` and `debugMap`. These only print.
- Random numbers (`Utils/Random.h`). Every random pick is a nondeterministic choice (`:|`): the crossing picked for the tree, the orientation of a union-find link, and the free socket picked for a crossing. No contract depends on which element is picked.
- The seed is not threaded through the layout. In `PdToDiagram.Convert` one layout attempt is an oracle `layout: (int, seq<int>) -> Result<Matrix>` held in the `Job` datatype. The oracle stands for reseeding, the rebuild-until-no-overlay loop of `PdToDiagram2d.h:37-43` (which has no bound), `PDTree::load`/`checkNoOverlay`/`getComponentCnt`, the three-argument `LinkAlgo`, `SocketInfo::check(n, c)` and the export to a matrix. Those steps are modelled on their own in `PdTrees`, `Sockets` and `Linking`; the driver's contract is stated over whatever the oracle returns.
- Wall-clock timing (`PrecisionTimer.h`) and the `std::hash` specialisation of `NodeSet3D.h`.
- Heap allocation and the deleted copy constructors of `src/PathEngine/IntMatrix.h`. `HeapMatrix.IntMatrix` is a Dafny array.
- Floating point:
  - `calcPositionPunish`, `calcNearPunish` and the `right` weight in `PDTree.h` are sqrt-based scores. Without them, `PdTrees.PDTree.GetBestSocket` picks any free candidate socket. The caller re-checks for overlap, so nothing relies on the heuristic.
  - `Coord2dPosition`'s `len`, `unit` and `distance` are not modelled, so neither is the property that the unit of the zero vector is the zero vector.
- SPFA costs are doubles in the source. The model counts them in integer tenths: 10 for a forward step and 1 for a turn. Floating-point tie-breaking is not modelled.
- Interface-only headers (`AbstractIntMatrix2`, `AbstractIntMatrix`, `AbstractIntMap`, `AbstractIntCombine`, `AbstractGraph`, `AbstractDataInput`, `AbstractPathAlgorithm`, `AbstractGraphEngine`'s virtual part) are not separate types:
  - Each implementation is a concrete class.
  - The graph-engine wrappers are one `GraphViews.View` datatype.
  - `AbstractIntMap` and `AbstractIntCombine` are Dafny function values.
- Aliasing between a wrapper and the engine under it is not modelled. The wrappers never write, so a wrapper reads a snapshot of its base taken when it is queried.
- `Direction.h` (both copies) is the four-constructor datatype `Directions.Direction`, numbered counter-clockwise.
- `src/PDCode.h` is an earlier draft that does not compile. It is superseded by `src/PDTreeAlgo/PDCode.h`, which is the file modelled.
- The default-inserting `operator[]` reads in `SocketInfo::check`/`getInfo` are not modelled. A read of a missing key returns the default there and in the model alike, and the inserted entry is never read back.
- FileInput.FillRow: the C++ target `int v` is uninitialised, so a failed `ss >> v` leaves an unspecified value. The model returns `None` for that cell instead of guessing one.
- FileInput.ReadInt: skipping whitespace is a recursion bounded by the text's length (a fuel argument). The whole text is consumed within the bound, so nothing is lost.
- Bfs.Search: the source's ASSERT that the start cell is inside and free is a `requires`. Its one caller, `BorderDetection.CheckBorderMaxCC`, returns that failure before the call when the corner (0, 0) is not free.
- BorderSets.GetBorderSet: the same ASSERT on the corner (0, 0) is a `requires` of the constructor. The class is used only by the command-line programs (`src/main.cpp`, `pd_code_to_diagram/cpp_src/main.cpp`), after conversion; they are not part of this model.
- PdCrossings.PDCrossing.HasSocket: the four-id sanity assertion is a `requires`. Every crossing comes from `load`, which fails otherwise.
- PdCrossings.PDCrossing.ToString: requires four ids. The source has no check there and indexes `crs[0]` to `crs[3]` directly, which is out of range for a crossing with fewer ids. Every crossing comes from `load`, which fails otherwise.
- `Graph(int)` is modelled as the default constructor followed by `SetMaxNodeId`.
- `PdToDiagram.Agree` compares outcomes up to the assertion message text.
- BorderDetection.CheckBorderMaxCC: uses the corrected `GetMax` (see Findings). The verdict does not change: with either start value, a matrix whose cells are all below 1 fails the `> 0` assertion.
- PdToDiagram.ConvertAsWritten: requires the wrapped bound to be below 2^32 − 1. When the bound is exactly 2^32 − 1, the written loop never ends.
- SpfaPath.SpfaPathEngine.RunAlgo: requires that no stale predecessor entry exists for a start state. With one, the written back-tracking loop never ends; see Findings.
- PdTrees.PDTree.Dfs: uses the corrected `getSocketIdByDirection`, which is what the source does when built with NDEBUG. As written, its assertion fails on every call (see Findings), so the search aborts on any tree with two or more crossings.
- PdTrees.PDTree.GetBestSocket: relies on `Dfs`, so it also uses the corrected `getSocketIdByDirection` (the NDEBUG behaviour).
- PdTrees.PDTree.GrowOnce: every round runs `Dfs`, so it uses the corrected `getSocketIdByDirection` (the NDEBUG behaviour).
- PdTrees.PDTree.BuildTree: a build with two or more crossings runs `Dfs`, so it uses the corrected `getSocketIdByDirection` (the NDEBUG behaviour).
- PdTrees.PDTree.Load: inherits `BuildTree`'s use of the corrected `getSocketIdByDirection` (the NDEBUG behaviour).
- PdToDiagram.TryConvertOnce: loads the code with the corrected `InputPdCode`, reading the stream it is given (see Findings). As written, `src/PdToDiagram2d.h:31` reads `std::cin`, which the command-line program has already read to the end.
- PdToDiagram.GetAllCc: loads the code with the corrected `InputPdCode`, for the same reason (`src/PdToDiagram2d.h:114`).
- VectorGraph.VectorGraphEngine.ParsifyDryRun, VectorGraph.VectorGraphEngine.CommitCoordMap: `src/PathEngine/VectorGraphEngine.h` defines neither `parsifyDryRun(k)` nor a `commitCoordMap` taking two maps. Only the calls in `rawParsify` (`src/LinkAlgo.h:24-27`) exist, so that source does not compile as given. Both members are rebuilt from three sources: the comment on `getCoord2dSet` (:40-41), `commitCoordMap(Coord2dSet&, k)` (:54-82), and `SocketInfo::commitCoordMap(mapX, mapY)`. `Linking.LinkAlgo.RawParsify`, `Linking.NoEdgesNoSpread` and the promise of `Linking.LinkAlgo.Build` that a one-crossing code always fails all depend on this rebuild.
- Linking.LinkAlgo.Build: a used id with fewer than two records is a failure in the model. In the source, `getTreeEdgeVGE` reads the two records without a check, so this case is undefined behaviour, not an assertion.
- GraphViews.NegPos: requires `Readable`, which includes ErasePoint's check that 3 or 4 cells are forced open. The source makes that check only in `getPos`, so it would also list the negative cells of an ErasePoint with another count. No caller in the program lists the cells of an ErasePoint.
- PdCodes.PDCode.ToString, PdCodes.PDCode.GetCrossing, PdCodes.PDCode.CrossingString: the `sanityCheck` assertion of src/PDTreeAlgo/PDCode.h:46-49 (no crossings loaded) becomes `requires n != 0`; the failing assertion is not modelled as an outcome, and every caller in the model loads a code first.
- Coord2dSets.Coord2dSet.XRank, Coord2dSets.Coord2dSet.YRank, Coord2dSets.Coord2dSet.XkRank, Coord2dSets.Coord2dSet.YkRank: the `ASSERT`s of pd_code_to_diagram/cpp_src/PathEngine/Common/Coord2dSet.h:61, 67 and 72-81 (the coordinate is a member, k >= 1), which throw `runtime_error`, become `requires`; every caller in the model passes a member and k >= 1.
- IntegerSets.IntegerSet.Rank: the C `assert` of src/PathEngine/IntegerSet.h:30 (the value is a member) becomes a `requires`; every caller in the model passes a member.
- Dafny's `int` is unbounded. The 32-bit limits that change behaviour are modelled explicitly: `NumInput.IntMax` for the number reader, `Matrices.GetMaxStart` for the matrix maximum and `PdToDiagram.SeedBoundAsWritten` for the 2^32 wrap of the seed. Other arithmetic, such as the rank times k of `xkRank` (Coord2dSet.h:75) and the coordinate offsets of the engines, is not wrapped; with the sizes a PD code produces it stays far below 2^31.
- Link components are not checked against the source's `check(n, c)` count. That count belongs to the layout oracle above.

## Findings

| source | as written | input that shows it | evidently intended | confidence | as-written member | corrected member |
|---|---|---|---|---|---|---|
| src/PDCrossing.h:70-71 | the assertion reads `0 <= delta_dir && delta_dir > 4`, but `delta_dir` was just reduced modulo 4 into 0..3 | base = aim = East: the offset is 0 and the assertion fails; it fails for every pair of directions | `0 <= delta_dir && delta_dir < 4`, after which the socket id `crs[delta_dir]` is returned | high, not executed | PdCrossings.PDCrossing.GetSocketIdByDirectionAsWritten, PdCrossings.GuardAsWrittenNeverHolds | PdCrossings.PDCrossing.GetSocketIdByDirection |
| src/PDTreeAlgo/Coord2dPosition.h:84 | `dot` returns `(a.x * b.x, a.y * b.y)`, a comma expression that evaluates to the y product alone | a = b = (1, 0): dot gives 0, not 1 | the sum `a.x * b.x + a.y * b.y` | high, not executed | Coord2dPosition.DotAsWrittenDropsX | Coord2dPosition.DotOfSteps |
| src/PDTreeAlgo/PDCode.h:92 | `InputPdCode(std::istream&)` ignores its stream argument and reads `std::cin` | a stream holding one PD code while stdin holds another: the stdin code is loaded | read from the stream passed in | high, not executed | PdCodes.PDCode.InputPdCodeAsWritten, PdCodes.InputIgnoresStream | PdCodes.PDCode.InputPdCode |
| src/BorderDetect/IntMatrix2/IntMatrix2.h:82 | `getMax` starts from -2147482648, which is 1000 above INT_MIN | a 1 by 1 matrix holding -2147483000: the result is -2147482648, a value no cell holds | start from INT_MIN (or from the first cell) | medium, not executed | Matrices.IntMatrix2.GetMaxAsWritten, Matrices.GetMaxAsWrittenMissesLowCells | Matrices.IntMatrix2.GetMax, Matrices.GetMaxIsLargestCell |
| src/PathEngine/SpfaPathEngine.h:74-76 | `runAlgo` clears `dis` and `vis` but not `pre`, so a second run can back-track through entries of the first | an engine reused after a run that left a predecessor entry for the new start state: the back-tracking loop cycles | clear `pre` with the other maps | medium (the program builds a fresh engine per route), not executed | SpfaPath.SpfaPathEngine.RunAlgo, SpfaPath.StalePreNeverEnds | SpfaPath.SpfaPathEngine.RunAlgoCleared |
| src/PdToDiagram2d.h:81 | `unsigned seed = min_seed; seed <= min_seed + max_try` computes the bound in 32 bits, where it wraps | min_seed = 2^32 − 1 and max_try = 100: the bound wraps to 99, and no seed is tried | compare the number of tries made so far against max_try | medium, not executed | PdToDiagram.ConvertAsWritten, PdToDiagram.WrappedBoundSkipsEverySeed | PdToDiagram.Convert, PdToDiagram.ConvertTriesEverySeed |

# Tangram puzzle solver: Dancing Links model

This project models the exact-cover core of the Tangram/polyomino puzzle solver in `main.js`, and proves properties of the model.

The solver works in four stages:
- It poses the tiling of a `w × h` grid by the chosen pieces as an exact-cover problem. There is one column per grid cell `"y,x"` and one per piece instance `"B_i"`.
- It adds one candidate row for every translation of every orientation of every piece instance.
- It builds Knuth's Dancing Links matrix from that: a header ring of column nodes, one vertical ring per column and one horizontal ring per row.
- It runs Algorithm X over the matrix. The search picks the live column with the fewest rows, covers it, tries its rows in shuffled order and backtracks by uncovering. It stops at the first solution, or when a time budget runs out.

## Modules

| module | content |
|---|---|
| `Links` (`links.dfy`) | circular doubly-linked rings over integer node indices; the two splice operations `Unlink` and `Relink` |
| `Matrix` (`matrix.dfy`) | the matrix as values: the link fields (`Arena`), the row structure (`Layout`) and the invariant `Valid` that every solver state keeps; covering as a header unlink followed by a trace of vertical unlinks |
| `Covering` (`covering.dfy`) | cover and uncover on values: cover keeps `Valid`, and uncover undoes cover exactly |
| `Exact` (`exact.dfy`) | exact covers; the state after a sequence of covers (`Next`, `CoverAll`) |
| `Building` (`build.dfy`) | the matrix the constructor makes and the effect of inserting a row, both on values, each shown to be `Valid` |
| `Solver` (`dlx.dfy`) | the `DancingLinks` class |
| `Catalog` (`catalog.dfy`) | the `BLOCKS` orientation table and the `blockSizes` table |
| `Placements` (`placements.dfy`) | `getAllPlacements` |
| `Tiling` (`tiling.dfy`) | the column names and the candidate placements of `startSolving` |
| `Grid` (`grid.dfy`) | `computeGridDimensions` |
| `Shuffling` (`shuffle.dfy`) | the Fisher–Yates `shuffle` |
| `Puzzle` (`puzzle.dfy`) | the solving part of `startSolving`, and what a solution means for the grid |

### The `DancingLinks` class

The `DancingLinks` class keeps the node fields of the source as sequences indexed by node number: `left`, `right`, `up`, `down`, `column` and `size`.
- Node 0 is the header. Its `column` is `NoColumn` (-1), standing for `null`.
- Nodes 1..ncols are the column nodes.
- Data nodes follow, in creation order.

Every method of the class assigns these fields as the corresponding source code assigns the node fields. Some steps write to local copies of the sequences and store them back afterwards (see "## Left out").
- `cover`, `uncover`, the column choice, the row collection and the walks along one row in `search` follow the source's `while` loops around the rings. Each nesting level of `cover` and `uncover` is its own method (`CoverSteps` and `UnlinkRow`, `UncoverSteps` and `RelinkRow`).
- `LookUps` loops over the placement's cells, and `LinkNodes` over the positions of the new row.
- `AppendNode` has no loop.

Three ghost fields hold the abstraction used in the proofs:
- `lay`: the rows as built;
- `live`: the header ring, in order;
- `vert`: each column's vertical ring, in order.

The main results are:
1. **Cover and uncover.** `cover(c)` from a valid state leaves a valid state. In that state `c` is gone from the header ring, and the other nodes of `c`'s rows are gone from their columns. `uncover(c)` right after restores every link field and every size (`Covering.UncoverRestores`, `Solver.DancingLinks.Cover`, `Solver.DancingLinks.Uncover`).
2. **The search.** When `search` returns, by dead end, timeout or success:
   - the matrix is exactly as it was at entry;
   - at most one solution was pushed;
   - a pushed solution is an exact cover that extends the rows chosen so far;
   - once `found` is set, no later call with a live column pushes anything (`Solver.DancingLinks.Search`).
3. **`startSolving`.** A solution picks candidate placements. Together they occupy every grid cell exactly once, and they use every piece instance exactly once (`Puzzle.StartSolving`, `Puzzle.TilesCells`).

## Model

| member | source | states |
|---|---|---|
| Shuffling.Shuffle | main.js:215-220 | the array after the in-place swap loop is a permutation of the array before |
| Shuffling.Shuffled | main.js:314-315 | the row list `search` shuffles is a permutation of the rows collected |
| Grid.Root | main.js:232 | the last height the loop examines is the integer square root r of the area: r² ≤ area < (r+1)² |
| Grid.ComputeGridDimensions | main.js:227-245 | the loop's result is `Dimensions(totalArea)`; for a positive area, width·height = area and \|width−height\| is no larger than \|area/d−d\| for any divisor d; for an area ≤ 0 the loop does not run and the result is (1, area) |
| Grid.LowDivisorFound | main.js:232-233 | the loop meets a divisor above 1 exactly when the area is composite |
| Grid.ScanLowDivisor | main.js:232-241 | the loop ends holding the largest divisor d ≤ √area as the height, with width area/d, or the initial (1, area) when no such divisor above 1 exists |
| Grid.DimensionsProduct | main.js:227-245 | for a positive area the result multiplies back to the area |
| Grid.DimensionsMostSquare | main.js:227-245 | for a positive area no factorisation is more square than the result |
| Grid.DimensionsShape | main.js:227-245 | for a composite area the result is h ≤ w with h the largest divisor not above √area; otherwise it stays (1, area) |
| Grid.DimensionsPrime | main.js:228-229 | for a prime area the result stays the initial (1, area) |
| Catalog.CatalogConsistent | main.js:42-123 | every block kind has at least one orientation, and each orientation is a rectangular 0/1 matrix with exactly `blockSizes[b]` cells set |
| Catalog.TotalArea | main.js:457-460 | `totalBlockArea` is non-negative when every count is |
| Catalog.TotalAreaAddPiece | main.js:457-460 | one more piece of kind b adds exactly `blockSizes[b]` to `totalBlockArea` |
| Placements.GetAllPlacements | main.js:654-678 | the nested anchor loops produce `AllPlacements(shape, gw, gh)`, anchor rows top to bottom, each left to right |
| Placements.ShapeCellsAt | main.js:666-673 | the inner cell loops produce the shape's set cells, offset by the anchor, in row-major order |
| Placements.NoShapeNoPlacements | main.js:655-658 | an empty shape has no placements |
| Placements.PlacementsCount | main.js:664-676 | there are max(0, gh−H+1)·max(0, gw−W+1) placements, and each is the shape placed at an anchor (y, x) with 0 ≤ y ≤ gh−H and 0 ≤ x ≤ gw−W, and conversely |
| Placements.CellsAtMembers | main.js:667-673 | a cell is in the placement at (y, x) iff it is (y+i, x+j) for a set entry (i, j) of the shape |
| Placements.PlacementsInside | main.js:664-673 | every cell of every placement lies in [0, gh) × [0, gw) |
| Placements.CellsAtAscending | main.js:667-673 | a placement's cells are listed in strictly ascending row-major order, hence without repetition |
| Placements.PlacementCells | main.js:664-674 | for a rectangular shape every placement has exactly the shape's number of set cells, all distinct and inside the grid |
| Tiling.BuildColumns | main.js:702-712 | the column list is `ColumnNames(w, h, counts)`: the grid cells in row-major order, then the instances of each kind in `Blocks` order |
| Tiling.CellNamesCount | main.js:703-707 | there are h·w cell columns |
| Tiling.CellNamesMembers | main.js:703-707 | the cell columns are exactly the cells (y, x) with 0 ≤ y < h and 0 ≤ x < w |
| Tiling.InstanceNamesMembers | main.js:708-712 | the instance columns are exactly `b_i` with 0 ≤ i < count(b) |
| Tiling.ColumnNamesOf | main.js:702-712 | the column names are pairwise distinct and are exactly the grid cells and the piece instances |
| Tiling.EnumeratePlacements | main.js:716-726 | the placement loop produces `Candidates(counts, …)`, in the order kind, instance, orientation, anchor |
| Tiling.PushInstances | main.js:718-725 | the instance loop of one kind appends the placements of its instances 0..count−1 |
| Tiling.PushShapes | main.js:719-724 | one instance appends the placements of every orientation of its kind, in catalogue order |
| Tiling.PushOrientation | main.js:720-723 | one orientation appends its placements, each tagged with the kind and instance |
| Tiling.PushTagged | main.js:721-723 | the push loop appends the placements in order, each tagged with the kind and instance |
| Tiling.CandidatesMembers | main.js:716-726 | a placement is a candidate iff its kind is requested, its instance index is below the kind's count, and its cells are a placement of one of the kind's orientations |
| Tiling.RowNamesMembers | main.js:731-743 | the names a row looks up are exactly its cells and its own instance |
| Tiling.CandidateRow | main.js:729-752 | a candidate's row has `blockSizes` cells plus its instance, names no column twice, and names only existing columns |
| Links.UnlinkFrame | main.js:373-374 | unlinking x sets its predecessor's `next` to x's successor and its successor's `prev` to x's predecessor; every other `next` and `prev`, and x's own two fields, keep their values |
| Links.NeighbourSpliceMoves | main.js:373-374 | a node already unlinked can still have a field rewritten when a neighbour is unlinked after it (ring 0, 1, 2: unlinking 1 then 2 moves the `prev` of 2 from 1 to 0) |
| Links.RelinkUndoesUnlink | main.js:391-392 | when x's neighbours point back at x, relinking x after unlinking it restores both link sequences exactly |
| Links.CycleRemove | main.js:366-367 | unlinking a node other than the first from a ring leaves a ring of the other nodes, in order |
| Links.RingWalk | main.js:309-312 | following `next` from a ring's first node visits the ring's nodes in order and returns to the first node; `prev` visits them in reverse |
| Links.CycleRotate | main.js:321-324 | a ring read from any of its nodes is again a ring |
| Covering.TraceNodes | main.js:369-379 | the nodes cover unlinks from their columns are distinct; they are exactly the nodes other than i of the rows i in c's ring |
| Covering.UnlinkPrefix | main.js:371-377 | each unlink of the trace finds its node properly linked; afterwards every column ring holds its old nodes minus those unlinked, in order, with `size` equal to its length |
| Covering.CoverParts | main.js:365-380 | covering unlinks c from the header ring with the horizontal links and columns of the rows untouched; the column rings lose exactly the trace |
| Covering.CoveredColumnKept | main.js:369-379 | c's own vertical ring is not changed by covering c |
| Covering.IntegrityAfterCover | main.js:365-380 | after cover(c), every row still reachable from a live column is whole and lies in live columns |
| Covering.UnlinkedStays | main.js:371-377 | once the k-th node of the trace is unlinked, the later splices of cover leave its `up` and `down` as they were |
| Covering.RemovedKeepsFields | main.js:371-377 | after the whole trace is unlinked, each of its nodes has the `up` and `down` it had at its own unlink, when it was properly linked |
| Covering.CoverKeepsRemoved | main.js:365-380 | cover(c) from a valid state never writes the `up` or `down` of a node it removes: each keeps the neighbours it was properly linked between at its turn, which are the ones uncover splices it back between |
| Covering.CoverSound | main.js:365-380 | cover(c) from a valid state meets a properly linked node at every splice and leaves a valid state with c dropped from the header ring and the trace dropped from the column rings |
| Covering.RelinkUndoesUnlinkAll | main.js:385-396 | relinking the trace in reverse order undoes the sequence of proper unlinks, size updates included |
| Covering.UncoverRestores | main.js:365-400 | uncover(c) right after cover(c) restores every link field and every size |
| Covering.CoverStep | main.js:372-376 | step n of cover's inner loop unlinks the n-th trace node, which is linkable at that point |
| Covering.UncoverStep | main.js:389-394 | step n of uncover's inner loop relinks trace node n−1, undoing the matching unlink |
| Exact.ExactCoverUnique | main.js:281-284 | in an exact cover every column lies in the row of exactly one chosen node |
| Exact.PartialDone | main.js:281-284 | when the header ring is empty, the rows chosen so far form an exact cover |
| Exact.PartialExtend | main.js:319-325 | choosing a row whose columns are all live, and covering them, keeps "the chosen rows cover exactly the columns no longer live, without overlap" |
| Exact.CoverAllGood | main.js:321-325 | covering distinct live columns one after another keeps the matrix valid and drops exactly those columns from the header ring |
| Exact.NextFacts | main.js:303 | covering a live column leaves a valid state, with the column dropped from the header ring and its own ring kept |
| Exact.KeepShorter | main.js:303 | covering a live column shortens the header ring, so the recursion terminates |
| Exact.HeaderWalk | main.js:290-297 | walking `right` from the header visits the live columns in order and returns to the header |
| Exact.OthersColumnsLive | main.js:321-325 | when a chosen row's columns are live, the columns of its other nodes, in `right` order, are distinct, all live, all different from the chosen node's column, and are exactly that row's other columns |
| Building.InitialValid | main.js:252-270 | the constructor's matrix is valid, with every column in the header ring, in order, and every column empty |
| Building.AppendAllFacts | main.js:731-752 | hanging a row's nodes at the bottom of distinct columns keeps every column ring whole, with the new node last and `size` incremented |
| Building.LinkRowFacts | main.js:753-756 | after the `nodesInRow` loop, node i's `right` is node i+1 and its `left` is node i−1, wrapping around; older nodes are untouched |
| Building.AddRowFacts | main.js:729-757 | inserting a row makes its nodes a horizontal ring and puts each one last in its column's ring, with that column's `size` one larger |
| Building.AddRowValid | main.js:729-757 | inserting a row over distinct live columns keeps the matrix valid |
| Solver.NameMapFacts | main.js:260-262 | `this.columns` has a key for exactly the names given; with distinct names, name k maps to column node k+1 |
| Solver.NameMapIndexed | main.js:260-262 | distinct names map to distinct live column nodes |
| Solver.FoundMembers | main.js:731-744 | the columns a row's lookups find are exactly the mapped columns of its names |
| Solver.FoundFacts | main.js:731-744 | with distinct names, a row's lookups find distinct live columns |
| Solver.FoundAll | main.js:731-744 | when every name has a column, the lookups find one column per name, in order |
| Solver.ThreadColumns | main.js:260-269 | the constructor's loop builds the initial matrix: the header and column nodes 1..n in one ring, in order; 0 sizes and self links elsewhere |
| Solver.DancingLinks.constructor | main.js:252-270 | the matrix is the initial one for the names, valid, with every column live and empty; `found` is false |
| Solver.DancingLinks.AppendNode | main.js:734-740 | a new data node is hung at the bottom of column c: the new state is `AppendToColumn` of the old |
| Solver.DancingLinks.LookUp | main.js:732-733 | a name with a column gets a new node in that column; a name without one is skipped |
| Solver.DancingLinks.LookUps | main.js:731-752 | one node is appended per found column of the row, cells first and the instance last |
| Solver.DancingLinks.LinkNodes | main.js:753-756 | the row's new nodes are linked into a horizontal ring in insertion order |
| Solver.DancingLinks.InsertRow | main.js:729-757 | inserting a placement appends its found columns' nodes and links them into a row; for a row with distinct names the matrix stays valid |
| Solver.GoodAddRow | main.js:729-757 | a row over distinct live columns, inserted into a valid state, leaves a valid state |
| Solver.DancingLinks.Cover | main.js:365-380 | cover(c) of a live column makes the state `Next(c)`: valid, c out of the header ring, c's own ring kept |
| Solver.DancingLinks.CoverSteps | main.js:369-379 | cover's nested loops unlink exactly the trace of c's ring, in order |
| Solver.DancingLinks.UnlinkRow | main.js:371-377 | the inner loop of cover unlinks the other nodes of one row, in `right` order, each from its column with `size` decremented |
| Solver.DancingLinks.Uncover | main.js:385-400 | uncover(c) right after cover(c) gives back exactly the state before cover |
| Solver.DancingLinks.UncoverSteps | main.js:386-399 | uncover's nested loops relink the trace in reverse order, then c into the header ring |
| Solver.DancingLinks.RelinkHeader | main.js:398-399 | c is spliced back between its old neighbours in the header ring |
| Solver.DancingLinks.RelinkRow | main.js:388-394 | the inner loop of uncover relinks the other nodes of one row, in `left` order, each with `size` incremented |
| Solver.DancingLinks.ChooseColumn | main.js:287-301 | the result is null iff no column is live; otherwise it is the first live column in header order whose `size` is ≤ every live column's `size` |
| Solver.DancingLinks.CollectRows | main.js:305-312 | the rows collected are c's vertical ring, top to bottom |
| Solver.DancingLinks.CoverOthers | main.js:321-325 | walking `right` from the chosen row covers the column of each other node, in that order |
| Solver.DancingLinks.CoverNext | main.js:322-324 | one step of that walk covers the next column and moves to the next node |
| Solver.DancingLinks.UncoverOthers | main.js:331-335 | walking `left` from the chosen row uncovers the same columns in reverse order, restoring the state before `CoverOthers` |
| Solver.DancingLinks.UncoverNext | main.js:332-334 | one step of that walk uncovers the last covered column and moves to the previous node |
| Solver.DescendReady | main.js:318-327 | a row of the chosen column covers only live columns; covering them keeps the state valid; the extended solution covers exactly the columns no longer live |
| Solver.DancingLinks.TryRows | main.js:317-336 | the row loop stops at the first success; each solution it pushes is an exact cover extending the current rows; the matrix is as before the loop |
| Solver.DancingLinks.TryRow | main.js:318-335 | one row is tried and backtracked: the matrix is restored, and `found` is set iff a solution was pushed |
| Solver.DancingLinks.Search | main.js:272-339 | on every return path the matrix is restored; at most one solution is pushed, and it is an exact cover extending `solution`; `found` records whether one was pushed; once `found` is set, calls with a live column push nothing |
| Puzzle.BuiltStep | main.js:729-757 | after inserting placement i, matrix row i's nodes lie, in ring order, in the columns of that placement's names |
| Puzzle.StartSolving | main.js:702-761 | the candidate order is a permutation of all placements; at most one solution is returned, and `found` says whether one was; a returned solution is an exact cover whose placements tile the grid |
| Puzzle.ExactTiling | main.js:702-757 | an exact cover of the built matrix picks candidates that cover every column name exactly once |
| Puzzle.NameCovered | main.js:702-757 | each grid cell and each piece instance is named by exactly one chosen placement |
| Puzzle.TilesCells | main.js:702-757 | in a tiling every grid cell lies in exactly one chosen placement, and every requested instance is used by exactly one |
| Puzzle.CellCovered | main.js:702-707 | the placement covering a given grid cell exists and is unique |
| Puzzle.InstanceUsed | main.js:708-712 | the placement using a given piece instance exists and is unique |

## Left out

- Rendering and UI are not modelled: SVG and canvas drawing, `displaySolution(s)`, summaries, modals, event listeners, and the cell-size and canvas-size computation in `startSolving`. None of these affect the solver.
- Form reads are not modelled. The piece counts reach `Puzzle.StartSolving` as a parameter in `Blocks` order, which is the key order of `blockCounts`.
- The time budget and `performance.now()` are not modelled. The timeout test in `search` is a nondeterministic boolean, so every proved property holds whichever way it goes. The clock's start in the constructor and `maxTimeMs` are not modelled either.
- `Math.random` is not modelled. Each swap partner in `Shuffling.Shuffle` is any index in 0..i, so the permutation property is proved for every draw.
- Shuffling.Shuffle: only the permutation property is stated; the uniformity of Fisher–Yates is probabilistic.
- Column names are a datatype, not strings. The `"y,x"` and `"B_i"` names and the regex decoding of them when a solution is displayed are not modelled: `Tiling.Name` has one constructor per kind of name.
- `console.warn` and `console.error` are not modelled; they are logging only.
- Object references are node numbers. The header's `null` column is `NoColumn` (-1).
- The `size` field is kept for every node. In the source only column nodes have one; in the model it stays 0 for the header and the data nodes, and no code reads it there.
- No `name` field is kept on column nodes; nothing in the solver reads it.
- `solutions.push([...solution])` and `solution.push`/`pop` are modelled by value. The search receives the rows chosen so far as a sequence, and returns the extended solutions list. The copy the source pushes is therefore implicit.
- `search`'s depth argument `k` is passed along and never read, as in the source.
- Several steps update local copies of the field sequences, which are then written back in one assignment. These are the `nodesInRow.forEach` link loop (`Solver.DancingLinks.LinkNodes`), the sizes and vertical links of `AppendNode`, the row walks of cover and uncover (`Solver.DancingLinks.UnlinkRow`, `Solver.DancingLinks.RelinkRow`) and the constructor's loop (`Solver.ThreadColumns`). The order of the individual field writes inside one step is as in the source.
- `Grid.ComputeGridDimensions`: the floating-point `Math.sqrt` bound is modelled as the exact integer condition h·h ≤ area. For areas below 2^52, where the square root is correctly rounded, this is the same set of heights.
- Solver.DancingLinks.Search: completeness is not stated; a timeout can stop the search at any point, so "a solution exists ⇒ one is found" does not hold of the source either.
- Solver.DancingLinks.Uncover: only specified when it undoes the latest cover (`Now() == Next(s0, c)`), which is the only way `search` calls it.
- Solver.DancingLinks.InsertRow: validity of the result is stated for rows whose names are distinct, which every candidate row is (`Tiling.CandidateRow`); the link updates themselves are stated for every row.
- Puzzle.StartSolving: the model does not state that no solution is found when the requested area differs from the grid area; what it states is that every solution found is a tiling.
- The `totalBlockArea === 0` guard and the grid-size choice before `startSolving` (main.js lines 462 onward) are outside the solver. Only `computeGridDimensions` and `totalBlockArea` itself are modelled. `Catalog.TotalArea` therefore stands alone: no lemma ties it to the grid area of a tiling.

# Grid-maze search (maze.py), modelled in Dafny

maze.py reads a maze from text ('A' start, 'B' goal, ' ' open, anything else
wall) and searches it with a frontier against an explored set, then rebuilds
the path by following parent links. This project models:

- the frontier containers (StackFrontier, QueueFrontier),
- the parser of Maze.__init__,
- the neighbour generator,
- the search loop of Maze.solves,
- the per-cell decision of Maze.print and Maze.output_image.

It then proves what each promises.

Modules:

- `Basics` (basics.dfy): coordinates, actions, moves, the error type, list reversal.
- `MazeText` (text.dfy):
  - `str.count` and `str.splitlines`, including every Python line boundary and "\r\n" as one unit;
  - the grid datatype and its invariant;
  - the parser `Parse`, a nested loop as in the source.
- `Frontiers` (frontier.dfy): search nodes and the `Frontier` class. One class has a `policy` constant: `Stack` is StackFrontier and `Queue` is QueueFrontier.
- `Neighborhood` (neighbors.dfy):
  - the neighbour generator, with two lookups: `PythonIndex` is the source exactly, where a negative index counts from the end; `BoundsChecked` is the intended one;
  - its subsequence, order, unit-step and admission properties.
- `SearchTheory` (theory.dfy): paths, reachability, parent links, the search invariant and the lemmas that keep it, and the facts that bounds-checked reachability stays inside the grid.
- `SearchEngine` (search.dfy):
  - the search as imperative code over a `Frontier` object and the parent walk;
  - the `Maze` class holding the grid and the attributes `solution`, `explored` and `num_explored`.
- `WrapAround` (findings.dfy): the negative-index finding, as written and corrected.
- `Display` (display.dfy): the cell classification of `print` and `output_image`, the text `print` writes for the grid rows, and the round trip from that text back through the parser.

Modelling choices:

- Python's parent *references* become indices into an arena: the sequence of nodes the search has explored, in order.
- A node's `parent` is the arena index of its parent.
- The exceptions become `Failure(...)` values of `Result`.
- The file read is a parameter: `Parse` and `Maze.FromText` take the file contents as a string.

Three points of the code's behaviour shape the model:

- States are unbounded integer pairs, not non-negative ones. The lookup at maze.py:113-117 catches only IndexError, so a target row anywhere in [-height, -1] and a target column anywhere in [-width, -1] are read as rows and columns counted from the far edge (see Findings).
- `solves` always uses a stack (maze.py:128). `Maze.Solves` does the same, and `SearchEngine.Search` exposes the policy as a parameter.
- `show_explored` has no effect unless a solution exists (maze.py:202).

## Model

| member | source | states |
|---|---|---|
| Basics.Reverse | maze.py:155-156 | `list.reverse()`: same length, element i is element len-1-i of the input |
| Basics.ReverseSnoc | maze.py:151-156 | reversing after an append puts the appended element first |
| MazeText.IsLineBreak | maze.py:55 | the characters on which str.splitlines ends a line: \n, \r, \v, \f, \x1c, \x1d, \x1e, \x85, \u2028, \u2029 (no ensures; used by LineEnd and SplitLines) |
| MazeText.NextLineStart | maze.py:55 | the next line starts one character after the line's end, or two when the break is "\r\n"; every character skipped is a line break |
| MazeText.LineEnd | maze.py:55 | the first line ends at the first line-break character, or at the end of the text |
| MazeText.SplitLines | maze.py:55 | no returned line holds a line break; no lines exactly for empty text |
| MazeText.SplitLinesKeepsText | maze.py:55 | the concatenated lines are the text with only its line-break characters removed |
| MazeText.SplitLinesKeepsCount | maze.py:49-55 | a marker's count over the lines equals its count in the raw text, so checking before splitting is sound |
| MazeText.UniqueMarker | maze.py:60-70 | a character counted once over the lines sits at exactly one position |
| MazeText.MarkerOnce | maze.py:49-55 | a marker counted once in the raw text sits at exactly one position of its lines |
| MazeText.Count | maze.py:49-52 | `str.count` of one character: at most the length, and zero exactly when the character is absent |
| MazeText.IsWallChar | maze.py:64-76 | a wall cell exists in its line and holds neither 'A' nor 'B'; an existing cell that is not a wall holds 'A', 'B' or a space |
| MazeText.MaxLength | maze.py:57 | the width bounds every line's length and is attained by some line |
| MazeText.ParsedGrid | maze.py:60-77 | the walls the loop built, with the marker positions, form a valid grid parsed from the lines |
| MazeText.MarkerRow | maze.py:65-70 | a row reporting a marker column reports the one marker position; a row without one lies elsewhere |
| MazeText.ParseRow | maze.py:62-77 | the row has width cells: a wall exactly where the line has a character other than 'A', 'B' or ' '; missing columns are open; the reported marker columns hold the markers |
| MazeText.ParseRows | maze.py:60-77 | height rows of width cells, walls as above; start and goal are the positions of 'A' and 'B' |
| MazeText.Parse | maze.py:49-79 | fails with BadStartCount iff 'A' does not occur exactly once, else with BadGoalCount iff 'B' does not; otherwise gives height = line count, width = longest line, walls as in ParseRow, start and goal the unique 'A' and 'B', both open and distinct |
| Frontiers.StatesOf | maze.py:17-18 | (definition: the set of the nodes' states, which any(...) at maze.py:18 ranges over; its ensures only unfold the comprehension, for triggering; its meaning is used in Frontier.ContainsState, RemoveTakesOne and StatesOfAppend) |
| Frontiers.HasState | maze.py:17-18 | `any(node.state == state ...)` holds iff some node has that state |
| Frontiers.Frontier.constructor | maze.py:11-12 | a new frontier is empty |
| Frontiers.Frontier.Add | maze.py:14-15 | appends the node at the end; nothing else changes |
| Frontiers.Frontier.ContainsState | maze.py:17-18 | true iff some node in the frontier has the state |
| Frontiers.Frontier.IsEmpty | maze.py:20-21 | true iff the frontier has no nodes, iff it contains no state |
| Frontiers.Frontier.Remove | maze.py:23-39 | empty: EmptyFrontier and no change; stack: the last node, leaving the prefix in order; queue: the first node, leaving the rest in order |
| Frontiers.Taken | maze.py:23-39 | the node remove() takes from a non-empty frontier: the last for a stack, the first for a queue (no ensures; the per-policy ensures of Remove and Pop name the same node, and Step is stated through it) |
| Frontiers.Remaining | maze.py:23-39 | the nodes remove() leaves: all but the last for a stack, all but the first for a queue (no ensures; the per-policy ensures of Remove and Pop name the same nodes, and Step is stated through it) |
| Frontiers.RemoveTakesOne | maze.py:23-39 | either policy removes exactly one node, the popped one; with distinct states exactly its state leaves |
| Frontiers.StatesOfAppend | maze.py:14-15 | adding a node adds exactly its state to the frontier's states |
| Basics.Apply | maze.py:104-107 | each candidate target is one unit step from the state; up and down keep the column, left and right keep the row; up and left decrease a coordinate |
| Neighborhood.Lookup | maze.py:114-117 | `self.walls[r][c]` succeeds exactly when -len <= r < len for the rows and likewise for the column in that row, and then reads walls[r mod h][c mod len]; otherwise IndexError (None) |
| Neighborhood.Admits | maze.py:113-117 | as written, a target is kept exactly when the lookup succeeds and reads an open cell; with bounds checking exactly when it is in the grid and open |
| Neighborhood.Candidates | maze.py:103-108 | four candidates, up, down, left, right in that order, each the unit step of its action |
| Neighborhood.Keep | maze.py:111-118 | the filter of the loop: never longer than its input, and keeps only candidates the lookup admits |
| Neighborhood.ValidMoves | maze.py:99-118 | at most four moves, each the unit step of its action to an admitted target |
| Neighborhood.PyIndex | maze.py:114 | Python list indexing: defined iff -len <= n < len, and then it is n mod len |
| Neighborhood.Neighbors | maze.py:99-118 | the loop returns exactly the candidate moves whose lookup is open, in the order tried |
| Neighborhood.KeepMembers | maze.py:112-117 | a move is kept iff it is a candidate and its lookup admits it |
| Neighborhood.KeepInOrder | maze.py:112-117 | filtering keeps the try order |
| Neighborhood.KeepLength | maze.py:112-117 | filtering never lengthens the list |
| Neighborhood.NeighborsSpec | maze.py:99-118 | a move is returned iff it is one of up/down/left/right and its lookup is open; each is a unit step in the named direction; they come in the order up, down, left, right; at most four |
| Neighborhood.AdmittedTargets | maze.py:113-117 | an admitted target lies in [-h,h) x [-w,w), never at row >= height or column >= width; with bounds checking it is an open cell of the grid |
| Neighborhood.LookupInGrid | maze.py:114 | inside the grid the lookup reads walls[r][c] |
| Neighborhood.LookupWraps | maze.py:114 | inside the box the lookup reads walls[r mod h][c mod w] |
| SearchTheory.PathPrepend | maze.py:151-156 | a step from the parent followed by a path is a path from the parent |
| SearchTheory.PathAppend | maze.py:164-167 | a path followed by a neighbour move is a path ending at its target |
| SearchTheory.ClosedHoldsPrefix | maze.py:135-167 | every cell of a path from start lies in a closed set holding start |
| SearchTheory.ClosedHoldsReachable | maze.py:135-167 | a closed set holding start holds every reachable state |
| SearchTheory.LinkedGrow | maze.py:166 | a parent link stays valid as the arena grows |
| SearchTheory.ArenaGrow | maze.py:161 | appending a linked node keeps every arena node linked to an earlier one |
| SearchTheory.ChainReachable | maze.py:151-154 | following parent links from any explored node ends at start, so its state is reachable |
| SearchTheory.ArenaReachable | maze.py:161 | every explored state is reachable from start |
| SearchTheory.BoxMembers | maze.py:114 | the state box is exactly the coordinates in [-h,h) x [-w,w) |
| SearchTheory.RemainderShrinks | maze.py:135-167 | seeing a new state shrinks the set of unseen box states |
| SearchTheory.InitInv | maze.py:124-132 | the initial frontier (root at start), empty explored set and zero count satisfy the search invariant |
| SearchTheory.PopCounts | maze.py:142-161 | after a pop and explore, start is explored, the count matches the explored set, and the seen states are unchanged |
| SearchTheory.PopFrontier | maze.py:142-161 | the nodes left in the frontier stay linked, unexplored and distinct once the popped node is explored |
| SearchTheory.PopClosed | maze.py:161 | moves out of explored states still land in explored or frontier states |
| SearchTheory.ChildrenInv | maze.py:160-167 | after the children are pushed, the search invariant holds again |
| SearchTheory.PushChild | maze.py:165-167 | pushing an unseen neighbour keeps the frontier invariant and adds exactly its state |
| SearchTheory.NoSolutionCorrect | maze.py:138-139 | an empty frontier means the explored set is exactly the reachable states and the goal is unreachable |
| SearchTheory.SolvedCorrect | maze.py:146-158 | the goal popped with a valid path is a correct success with the goal counted |
| SearchTheory.Progress | maze.py:135-167 | the loop measure (unseen box states, then frontier length) goes down |
| SearchTheory.ExploreProgress | maze.py:160-167 | exploring a node decreases the measure |
| SearchEngine.Search | maze.py:120-167 | terminates; fails only with NoSolution and exactly when the goal is unreachable; on failure num_explored = the size of explored, which is exactly the reachable set; on success the path is valid from start (unit steps, equal lengths, ends at the goal, start excluded) and num_explored = explored size + 1; explored states are reachable and in the box, the goal never among them |
| SearchEngine.Step | maze.py:135-167 | an empty frontier ends with NoSolution and the counts unchanged; otherwise the node remove() takes is counted; if it is the goal the pass ends with a correct success that counts it; if not, the pass appends it to the arena, adds its state to explored (which only grows), and leaves the frontier that expanding it gives; in every case a correct result, or the invariant kept with the measure decreased |
| SearchEngine.Pop | maze.py:142 | on a stack the last node leaves and the rest keep their order; on a queue the first does; exactly the popped state leaves the frontier's states |
| SearchEngine.Finish | maze.py:146-158 | at the goal, returns a correct success counting the goal |
| SearchEngine.Explore | maze.py:160-167 | explored gains exactly the node's state, the arena gains the node, and the frontier becomes Grow of the remaining nodes over neighbors(node) under the new arena entry; the invariant holds and the measure decreases |
| SearchEngine.AddChildren | maze.py:164-167 | the loop leaves exactly the frontier Grow describes: the old nodes followed by the children pushed move by move |
| SearchTheory.Grow | maze.py:164-167 | the frontier after the inner loop: a move's child is appended when its target is neither in the frontier at that point nor explored (no ensures; its meaning is proved in GrowPrefix, GrowCovers, GrowOrder and GrowKeepsInv) |
| SearchTheory.GrowStep | maze.py:165-167 | one more move pushes its child exactly when its target is neither in the frontier at that point nor explored |
| SearchTheory.GrowPrefix | maze.py:164-167 | the old frontier stays a prefix; every appended node is the child, under the expanded node, of one of the moves, with a target neither explored nor in the old frontier |
| SearchTheory.GrowOrder | maze.py:164-167 | with moves in try order the children are appended in try order |
| SearchTheory.GrowCovers | maze.py:164-167 | with distinct targets, every move whose target is neither explored nor in the old frontier has its child appended |
| SearchTheory.GrowKeepsInv | maze.py:164-167 | pushing keeps the frontier linked, unexplored and duplicate-free; every move's target ends explored or in the frontier; states only grow, and stay equal only if nothing was pushed |
| SearchTheory.ValidMovesDistinct | maze.py:103-118 | the moves neighbors() returns have pairwise distinct targets |
| SearchTheory.ExpansionChildren | maze.py:161-167 | one expansion appends, in the order up, down, left, right, exactly the children of the returned moves whose targets are neither explored nor in the frontier, leaving the old nodes in front |
| SearchTheory.DistinctAppend | maze.py:165-167 | appending a node with a new state keeps the frontier's states distinct |
| SearchEngine.Backtrack | maze.py:147-156 | the parent walk, reversed, is a valid solution from start to goal |
| SearchEngine.Maze.constructor | maze.py:79 | a new maze has the parsed grid and no solution |
| SearchEngine.Maze.FromText | maze.py:44-79 | parse failures as in Parse; on success a fresh maze with the parsed grid and no solution |
| SearchEngine.Maze.Solves | maze.py:120-167 | a correct result under Python indexing, the same promise for either policy (the stack of maze.py:128 is fixed in the body, not in the contract); on success `solution` is set to it; on failure it is kept |
| WrapAround.WalledValid | maze.py:60-77 | the walled example is a valid grid |
| WrapAround.WalledSplit | maze.py:55 | the walled example's text splits into its three rows |
| WrapAround.WalledLines | maze.py:55 | "A#B\n###\n   " splits into "A#B", "###" and "   " |
| WrapAround.WalledCounts | maze.py:49-52 | the walled example's text holds one 'A' and one 'B', so both marker checks pass |
| WrapAround.WalledParsed | maze.py:55-77 | the walled example grid is the grid parsed from those three rows |
| WrapAround.LineEndAt | maze.py:55 | a line ends at the position of its first line break |
| WrapAround.UpFromTopRowWraps | maze.py:113-117 | up from row 0 is accepted, at a coordinate outside the grid |
| WrapAround.WrapReachesGoal | maze.py:113-117 | as written, the walled example's goal is reachable through row -1 |
| WrapAround.WalledUnsolvable | maze.py:113-117 | with bounds checking the walled example's goal is unreachable |
| SearchTheory.ReachableInGrid | maze.py:113-117 | with bounds checking every reachable state is an open cell of the grid |
| SearchTheory.PathInGrid | maze.py:146-157 | with bounds checking every solution cell is an open cell of the grid |
| Display.PrintCell | maze.py:84-95 | wall iff the cell is a wall; never explored; a solution cell only with a solution that holds it |
| Display.ImageCell | maze.py:182-207 | wall iff the cell is a wall; solution cells only with a solution, show_solution and the cell on it; explored cells only with a solution, show_explored and the cell explored |
| Display.PrintIsImage | maze.py:84-95 | print decides as output_image with the solution shown and explored hidden |
| Display.Precedence | maze.py:186-207 | wall > start > goal > solution > explored > empty, each category exactly when its test holds and no earlier one does |
| Display.NothingWithoutSolution | maze.py:198-202 | without a solution no solution or explored cell is shown, whatever the flags |
| Display.MarkersShown | maze.py:188-195 | on a parsed grid the start and goal cells always show as start and goal |
| Display.SolutionCellsShown | maze.py:198-199 | with bounds checking every solution cell is on the grid and, but for the goal, shown as a solution cell |
| Display.ExploredCellsShown | maze.py:202-203 | with bounds checking every explored state is on the grid and, off the path and not start, shown as explored |
| Display.Glyph | maze.py:87-95 | '█' exactly for walls, 'A' for start, 'B' for goal, '*' for solution cells; never a line break |
| Display.JoinLines | maze.py:84-96 | no text exactly for no rows; otherwise the text ends with the newline that closes the last row |
| Display.PrintedText | maze.py:83-96 | the printed text splits back into exactly the printed rows |
| Display.PrintRow | maze.py:84-95 | (definition: row i as print() writes it, one glyph per cell; its ensures only unfold the comprehension; what the printed text means is proved in PrintedText, MarkerPrinted, PrintedRowsParse and PrintThenParse) |
| Display.PrintedRows | maze.py:83-96 | (definition: the printed rows in order; its ensures only unfold the comprehension; what they mean is proved in PrintedText, MarkerPrinted, PrintedRowsParse and PrintThenParse) |
| Display.SplitJoin | maze.py:84-96 | rows printed one per line, each ended by a newline, split back into exactly those rows |
| Display.MarkerPrinted | maze.py:88-91 | without a solution, 'A' is printed once, at start, and 'B' once, at goal |
| Display.PrintedRowsParse | maze.py:53-79 | the rows printed for a parsed grid without a solution parse back to that grid: same height, width, walls, start and goal |
| Display.PrintThenParse | maze.py:53-79 | the printed text of a parsed grid without a solution passes both marker checks, splits into the printed rows, and parses back to the grid |
| Display.ParsedFromUnique | maze.py:62-79 | the lines determine the parsed grid: two grids parsed from the same lines are equal |

## Left out

- Reading the file (maze.py:45-46): `Parse` and `Maze.FromText` take the contents as a string.
- Console output of `print` is modelled as the text of its grid rows; the empty lines it writes before and after the grid are not modelled.
- All of the PIL work in `output_image`: the canvas, rectangles, RGB fills and `img.save`. Of `output_image` only the per-cell decision is modelled.
- The command-line script (maze.py:217-228).
- The text of the exception messages. The failures carry a `MazeError` instead.
- Node parent references: they are arena indices, so sharing and aliasing between node objects is not modelled.
- SearchEngine.Search: states that the path is valid and what was explored, but not which path the stack order picks or in what order states are explored.
- SearchEngine.Search: does not prove that the queue policy finds a shortest path. maze.py never uses the queue.
- Maze.Solves: the contract does not fix the stack's exploration order; it promises what holds for any policy (correctness under Python indexing), while the body passes the stack.
- Maze.Solves: models the search as written (Python indexing). The bounds-checked lookup is what the display lemmas about solution and explored cells assume.

## Findings

| source | as written | input that shows it | evidently intended | confidence | as-written member | corrected member |
|---|---|---|---|---|---|---|
| maze.py:113-117 | `self.walls[r][c]` in a try/except IndexError accepts any r in [-height, -1] and any c in [-width, -1], which Python reads as rows and columns counted from the far edge, so "up" from row 0 and "left" from column 0 lead onto cells outside the grid and on along them | "A#B\n###\n   ": start and goal are walled apart, yet the text parses to the walled grid, and the goal is reachable by up, right, right, down through row -1, so the search reports a solution | reject targets outside 0 <= r < height and 0 <= c < width, as the check in the original CS50 maze.py does | high; not executed | WrapAround.WrapReachesGoal | WrapAround.WalledUnsolvable |

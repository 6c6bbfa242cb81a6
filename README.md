# A* grid search (AStarMain / Node)

A model of the A* path search behind the Processing sketch `AStarMain`.
The grid has ROWS x COLS = 20 x 15 cells, and each cell is a `Node` with fixed coordinates and pixel position.
Each cell also carries a `blocked` flag, the scores `f`, `g` and `h`, and a back link `previous`.
The search state is an open list, a closed list and a solution path.
Each call of Processing's `draw()` advances the search by one step:

- it picks the first open node of least `f`;
- it moves that node to the closed list, and sets a finished flag if the node is the end;
- it relaxes every neighbour returned by `getNeighbors`;
- it rebuilds the solution by following back links from the picked node to the start.

The model has three modules:

- `Lists` (`lists.dfy`) covers the few `java.util.ArrayList` operations the search uses, as sequences. These are `remove(Object)`, the "append if not contained" pattern, and duplicate-freedom.
- `Nodes` (`node.dfy`) holds the `Node` class.
- `AStar` (`astar.dfy`) holds the `AStarMain` class. Its fields are the grid (a ROWS x COLS `array2`), the three lists, start, end, `diagonalMoveAllowed` and a `finished` flag.
  - The constructor plays the Java field initialisers and `setup()`.
  - `GetNeighbors`, `FirstLowestF`, `Close`, `Relax`, `RelaxAll`, `TracePath`, `TraceSolution`, `ExpandClosed`, `Expand` and `Step` are imperative methods that follow the Java statement by statement.

What is proved:

- The invariant `Valid()` holds after construction and is kept by every state-changing method. It states the following:
  - the grid holds one node per cell, with matching row and column;
  - start and end are the corners;
  - open and closed lists are duplicate-free and disjoint;
  - the start is the first node closed;
  - `finished` records whether the end has been closed;
  - every closed node other than the start links back to a node closed before it, and its `g` is that node's `g` plus the move;
  - every cell has `f == g + h`;
  - a cell never reached has zero scores and no back link;
  - the solution is empty or a back-link path of closed nodes to the start.
- `getNeighbors` returns exactly the non-closed cells of the clamped 3x3 block, less the diagonals when diagonal moves are off. They come in row-major order, at most nine, and none is repeated.
- The node picked by a step has the least `f`, and no node before it in the list has that least `f` (Stream.min keeps the earlier one).
- Relaxation appends the new neighbours in the order found, which is row-major order. It gives each new or improved neighbour its new `g`, `h`, `f = g + h` and a back link to the current node. It leaves every other node untouched.
- The solution walk terminates, because every back link leads to a node closed earlier. The solution starts at the current node and follows back links to the start without repeating a node. Its summed move cost is the current node's `g`, and it is `[start]` exactly when the current node has no back link.
- Open and closed lists together never hold more nodes than the grid has, and the grid has at most ROWS x COLS nodes.

## Model

| member | source | states |
|---|---|---|
| Nodes.Node.constructor | a-star-processing/src/ch/coredump/astar/Node.java:10-30 | a new node stores the given row, column and position; f, g and h are 0; previous is null; blocked is false (Java's default). Position fields are `const`, so nothing later writes them |
| AStar.FillRow | a-star-processing/src/ch/coredump/astar/AStarMain.java:44-47 | one pass of the inner setup loop puts in every column of the row a fresh pristine node with that row/column, centred in its pixel box; the other rows of the array are untouched |
| AStar.AStarMain.constructor | a-star-processing/src/ch/coredump/astar/AStarMain.java:43-55 | after setup every cell holds a fresh node with its own row/column and centred position; start = grid[0][0], end = grid[ROWS-1][COLS-1]; openSet == [start], closedSet and solution empty; diagonal moves allowed; all nodes pristine; the search invariant Valid holds |
| AStar.AStarMain.GetNeighbors | a-star-processing/src/ch/coredump/astar/AStarMain.java:62-80 | the nested scan returns exactly the list NeighborsOf describes: the cells of the clamped 3x3 block, in scan order, skipping closed cells and, when diagonal moves are off, the four diagonal offsets |
| AStar.AStarMain.NeighborsOf | a-star-processing/src/ch/coredump/astar/AStarMain.java:62-80 | the list getNeighbors(r, c) returns, defined by the row-by-row scan of the clamped 3x3 block; every element is a grid cell |
| AStar.AStarMain.NeighborsOfMeaning | a-star-processing/src/ch/coredump/astar/AStarMain.java:62-80 | a node is returned iff it is a grid cell within one row and one column of (r, c), not closed, and (diagonal moves allowed or not diagonal); the result is in strict row-major order and has at most 9 elements |
| AStar.AStarMain.KeptBeforeSound | a-star-processing/src/ch/coredump/astar/AStarMain.java:65-77 | everything the scan has added by cursor (row, col) is a grid cell that is a neighbour in that sense and lies before the cursor |
| AStar.AStarMain.KeptBeforeComplete | a-star-processing/src/ch/coredump/astar/AStarMain.java:65-77 | every neighbouring grid cell before the cursor has been added |
| AStar.AStarMain.KeptBeforeRowMajor | a-star-processing/src/ch/coredump/astar/AStarMain.java:65-66 | the scan adds cells in strictly increasing row-major order |
| AStar.AStarMain.KeptBeforeCount | a-star-processing/src/ch/coredump/astar/AStarMain.java:65-66 | the scan adds at most three cells per row passed |
| AStar.AStarMain.NeighborsOpenable | a-star-processing/src/ch/coredump/astar/AStarMain.java:67-69 | the neighbours returned are grid cells, none closed, none repeated |
| AStar.FirstLowestF | a-star-processing/src/ch/coredump/astar/AStarMain.java:92 | the linear scan behind Stream.min returns an element of the open list whose f is <= every open node's f, and every node before it in the list has strictly larger f |
| AStar.AStarMain.MoveCostPositive | a-star-processing/src/ch/coredump/astar/AStarMain.java:180-182 | when dist is positive between different points and the sketch has positive size, a move between two different cells (each centred in its pixel box) costs more than 0 |
| AStar.AStarMain.Close | a-star-processing/src/ch/coredump/astar/AStarMain.java:94-102 | current is appended to closedSet and removed from openSet; finished becomes true iff it was or current is the end; Valid's list and link part is kept |
| AStar.AStarMain.CloseKeepsLinks | a-star-processing/src/ch/coredump/astar/AStarMain.java:101-102 | moving an open node to the end of the closed list keeps the closed nodes a back-link tree rooted at the start and every cell's scores consistent |
| Lists.Remove | a-star-processing/src/ch/coredump/astar/AStarMain.java:102 | ArrayList.remove(Object): a list without x is unchanged; otherwise the first occurrence of x is dropped, the elements before it stay in place and those after it move up by one, so the result is one shorter and keeps the order of the rest; on a duplicate-free list no x remains |
| Lists.RemoveOne | a-star-processing/src/ch/coredump/astar/AStarMain.java:102 | remove takes away exactly one occurrence of x, if there is one (as multisets) |
| AStar.AStarMain.Relax | a-star-processing/src/ch/coredump/astar/AStarMain.java:107-131 | a neighbour not in openSet is appended with g = current.g + move; an open one whose g would drop gets the lower g; both then get h = heuristic to end, f = g + h, previous = current and keep blocked; otherwise openSet and the node are unchanged; the search invariant is kept |
| AStar.AStarMain.RelaxAll | a-star-processing/src/ch/coredump/astar/AStarMain.java:106-132 | after the loop, openSet is the old openSet followed by the neighbours it lacked, in order; each neighbour satisfies RelaxedThrough: relaxed through current if it was new or improved, unchanged otherwise; the search invariant is kept |
| Lists.DistinctSnoc | a-star-processing/src/ch/coredump/astar/AStarMain.java:109-113 | appending an element the list does not contain keeps it duplicate-free |
| Lists.NotInMembers | a-star-processing/src/ch/coredump/astar/AStarMain.java:109-113 | the appended neighbours are exactly those missing from the open list, each taken from the neighbour list, and they are duplicate-free when the neighbours are |
| AStar.AStarMain.NotInRowMajor | a-star-processing/src/ch/coredump/astar/AStarMain.java:106-113 | the neighbours appended to the open list keep row-major order |
| AStar.AStarMain.AppendedRowMajor | a-star-processing/src/ch/coredump/astar/AStarMain.java:106-113 | the neighbours of a cell that are missing from an open list, appended in the order getNeighbors reports them, are in strict row-major order |
| AStar.AStarMain.TracePath | a-star-processing/src/ch/coredump/astar/AStarMain.java:135-141 | the back-link walk terminates; it returns Chain(i), the nodes from current along back links to the start, for current's closing index i |
| AStar.AStarMain.ChainTracesBack | a-star-processing/src/ch/coredump/astar/AStarMain.java:135-141 | the walk from a closed node starts at it, each element's previous is the next, it ends at start, repeats no node, consists of closed nodes, costs exactly the node's g, and is [start] iff the node has no back link |
| AStar.AStarMain.ClosedEarlier | a-star-processing/src/ch/coredump/astar/AStarMain.java:137-140 | the back link of a closed node leads to a node closed strictly earlier, so the walk's closing index decreases, and the node's g is that node's g plus the move |
| AStar.AStarMain.LinkRaisesG | a-star-processing/src/ch/coredump/astar/AStarMain.java:107-131 | under the same hypotheses on dist and the sketch size, g strictly increases along each back link of a closed node: previous.g < g |
| AStar.AStarMain.ChainFollowsLinks | a-star-processing/src/ch/coredump/astar/AStarMain.java:137-141 | the walk from the i-th closed node starts at it, follows back links and ends at start; it is [start] iff the node has no back link |
| AStar.AStarMain.ChainClosedBefore | a-star-processing/src/ch/coredump/astar/AStarMain.java:137-140 | the walk only meets nodes closed no later than its first |
| AStar.AStarMain.ChainIsSimple | a-star-processing/src/ch/coredump/astar/AStarMain.java:137-140 | the walk meets no node twice |
| AStar.AStarMain.ChainCost | a-star-processing/src/ch/coredump/astar/AStarMain.java:137-141 | the g of a closed node equals the summed move cost of its walk |
| AStar.AStarMain.TraceSolution | a-star-processing/src/ch/coredump/astar/AStarMain.java:134-141 | solution is cleared and becomes the walk from current, with the properties of ChainTracesBack; the search invariant is kept |
| AStar.AStarMain.ExpandClosed | a-star-processing/src/ch/coredump/astar/AStarMain.java:104-132 | with ns the neighbours of the closed current node: openSet gains the members of ns it lacked, in order, and these appended nodes are in row-major order; every member of ns satisfies RelaxedThrough; every other grid node is unchanged; Valid is kept |
| AStar.AStarMain.Expand | a-star-processing/src/ch/coredump/astar/AStarMain.java:94-141 | current is appended to closedSet; finished is set iff it was or current is the end; openSet is the old one without current, followed by the neighbours it lacked; the solution traces back from current; Valid is kept |
| AStar.AStarMain.Step | a-star-processing/src/ch/coredump/astar/AStarMain.java:89-146 | with an empty openSet nothing changes (lists, flag, every node); otherwise exactly one node is closed, namely the first open node of least f, with the effects stated for Expand; Valid is kept |
| AStar.AStarMain.SearchBound | a-star-processing/src/ch/coredump/astar/AStarMain.java:101-113 | open and closed lists together hold at most as many nodes as the grid, which has at most ROWS*COLS nodes, so at most ROWS*COLS steps close a node |
| AStar.AStarMain.GridSize | a-star-processing/src/ch/coredump/astar/AStarMain.java:43-48 | the grid built by setup has at most ROWS*COLS nodes, since every node sits in its own cell |

## Left out

- Rendering is not modelled: `settings`, `frameRate`, `background`, `Node.draw` and the drawing half of `draw()` (AStarMain.java:148-173). It is Processing UI, not search logic.
- The `System.out.println` calls (AStarMain.java:96, 145) are output only.
- `main` and the PApplet lifecycle are not modelled. `noLoop()` becomes the `finished` flag. `Step` does not require `!finished`, because `noLoop()` stops later frames, not the current one.
- `Node.toString` is not modelled.
- Java `float` arithmetic is modelled as exact `real` arithmetic, so rounding, NaN and infinities are not captured.
- Processing's `dist` is a constructor parameter of `AStarMain`, an arbitrary function of four reals. The sketch size (`width`, `height`) is also a constructor parameter. `distanceToNeighbor` and `heuristic` are written in terms of `dist`. Apart from MoveCostPositive and LinkRaisesG, no property relies on distances being positive.
- DistanceToNeighbor and Heuristic: both are `dist` of two pixel positions, with `dist` an unconstrained parameter. That a move costs more than 0 is proved only under the explicit hypothesis `DistPositive` and a positive sketch size (MoveCostPositive, LinkRaisesG). The search invariant does not carry it.
- The getters `getF`, `getG`, `getRow` and `getCol` are plain field reads.
- `blocked` is never written or read by the search, so the model neither sets it nor uses it to exclude cells. `getNeighbors` does not exclude the cell (r, c) itself either. In a step that cell is the current node, which is already closed.
- AStar.AStarMain.Step: states only the list, flag and solution effects of relaxation. It does not state the per-neighbour outcome (RelaxedThrough) or that other nodes are unchanged. Those are stated by RelaxAll and ExpandClosed, whose contracts compare against the state just after the current node is closed.
- AStar.AStarMain.Expand: states the relaxation effects the same way as Step, for the same reason.

/**
 * The A* search engine of AStarMain.java: a ROWS x COLS grid of nodes, the
 * open, closed and solution lists, neighbour enumeration, and one search step
 * (the part of Processing's draw() that advances the search).
 */
module AStar {
  import opened Lists
  import opened Nodes

  const ROWS := 20
  const COLS := 15

  // Processing's integer abs, max and min
  function Abs(x: int): (a: nat) { if x < 0 then -x else x }
  function Max(a: int, b: int): (m: int) { if a < b then b else a }
  function Min(a: int, b: int): (m: int) { if a < b then a else b }

  /**
   * Node `n` has grid coordinates (i, j) and sits at the centre of its
   * width/COLS by height/ROWS pixel box.
   */
  predicate Placed(n: Node, i: int, j: int, width: int, height: int)
  {
    && n.row == i && n.col == j
    && n.posX == (j as real + 0.5) * width as real / COLS as real
    && n.posY == (i as real + 0.5) * height as real / ROWS as real
  }

  /** A node as created: zero scores, no back link, not blocked. */
  ghost predicate Pristine(n: Node)
    reads n
  {
    n.f == 0.0 && n.g == 0.0 && n.h == 0.0 && n.previous == null && !n.blocked
  }

  /** `a` comes before `b` when the grid is read row by row. */
  predicate Before(a: Node, b: Node)
  {
    a.row < b.row || (a.row == b.row && a.col < b.col)
  }

  /** The nodes are listed in strictly increasing row-major order. */
  predicate RowMajor(s: seq<Node>)
  {
    forall i, j :: 0 <= i < j < |s| ==> Before(s[i], s[j])
  }

  /** `n` lies in the 3x3 block centred on (r, c). */
  predicate InBlock(r: int, c: int, n: Node)
  {
    Abs(n.row - r) <= 1 && Abs(n.col - c) <= 1
  }

  /**
   * (row, col) is a position the getNeighbors(r, c) scan can reach: inside
   * the clamped row and column ranges of the 3x3 block, or one past their
   * ends, and only in a scanned row once a row has been started.
   */
  predicate InScan(r: int, c: int, row: int, col: int)
  {
    && Max(r - 1, 0) <= row && (row <= Min(r + 1, ROWS - 1) + 1 || row == Max(r - 1, 0))
    && Max(c - 1, 0) <= col && (col <= Min(c + 1, COLS - 1) + 1 || col == Max(c - 1, 0))
    && (col > Max(c - 1, 0) ==> row <= Min(r + 1, ROWS - 1))
  }

  /** Cell (row, col) is one of the four diagonal offsets of (r, c). */
  predicate IsDiagonal(r: int, c: int, row: int, col: int)
  {
    Abs(r - row) == 1 && Abs(c - col) == 1
  }

  /**
   * `x` is what Stream.min(Comparator.comparing(getF)) picks from `open`:
   * a node of least f, and the first one in list order among equals.
   */
  ghost predicate LowestFFirst(open: seq<Node>, x: Node)
    reads open
  {
    && x in open
    && (forall j :: 0 <= j < |open| ==> x.f <= open[j].f)
    && (forall j :: 0 <= j < IndexOf(open, x) ==> open[j].f > x.f)
  }

  /**
   * The linear scan behind Stream.min: a later node replaces the candidate
   * only when its f is strictly smaller.
   */
  method FirstLowestF(open: seq<Node>) returns (current: Node)
    requires open != []
    ensures LowestFFirst(open, current)
  {
    current := open[0];
    ghost var k := 0;
    var i := 1;
    while i < |open|
      invariant 1 <= i <= |open|
      invariant 0 <= k < i && open[k] == current
      invariant forall j :: 0 <= j < i ==> current.f <= open[j].f
      invariant forall j :: 0 <= j < k ==> open[j].f > current.f
    {
      if open[i].f < current.f {
        current, k := open[i], i;
      }
      i := i + 1;
    }
  }

  /**
   * The inner loop of setup(): row `row` of `cells` gets a fresh node per
   * column, placed at the centre of its pixel box; the other rows stay.
   */
  method FillRow(cells: array2<Node?>, row: int, width: int, height: int) returns (ghost cur: seq<Node>)
    requires cells.Length0 == ROWS && cells.Length1 == COLS && 0 <= row < ROWS
    modifies cells
    ensures |cur| == COLS
    ensures forall j :: 0 <= j < COLS ==>
      && cells[row, j] == cur[j] && Placed(cur[j], row, j, width, height)
      && fresh(cur[j]) && Pristine(cur[j])
    ensures forall i, j :: 0 <= i < ROWS && i != row && 0 <= j < COLS ==> cells[i, j] == old(cells[i, j])
  {
    cur := [];
    for col := 0 to COLS
      invariant |cur| == col
      invariant forall j :: 0 <= j < col ==>
        && cells[row, j] == cur[j] && Placed(cur[j], row, j, width, height)
        && fresh(cur[j]) && Pristine(cur[j])
      invariant forall i, j :: 0 <= i < ROWS && i != row && 0 <= j < COLS ==> cells[i, j] == old(cells[i, j])
    {
      var node := new Node(row, col, (col as real + 0.5) * width as real / COLS as real,
                                      (row as real + 0.5) * height as real / ROWS as real);
      cells[row, col] := node;
      cur := cur + [node];
    }
  }

  class AStarMain {
    const grid: array2<Node?>
    var openSet: seq<Node>
    var closedSet: seq<Node>
    var solution: seq<Node>
    const start: Node
    const end: Node
    var diagonalMoveAllowed: bool
    /** set once the end node is expanded; stands in for Processing's noLoop() */
    var finished: bool
    /** Processing's dist(x1, y1, x2, y2), on which both cost functions rest */
    const dist: (real, real, real, real) -> real
    /** the contents of the grid, row by row */
    ghost const Cells: seq<seq<Node>>
    /** the cells of the grid */
    ghost const GridNodes: set<Node>

    /** Cost of the move from `a` to its neighbour `b`: Processing's dist of their pixel positions. */
    function DistanceToNeighbor(a: Node, b: Node): (d: real)
    {
      dist(a.posX, a.posY, b.posX, b.posY)
    }

    /** Estimated cost from `a` to `b` (the end node): Processing's dist of their pixel positions. */
    function Heuristic(a: Node, b: Node): (h: real)
    {
      dist(a.posX, a.posY, b.posX, b.posY)
    }

    /** `dist` is positive between two different points, as a Euclidean distance is. */
    ghost predicate DistPositive()
    {
      forall x1, y1, x2, y2 :: x1 != x2 || y1 != y2 ==> dist(x1, y1, x2, y2) > 0.0
    }

    /**
     * With a positive dist and a sketch of positive size, a move between
     * two different cells, each at the centre of its pixel box, costs more
     * than nothing.
     */
    lemma MoveCostPositive(a: Node, b: Node, width: int, height: int)
      requires DistPositive() && width > 0 && height > 0
      requires Placed(a, a.row, a.col, width, height) && Placed(b, b.row, b.col, width, height)
      requires a.row != b.row || a.col != b.col
      ensures DistanceToNeighbor(a, b) > 0.0
    {
    }

    /**
     * Cost of a path listed from its last node back to its first: the sum of
     * the moves from each element's successor in the list to the element.
     */
    function PathCost(path: seq<Node>): (cost: real)
    {
      if |path| < 2 then 0.0
      else DistanceToNeighbor(path[1], path[0]) + PathCost(path[1..])
    }

    /**
     * The cells, row by row: each holds its own node, every node of the
     * grid sits in its own cell, and start/end are the corners.
     */
    ghost predicate CellsShape()
    {
      && |Cells| == ROWS && (forall i :: 0 <= i < ROWS ==> |Cells[i]| == COLS)
      && (forall i, j :: 0 <= i < ROWS && 0 <= j < COLS ==>
            Cells[i][j] in GridNodes && Cells[i][j].row == i && Cells[i][j].col == j)
      && (forall n :: n in GridNodes ==> 0 <= n.row < ROWS && 0 <= n.col < COLS && Cells[n.row][n.col] == n)
      && start == Cells[0][0] && end == Cells[ROWS - 1][COLS - 1]
    }

    /** The grid array is ROWS x COLS and holds the cells. */
    ghost predicate GridShape()
      reads grid
    {
      && grid.Length0 == ROWS && grid.Length1 == COLS
      && CellsShape()
      && forall i, j :: 0 <= i < ROWS && 0 <= j < COLS ==> grid[i, j] == Cells[i][j]
    }

    /**
     * The open and closed lists hold grid nodes, each at most once, never in
     * both; the start is the first node ever closed; finished records
     * whether the end has been closed.
     */
    ghost predicate ListsWellFormed()
      reads this`openSet, this`closedSet, this`finished
    {
      && Distinct(openSet) && Distinct(closedSet)
      && (forall n :: n in openSet ==> n in GridNodes && n !in closedSet)
      && (forall n :: n in closedSet ==> n in GridNodes)
      && (closedSet == [] ==> openSet == [start])
      && (closedSet != [] ==> closedSet[0] == start)
      && finished == (end in closedSet)
    }

    /**
     * The i-th node of the closed list `closed`, unless it is the start,
     * links back to a node closed before it, and its g is that node's g plus
     * the move.
     */
    ghost predicate ClosedLink(closed: seq<Node>, i: int)
      reads closed
    {
      && 0 <= i < |closed|
      && (closed[i] != start ==>
            && closed[i].previous != null
            && closed[i].previous in closed[..i]
            && closed[i].g == closed[i].previous.g + DistanceToNeighbor(closed[i].previous, closed[i]))
    }

    /**
     * The closed nodes form a tree rooted at the start: each is closed
     * once, the start has g = 0 and no back link, and every other closed
     * node links back to one closed before it.
     */
    ghost predicate ClosedChains(closed: seq<Node>)
      reads closed, start
    {
      && Distinct(closed)
      && start.g == 0.0 && start.previous == null
      && forall i :: 0 <= i < |closed| ==> ClosedLink(closed, i)
    }

    /**
     * The scores and back link of one cell, given the open and closed
     * lists: f = g + h; a back link points to a closed node, and g is that
     * node's g plus the move; a cell not yet discovered has zero g and h and
     * no back link; an open cell other than the start has a back link.
     */
    ghost predicate CellScores(open: seq<Node>, closed: seq<Node>, n: Node)
      reads n, closed
    {
      && n.f == n.g + n.h
      && (n.previous != null ==>
            n.previous in closed && n.g == n.previous.g + DistanceToNeighbor(n.previous, n))
      && (n !in open && n !in closed ==> n.previous == null && n.g == 0.0 && n.h == 0.0)
      && (n in open && n != start ==> n.previous != null)
    }

    ghost predicate LinksWellFormed(open: seq<Node>, closed: seq<Node>)
      reads GridNodes, closed, start
    {
      && ClosedChains(closed)
      && forall n {:trigger CellScores(open, closed, n)} :: n in GridNodes ==> CellScores(open, closed, n)
    }

    /** `path` follows back links from its first node to the start. */
    ghost predicate IsTraceToStart(path: seq<Node>)
      reads path
    {
      && path != [] && path[|path| - 1] == start
      && forall k :: 0 <= k < |path| - 1 ==> path[k].previous == path[k + 1]
    }

    /**
     * The search state: well-formed lists and links, and a solution that is
     * empty (before the first step) or a back-link path of closed nodes to
     * the start.
     */
    ghost predicate SearchState()
      reads this, GridNodes
    {
      && ListsWellFormed()
      && LinksWellFormed(openSet, closedSet)
      && (solution == [] || ((forall n :: n in solution ==> n in closedSet) && IsTraceToStart(solution)))
    }

    ghost predicate Valid()
      reads this, grid, GridNodes
    {
      GridShape() && SearchState()
    }

    /**
     * What the solution rebuilt from `current` is: the back-link chain from
     * `current` to the start, without repetition, whose cost is current.g;
     * it is just [start] exactly when `current` has no back link.
     */
    ghost predicate TracesBack(path: seq<Node>, current: Node)
      reads path, current
    {
      && IsTraceToStart(path)
      && path[0] == current
      && Distinct(path)
      && current.g == PathCost(path)
      && (current.previous == null <==> path == [start])
    }

    /** `n` has been given `g` through `current`: new h, f = g + h, back link to `current`. */
    ghost predicate Relaxed(n: Node, current: Node, g: real)
      reads n
    {
      n.g == g && n.h == Heuristic(n, end) && n.f == n.g + n.h && n.previous == current
    }

    /**
     * What relaxing `n` through `current` leaves, compared with the old
     * state: a node that was not open, or whose g drops on the way through
     * `current`, has been given that g (with its h, f and back link) and
     * keeps its blocked flag; any other node is left as it was.
     */
    twostate predicate RelaxedThrough(current: Node, n: Node)
      reads n
    {
      var tentativeG := old(current.g) + DistanceToNeighbor(current, n);
      if n !in old(openSet) || tentativeG < old(n.g)
      then Relaxed(n, current, tentativeG) && n.blocked == old(n.blocked)
      else unchanged(n)
    }

    /**
     * getNeighbors(r, c) keeps node `n`, found at (row, col) in the block
     * around (r, c), given the closed list and the diagonalMoveAllowed flag:
     * `n` is not closed and, when diagonal moves are off, not diagonal.
     */
    predicate Keeps(closed: seq<Node>, diagonal: bool, r: int, c: int, row: int, col: int, n: Node)
    {
      n !in closed && (diagonal || !IsDiagonal(r, c, row, col))
    }

    /** `n` is a cell getNeighbors(r, c) returns. */
    predicate IsNeighbor(closed: seq<Node>, diagonal: bool, r: int, c: int, n: Node)
    {
      InBlock(r, c, n) && Keeps(closed, diagonal, r, c, n.row, n.col, n)
    }

    /**
     * The cells getNeighbors(r, c) has kept by the time its scan of the
     * on-grid part of the block around (r, c) reaches (row, col): those of
     * the rows above `row`, then those of `row` left of `col`, in scan order.
     */
    ghost function KeptBefore(closed: seq<Node>, diagonal: bool, r: int, c: int, row: int, col: int): (kept: seq<Node>)
      requires CellsShape()
      requires InScan(r, c, row, col)
      decreases row, col
    {
      if col > Max(c - 1, 0) then
        var n := Cells[row][col - 1];
        KeptBefore(closed, diagonal, r, c, row, col - 1) + (if Keeps(closed, diagonal, r, c, row, col - 1, n) then [n] else [])
      else if row > Max(r - 1, 0) then
        KeptBefore(closed, diagonal, r, c, row - 1, Max(Max(c - 1, 0), Min(c + 1, COLS - 1) + 1))
      else
        []
    }

    /** What getNeighbors(r, c) returns: the cells kept once the whole block is scanned. */
    ghost function NeighborsOf(closed: seq<Node>, diagonal: bool, r: int, c: int): (ns: seq<Node>)
      requires CellsShape()
      ensures forall i :: 0 <= i < |ns| ==> ns[i] in GridNodes
    {
      KeptBeforeSound(closed, diagonal, r, c, Max(Max(r - 1, 0), Min(r + 1, ROWS - 1) + 1), Max(c - 1, 0));
      KeptBefore(closed, diagonal, r, c, Max(Max(r - 1, 0), Min(r + 1, ROWS - 1) + 1), Max(c - 1, 0))
    }

    /** `n` comes before (row, col) in the row-by-row scan. */
    predicate ScannedBefore(n: Node, row: int, col: int)
    {
      n.row < row || (n.row == row && n.col < col)
    }

    /**
     * Everything the scan has kept by (row, col) is a grid cell that is a
     * neighbour of (r, c) and was scanned before (row, col).
     */
    lemma {:induction false} KeptBeforeSound(closed: seq<Node>, diagonal: bool, r: int, c: int, row: int, col: int)
      requires CellsShape()
      requires InScan(r, c, row, col)
      ensures forall i :: 0 <= i < |KeptBefore(closed, diagonal, r, c, row, col)| ==>
        var n := KeptBefore(closed, diagonal, r, c, row, col)[i];
        n in GridNodes && IsNeighbor(closed, diagonal, r, c, n) && ScannedBefore(n, row, col)
      decreases row, col
    {
      if col > Max(c - 1, 0) {
        KeptBeforeSound(closed, diagonal, r, c, row, col - 1);
        var n := Cells[row][col - 1];
        assert 0 <= row < ROWS && 0 <= col - 1 < COLS;
        assert n.row == row && n.col == col - 1 && n in GridNodes;
      } else if row > Max(r - 1, 0) {
        var col' := Max(Max(c - 1, 0), Min(c + 1, COLS - 1) + 1);
        KeptBeforeSound(closed, diagonal, r, c, row - 1, col');
      }
    }

    /** The scan keeps cells in row-major order. */
    lemma {:induction false} KeptBeforeRowMajor(closed: seq<Node>, diagonal: bool, r: int, c: int, row: int, col: int)
      requires CellsShape()
      requires InScan(r, c, row, col)
      ensures RowMajor(KeptBefore(closed, diagonal, r, c, row, col))
      decreases row, col
    {
      if col > Max(c - 1, 0) {
        KeptBeforeRowMajor(closed, diagonal, r, c, row, col - 1);
        KeptBeforeSound(closed, diagonal, r, c, row, col - 1);
        var n := Cells[row][col - 1];
        assert 0 <= row < ROWS && 0 <= col - 1 < COLS;
        assert n.row == row && n.col == col - 1;
      } else if row > Max(r - 1, 0) {
        KeptBeforeRowMajor(closed, diagonal, r, c, row - 1, Max(Max(c - 1, 0), Min(c + 1, COLS - 1) + 1));
      }
    }

    /** Every grid cell neighbouring (r, c) that the scan has passed by (row, col) was kept. */
    lemma {:induction false} KeptBeforeComplete(closed: seq<Node>, diagonal: bool, r: int, c: int, row: int, col: int, n: Node)
      requires CellsShape()
      requires InScan(r, c, row, col)
      requires n in GridNodes && IsNeighbor(closed, diagonal, r, c, n) && ScannedBefore(n, row, col)
      ensures n in KeptBefore(closed, diagonal, r, c, row, col)
      decreases row, col
    {
      if col > Max(c - 1, 0) {
        if n != Cells[row][col - 1] {
          KeptBeforeComplete(closed, diagonal, r, c, row, col - 1, n);
        }
      } else if row > Max(r - 1, 0) {
        KeptBeforeComplete(closed, diagonal, r, c, row - 1, Max(Max(c - 1, 0), Min(c + 1, COLS - 1) + 1), n);
      } else {
        assert false;
      }
    }

    /** The scan keeps at most three cells per row it has passed. */
    lemma {:induction false} KeptBeforeCount(closed: seq<Node>, diagonal: bool, r: int, c: int, row: int, col: int)
      requires CellsShape()
      requires InScan(r, c, row, col)
      ensures |KeptBefore(closed, diagonal, r, c, row, col)| <= 3 * (row - Max(r - 1, 0)) + (col - Max(c - 1, 0))
      decreases row, col
    {
      if col > Max(c - 1, 0) {
        KeptBeforeCount(closed, diagonal, r, c, row, col - 1);
      } else if row > Max(r - 1, 0) {
        KeptBeforeCount(closed, diagonal, r, c, row - 1, Max(Max(c - 1, 0), Min(c + 1, COLS - 1) + 1));
      }
    }

    /**
     * getNeighbors(r, c) returns exactly the grid cells that are neighbours
     * of (r, c) in the sense of IsNeighbor, in row-major order, at most nine.
     */
    lemma NeighborsOfMeaning(closed: seq<Node>, diagonal: bool, r: int, c: int)
      requires CellsShape()
      ensures forall n :: n in NeighborsOf(closed, diagonal, r, c) <==> n in GridNodes && IsNeighbor(closed, diagonal, r, c, n)
      ensures RowMajor(NeighborsOf(closed, diagonal, r, c))
      ensures |NeighborsOf(closed, diagonal, r, c)| <= 9
    {
      var row, col := Max(Max(r - 1, 0), Min(r + 1, ROWS - 1) + 1), Max(c - 1, 0);
      KeptBeforeSound(closed, diagonal, r, c, row, col);
      KeptBeforeRowMajor(closed, diagonal, r, c, row, col);
      KeptBeforeCount(closed, diagonal, r, c, row, col);
      forall n | n in GridNodes && IsNeighbor(closed, diagonal, r, c, n) ensures n in NeighborsOf(closed, diagonal, r, c) {
        KeptBeforeComplete(closed, diagonal, r, c, row, col, n);
      }
    }

    /**
     * The field initialisers and setup(): a fresh node per cell at the
     * centre of its width/COLS by height/ROWS pixel box, start and end at
     * opposite corners, the start alone in the open list.
     */
    constructor (width: int, height: int, dist: (real, real, real, real) -> real)
      ensures Valid() && fresh(grid) && fresh(GridNodes)
      ensures openSet == [start] && closedSet == [] && solution == []
      ensures !finished && diagonalMoveAllowed && this.dist == dist
      ensures forall i, j :: 0 <= i < ROWS && 0 <= j < COLS ==> Placed(Cells[i][j], i, j, width, height)
      ensures forall n :: n in GridNodes ==> Pristine(n)
    {
      var cells := new Node?[ROWS, COLS];
      ghost var rows: seq<seq<Node>> := [];
      for row := 0 to ROWS
        invariant |rows| == row
        invariant forall i :: 0 <= i < row ==> |rows[i]| == COLS
        invariant forall i, j :: 0 <= i < row && 0 <= j < COLS ==>
          && cells[i, j] == rows[i][j] && Placed(rows[i][j], i, j, width, height)
          && fresh(rows[i][j]) && Pristine(rows[i][j])
      {
        ghost var cur := FillRow(cells, row, width, height);
        rows := rows + [cur];
      }
      ghost var made := set i, j | 0 <= i < ROWS && 0 <= j < COLS :: rows[i][j];
      var first: Node := cells[0, 0];
      var last: Node := cells[ROWS - 1, COLS - 1];
      grid := cells;
      Cells := rows;
      GridNodes := made;
      start, end := first, last;
      this.dist := dist;
      diagonalMoveAllowed := true;
      openSet, closedSet, solution := [first], [], [];
      finished := false;
      new;
      forall n | n in GridNodes ensures CellScores(openSet, closedSet, n) {
        assert Pristine(n);
      }
    }

    /**
     * getNeighbors(r, c): the cells of the 3x3 block around (r, c) that lie
     * on the grid, are not closed and, when diagonal moves are off, are not
     * diagonal, in row-major order. The cell (r, c) itself is not excluded,
     * and blocked cells are not excluded either.
     */
    method GetNeighbors(r: int, c: int) returns (neighbors: seq<Node>)
      requires GridShape()
      ensures neighbors == NeighborsOf(closedSet, diagonalMoveAllowed, r, c)
    {
      neighbors := [];
      var rowLo, rowHi := Max(r - 1, 0), Min(r + 1, ROWS - 1);
      var colLo, colHi := Max(c - 1, 0), Min(c + 1, COLS - 1);
      var row := rowLo;
      while row <= rowHi
        invariant rowLo <= row && (row <= rowHi + 1 || row == rowLo)
        invariant neighbors == KeptBefore(closedSet, diagonalMoveAllowed, r, c, row, colLo)
      {
        var col := colLo;
        while col <= colHi
          invariant colLo <= col && (col <= colHi + 1 || col == colLo)
          invariant neighbors == KeptBefore(closedSet, diagonalMoveAllowed, r, c, row, col)
        {
          var node: Node := grid[row, col];
          assert node == Cells[row][col];
          if node in closedSet {
            // already expanded
          } else if !diagonalMoveAllowed && IsDiagonal(r, c, row, col) {
            // diagonal moves are switched off
          } else {
            neighbors := neighbors + [node];
          }
          col := col + 1;
        }
        row := row + 1;
      }
    }

    /**
     * The body of the neighbour loop in draw(): a node not yet open is
     * opened with g through `current`; an open node whose g would drop is
     * given the lower g; otherwise nothing changes. Whenever g is set, h, f
     * and the back link are set too.
     */
    method Relax(current: Node, n: Node)
      requires SearchState()
      requires current in closedSet && n in GridNodes && n !in closedSet
      modifies this`openSet, n
      ensures SearchState()
      ensures var tentativeG := old(current.g) + DistanceToNeighbor(current, n);
        if n !in old(openSet) then
          openSet == old(openSet) + [n] && Relaxed(n, current, tentativeG) && n.blocked == old(n.blocked)
        else if tentativeG < old(n.g) then
          openSet == old(openSet) && Relaxed(n, current, tentativeG) && n.blocked == old(n.blocked)
        else
          openSet == old(openSet) && unchanged(n)
    {
      var tempG := current.g + DistanceToNeighbor(current, n);
      if n !in openSet {
        n.g := tempG;
        DistinctSnoc(openSet, n);
        openSet := openSet + [n];
      } else if tempG < n.g {
        n.g := tempG;
      } else {
        return;
      }
      n.h := Heuristic(n, end);
      n.f := n.g + n.h;
      n.previous := current;
      assert start in closedSet && n !in solution;
      forall i | 0 <= i < |closedSet| ensures ClosedLink(closedSet, i) {
        assert old(ClosedLink(closedSet, i));
      }
      forall m | m in GridNodes ensures CellScores(openSet, closedSet, m) {
        if m != n {
          assert old(CellScores(openSet, closedSet, m));
        }
      }
    }

    /**
     * The back-link walk from the i-th closed node, as the solution rebuild
     * lists it: every node met that still has a back link, then the start.
     */
    ghost function Chain(i: nat): seq<Node>
      requires ClosedChains(closedSet) && i < |closedSet|
      reads this`closedSet, closedSet, start
      decreases i
    {
      var n := closedSet[i];
      if n.previous == null then [start]
      else
        ClosedEarlier(i);
        [n] + Chain(IndexOf(closedSet, n.previous))
    }

    /** A back link of a closed node leads to a node closed before it. */
    lemma ClosedEarlier(i: nat)
      requires ClosedChains(closedSet) && i < |closedSet| && closedSet[i].previous != null
      ensures closedSet[i].previous in closedSet && IndexOf(closedSet, closedSet[i].previous) < i
      ensures closedSet[i].g == closedSet[i].previous.g + DistanceToNeighbor(closedSet[i].previous, closedSet[i])
    {
      assert ClosedLink(closedSet, i);
      var j := IndexOf(closedSet[..i], closedSet[i].previous);
      assert closedSet[j] == closedSet[i].previous;
    }

    /**
     * The walk from a closed node follows back links and ends at the start;
     * it is [start] exactly when the node has no back link.
     */
    lemma {:induction false} ChainFollowsLinks(i: nat)
      requires ClosedChains(closedSet) && i < |closedSet|
      ensures IsTraceToStart(Chain(i)) && Chain(i)[0] == closedSet[i]
      ensures closedSet[i].previous == null <==> Chain(i) == [start]
    {
      if closedSet[i].previous != null {
        ClosedEarlier(i);
        ChainFollowsLinks(IndexOf(closedSet, closedSet[i].previous));
      } else {
        assert ClosedLink(closedSet, i);
      }
    }

    /**
     * With a positive dist and every cell at the centre of its pixel box, g
     * strictly increases along each back link of a closed node.
     */
    lemma LinkRaisesG(i: nat, width: int, height: int)
      requires Valid() && DistPositive() && width > 0 && height > 0
      requires forall n :: n in GridNodes ==> Placed(n, n.row, n.col, width, height)
      requires i < |closedSet| && closedSet[i].previous != null
      ensures closedSet[i].previous.g < closedSet[i].g
    {
      var n := closedSet[i];
      ClosedEarlier(i);
      var j := IndexOf(closedSet, n.previous);
      DistinctAt(closedSet, j, i);
      var p := closedSet[j];
      assert p in GridNodes && n in GridNodes;
      assert Cells[p.row][p.col] == p && Cells[n.row][n.col] == n;
      MoveCostPositive(p, n, width, height);
    }

    /** The walk from the i-th closed node only meets nodes closed no later. */
    lemma {:induction false} ChainClosedBefore(i: nat)
      requires ClosedChains(closedSet) && i < |closedSet|
      ensures forall m :: m in Chain(i) ==> m in closedSet && IndexOf(closedSet, m) <= i
    {
      if closedSet[i].previous != null {
        ClosedEarlier(i);
        ChainClosedBefore(IndexOf(closedSet, closedSet[i].previous));
      } else {
        assert ClosedLink(closedSet, i);
      }
    }

    /** The walk never meets a node twice. */
    lemma {:induction false} ChainIsSimple(i: nat)
      requires ClosedChains(closedSet) && i < |closedSet|
      ensures Distinct(Chain(i))
    {
      var n := closedSet[i];
      if n.previous != null {
        ClosedEarlier(i);
        var j := IndexOf(closedSet, n.previous);
        ChainIsSimple(j);
        ChainClosedBefore(j);
        forall k | 0 <= k < i ensures closedSet[k] != n {
          DistinctAt(closedSet, k, i);
        }
        assert IndexOf(closedSet, n) == i;
        var c := Chain(i);
        assert c == [n] + Chain(j);
        forall a, b | 0 <= a < b < |c| ensures At(c, a) != At(c, b) {
          assert c[b] == Chain(j)[b - 1];
          if a > 0 {
            assert c[a] == Chain(j)[a - 1];
            DistinctAt(Chain(j), a - 1, b - 1);
          }
        }
      }
    }

    /** The g of a closed node is the cost of the walk from it. */
    lemma {:induction false} ChainCost(i: nat)
      requires ClosedChains(closedSet) && i < |closedSet|
      ensures closedSet[i].g == PathCost(Chain(i))
    {
      var n := closedSet[i];
      if n.previous != null {
        ClosedEarlier(i);
        var j := IndexOf(closedSet, n.previous);
        ChainCost(j);
        ChainFollowsLinks(j);
        assert Chain(i)[1..] == Chain(j);
      } else {
        assert ClosedLink(closedSet, i);
      }
    }

    /**
     * The solution rebuild in draw() (AStarMain.java lines 135-141):
     * follow back links from `current` while there is one, then add the
     * start. The walk ends because every back link leads to a node closed
     * earlier.
     */
    method TracePath(current: Node) returns (path: seq<Node>)
      requires ClosedChains(closedSet) && current in closedSet
      ensures path == Chain(IndexOf(closedSet, current))
    {
      path := [];
      var n: Node := current;
      ghost var i: nat := IndexOf(closedSet, n);
      ghost var whole := Chain(i);
      while n.previous != null
        invariant i < |closedSet| && closedSet[i] == n
        invariant path + Chain(i) == whole
        decreases i
      {
        ClosedEarlier(i);
        ghost var j := IndexOf(closedSet, n.previous);
        assert Chain(i) == [n] + Chain(j);
        AppendAssoc(path, [n], Chain(j));
        path := path + [n];
        n := n.previous;
        i := j;
      }
      path := path + [start];
    }

    /**
     * The walk from a closed node is a trace of closed nodes back to the
     * start, without repetition, whose cost is the node's g.
     */
    lemma ChainTracesBack(i: nat)
      requires ClosedChains(closedSet) && i < |closedSet|
      ensures TracesBack(Chain(i), closedSet[i])
      ensures forall n :: n in Chain(i) ==> n in closedSet
    {
      ChainFollowsLinks(i);
      ChainClosedBefore(i);
      ChainIsSimple(i);
      ChainCost(i);
    }

    /** The solution list is replaced by the path traced back from `current`. */
    method TraceSolution(current: Node)
      requires SearchState() && current in closedSet
      modifies this`solution
      ensures SearchState()
      ensures TracesBack(solution, current)
    {
      solution := TracePath(current);
      ChainTracesBack(IndexOf(closedSet, current));
    }

    /**
     * The closing of `current` in draw() (AStarMain.java lines 94-102):
     * `current` moves from the open list to the end of the closed list, and
     * the search is finished when it is the end.
     */
    method Close(current: Node)
      requires SearchState() && current in openSet
      modifies this`openSet, this`closedSet, this`finished
      ensures SearchState()
      ensures closedSet == old(closedSet) + [current]
      ensures openSet == Remove(old(openSet), current)
      ensures finished == (old(finished) || current == end)
    {
      if current == end {
        finished := true;
      }
      CloseKeepsLinks(openSet, closedSet, current);
      DistinctSnoc(closedSet, current);
      closedSet := closedSet + [current];
      openSet := Remove(openSet, current);
    }

    /**
     * Moving an open node to the end of the closed list keeps the closed
     * nodes a tree rooted at the start and every cell's scores and back
     * link consistent.
     */
    lemma CloseKeepsLinks(open: seq<Node>, closed: seq<Node>, current: Node)
      requires LinksWellFormed(open, closed) && current in GridNodes && current in open && current !in closed
      requires closed == [] ==> current == start
      ensures LinksWellFormed(Remove(open, current), closed + [current])
    {
      var open', closed' := Remove(open, current), closed + [current];
      DistinctSnoc(closed, current);
      assert CellScores(open, closed, current);
      forall i | 0 <= i < |closed'| ensures ClosedLink(closed', i) {
        if i < |closed| {
          assert ClosedLink(closed, i);
          assert closed'[..i] == closed[..i];
        } else {
          assert closed'[..i] == closed;
        }
      }
      forall m | m in GridNodes ensures CellScores(open', closed', m) {
        assert CellScores(open, closed, m);
      }
    }

    /**
     * The neighbour loop of draw() (AStarMain.java lines 106-132): each neighbour in turn
     * is relaxed through `current`. The neighbours not open before are
     * appended in the order given; each neighbour that was new, or whose g
     * drops, gets g through `current`, and every other node is left as it
     * was.
     */
    method RelaxAll(current: Node, neighbors: seq<Node>)
      requires SearchState() && current in closedSet
      requires forall n :: n in neighbors ==> n in GridNodes && n !in closedSet
      requires Distinct(neighbors)
      modifies this`openSet, neighbors
      ensures SearchState()
      ensures openSet == old(openSet) + NotIn(neighbors, |neighbors|, old(openSet))
      ensures forall i :: 0 <= i < |neighbors| ==> RelaxedThrough(current, neighbors[i])
    {
      for k := 0 to |neighbors|
        invariant SearchState()
        invariant openSet == old(openSet) + NotIn(neighbors, k, old(openSet))
        invariant forall i :: 0 <= i < k ==> RelaxedThrough(current, neighbors[i])
        invariant forall i :: k <= i < |neighbors| ==> unchanged(neighbors[i])
        invariant current.g == old(current.g)
      {
        var n := neighbors[k];
        forall i | 0 <= i < |neighbors| && i != k ensures neighbors[i] != n {
          DistinctAt(neighbors, i, k);
        }
        assert n !in neighbors[..k];
        NotInAvoids(neighbors, k, old(openSet), n);
        AppendAssoc(old(openSet), NotIn(neighbors, k, old(openSet)), if n in old(openSet) then [] else [n]);
        Relax(current, n);
      }
    }

    /**
     * The neighbour half of the expansion in draw() (AStarMain.java lines
     * 104-132), once `current` is closed: the neighbours getNeighbors
     * reports for it are relaxed through it, those not open before are
     * appended to the open list in the order reported (row-major order),
     * and no other node changes.
     */
    method ExpandClosed(current: Node)
      requires Valid() && current in closedSet
      modifies this`openSet, GridNodes
      ensures Valid()
      ensures var ns := NeighborsOf(closedSet, diagonalMoveAllowed, current.row, current.col);
        && openSet == old(openSet) + NotIn(ns, |ns|, old(openSet))
        && (forall i :: 0 <= i < |ns| ==> RelaxedThrough(current, ns[i]))
        && (forall n :: n in GridNodes && n !in ns ==> unchanged(n))
      ensures RowMajor(openSet[|old(openSet)|..])
    {
      var neighbors := GetNeighbors(current.row, current.col);
      NeighborsOpenable(closedSet, diagonalMoveAllowed, current.row, current.col);
      AppendedRowMajor(closedSet, diagonalMoveAllowed, current.row, current.col, openSet);
      RelaxAll(current, neighbors);
    }

    /**
     * The expansion in draw() (AStarMain.java lines 94-141), for the node
     * `current` picked from the open list: it is closed (finished is set if
     * it is the end), its neighbours are relaxed, and the solution is
     * rebuilt from it.
     */
    method Expand(current: Node)
      requires Valid() && current in openSet
      modifies this`openSet, this`closedSet, this`solution, this`finished, GridNodes
      ensures Valid()
      ensures closedSet == old(closedSet) + [current]
      ensures finished == (old(finished) || current == end)
      ensures var ns := NeighborsOf(closedSet, diagonalMoveAllowed, current.row, current.col);
        var open0 := Remove(old(openSet), current);
        && openSet == open0 + NotIn(ns, |ns|, open0)
      ensures TracesBack(solution, current)
    {
      Close(current);
      ExpandClosed(current);
      TraceSolution(current);
    }

    /**
     * One search step, the algorithmic half of draw(). With an empty open
     * list nothing changes. Otherwise the first open node of least f is
     * picked and expanded.
     */
    method Step()
      requires Valid()
      modifies this`openSet, this`closedSet, this`solution, this`finished, GridNodes
      ensures Valid()
      ensures old(openSet) == [] ==>
        && openSet == old(openSet) && closedSet == old(closedSet) && solution == old(solution)
        && finished == old(finished) && unchanged(GridNodes)
      ensures old(openSet) != [] ==>
        && |closedSet| == |old(closedSet)| + 1
        && var current := closedSet[|closedSet| - 1];
        && current in old(openSet) && old(LowestFFirst(openSet, current))
        && closedSet == old(closedSet) + [current]
        && finished == (old(finished) || current == end)
        && var ns := NeighborsOf(closedSet, diagonalMoveAllowed, current.row, current.col);
        && var open0 := Remove(old(openSet), current);
        && openSet == open0 + NotIn(ns, |ns|, open0)
        && TracesBack(solution, current)
    {
      if openSet != [] {
        var current := FirstLowestF(openSet);
        Expand(current);
      }
    }

    /** What getNeighbors returns can be relaxed: unclosed grid cells, each once. */
    lemma NeighborsOpenable(closed: seq<Node>, diagonal: bool, r: int, c: int)
      requires CellsShape()
      ensures var ns := NeighborsOf(closed, diagonal, r, c);
        Distinct(ns) && forall n :: n in ns ==> n in GridNodes && n !in closed
    {
      NeighborsOfMeaning(closed, diagonal, r, c);
      RowMajorDistinct(NeighborsOf(closed, diagonal, r, c));
    }

    /** The neighbours missing from an open list, appended to it, are in row-major order. */
    lemma AppendedRowMajor(closed: seq<Node>, diagonal: bool, r: int, c: int, open: seq<Node>)
      requires CellsShape()
      ensures var ns := NeighborsOf(closed, diagonal, r, c);
        RowMajor(NotIn(ns, |ns|, open))
    {
      NeighborsOfMeaning(closed, diagonal, r, c);
      var ns := NeighborsOf(closed, diagonal, r, c);
      NotInRowMajor(ns, |ns|, open);
    }

    /** Row-major order has no repeats. */
    lemma RowMajorDistinct(s: seq<Node>)
      requires RowMajor(s)
      ensures Distinct(s)
    {
    }

    /** Filtering keeps row-major order. */
    lemma {:induction false} NotInRowMajor(s: seq<Node>, k: nat, t: seq<Node>)
      requires k <= |s| && RowMajor(s)
      ensures RowMajor(NotIn(s, k, t))
    {
      if k > 0 {
        NotInRowMajor(s, k - 1, t);
        NotInMembers(s, k - 1, t);
        var r := NotIn(s, k - 1, t);
        forall i | 0 <= i < |r| ensures Before(r[i], s[k - 1]) {
          var j :| 0 <= j < k - 1 && s[j] == r[i];
        }
      }
    }

    /**
     * Open and closed lists together never hold more nodes than the grid
     * has, and the grid has at most ROWS * COLS nodes, so a search closes at
     * most ROWS * COLS nodes before its open list runs dry.
     */
    lemma SearchBound()
      requires Valid()
      ensures |openSet| + |closedSet| <= |GridNodes| <= ROWS * COLS
    {
      GridSize();
      var all := openSet + closedSet;
      forall i, j | 0 <= i < j < |all| ensures At(all, i) != At(all, j) {
        if j < |openSet| {
          DistinctAt(openSet, i, j);
        } else if i >= |openSet| {
          DistinctAt(closedSet, i - |openSet|, j - |openSet|);
        } else {
          assert all[i] in openSet && all[j] in closedSet;
        }
      }
      DistinctBound(all, GridNodes);
    }

    /** Every grid node sits in one of the ROWS * COLS cells. */
    lemma GridSize()
      requires CellsShape()
      ensures |GridNodes| <= ROWS * COLS
    {
      FlattenFacts(Cells, COLS);
      forall n | n in GridNodes ensures n in Flatten(Cells) {
        assert Cells[n.row][n.col] == n;
      }
      SetBound(GridNodes, Flatten(Cells));
    }
  }
}

/**
 * One grid cell of the A* search (Node.java). Its grid coordinates and pixel
 * position are fixed when it is created; the blocked flag, the three scores
 * and the back link are updated in place by the search.
 */
module Nodes {

  class Node {
    // position: assigned only by the constructor, so `const` here
    const row: int
    const col: int
    const posX: real
    const posY: real
    var blocked: bool

    /** g + h, the estimate that orders the open set */
    var f: real
    /** cost of the best known path from the start */
    var g: real
    /** heuristic cost from here to the end */
    var h: real
    /** the node the best known path came from */
    var previous: Node?

    /**
     * A fresh node: given coordinates and position, zero scores, no back
     * link and (Java's default for a boolean field) not blocked.
     */
    constructor (row: int, col: int, x: real, y: real)
      ensures this.row == row && this.col == col
      ensures posX == x && posY == y
      ensures f == 0.0 && g == 0.0 && h == 0.0
      ensures previous == null && !blocked
    {
      this.posX := x;
      this.posY := y;
      this.row := row;
      this.col := col;
      blocked := false;
      f, g, h := 0.0, 0.0, 0.0;
      previous := null;
    }
  }
}

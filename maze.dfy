/**
 * The maze the route finder works on: a grid of cell characters, set once
 * when the maze is built and never changed afterwards.
 */
module MazeGrid {

  /** Rows of cell characters; 'S' marks the start, 'X' the target, '#' a wall. */
  type Grid = seq<seq<char>>

  /**
   * The shape the constructor relies on: it reads row 0 to learn the number
   * of columns, so there is at least one row, and every row is as long as
   * row 0 (the input readers reject any other row length).
   */
  predicate Rectangular(g: Grid) {
    |g| >= 1 && forall i :: 0 <= i < |g| ==> |g[i]| == |g[0]|
  }

  class Maze {
    const grid: Grid
    const rows: int
    const cols: int

    /** The dimensions recorded by the constructor describe the grid. */
    ghost predicate Valid() {
      Rectangular(grid) && rows == |grid| && cols == |grid[0]|
    }

    constructor (grid: Grid)
      requires Rectangular(grid)
      ensures Valid() && this.grid == grid
    {
      this.grid := grid;
      this.rows := |grid|;
      this.cols := |grid[0]|;
    }

    function GetGrid(): (g: Grid)
      requires Valid()
      ensures g == grid && |g| == rows
      ensures forall i :: 0 <= i < |g| ==> |g[i]| == cols
    {
      grid
    }

    /** The number of rows, at least one. */
    function GetRows(): (r: int)
      requires Valid()
      ensures r >= 1 && r == |grid|
    {
      rows
    }

    /** The common length of every row. */
    function GetCols(): (c: int)
      requires Valid()
      ensures c >= 0 && forall i :: 0 <= i < |grid| ==> |grid[i]| == c
    {
      cols
    }
  }
}

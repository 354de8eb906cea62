/**
 * Grid coordinates shared by the browser client and the server: a cell is a
 * (column, row) pair, grids are column-major (`grid[col][row]`).
 */
module Coords {

  /** A grid position: column first, then row (row 0 is the bottom edge). */
  type Cell = (int, int)

  function Abs(x: int): (r: nat)
    ensures r == x || r == -x
  {
    if x < 0 then -x else x
  }

  /** Python's `range(n)` and JavaScript's `for (i = 0; i < n; i++)` visit no index when n < 0. */
  function NonNeg(n: int): (r: nat)
    ensures n >= 0 ==> r == n
    ensures n < 0 ==> r == 0
  {
    if n < 0 then 0 else n
  }

  /** `manhattan_distance` of wms/utils.py. */
  function Manhattan(a: Cell, b: Cell): (d: nat)
    ensures d == 0 <==> a == b
  {
    Abs(a.0 - b.0) + Abs(a.1 - b.1)
  }

  lemma ManhattanSymmetric(a: Cell, b: Cell)
    ensures Manhattan(a, b) == Manhattan(b, a)
  {
  }

  lemma ManhattanTriangle(a: Cell, b: Cell, c: Cell)
    ensures Manhattan(a, c) <= Manhattan(a, b) + Manhattan(b, c)
  {
  }

  /** Two cells are orthogonal neighbours. */
  predicate Adjacent(a: Cell, b: Cell) {
    Manhattan(a, b) == 1
  }

  /** `grid` has `width` columns, each of `height` cells. */
  predicate Shaped<T>(grid: seq<seq<T>>, width: int, height: int) {
    |grid| == width && forall c :: 0 <= c < |grid| ==> |grid[c]| == height
  }

  /** Every column of `grid` has the length of the first one. */
  predicate Rectangular<T>(grid: seq<seq<T>>) {
    forall c :: 0 <= c < |grid| ==> |grid[c]| == |grid[0]|
  }

  /** `cell` indexes an existing slot of `grid`. */
  predicate InGrid<T>(grid: seq<seq<T>>, cell: Cell) {
    0 <= cell.0 < |grid| && 0 <= cell.1 < |grid[cell.0]|
  }

  /**
   * The assignment `grid[c][r] = v`. Every column is its own list, so the
   * write changes that one cell and nothing else.
   */
  function SetCell<T>(grid: seq<seq<T>>, cell: Cell, v: T): (g: seq<seq<T>>)
    requires InGrid(grid, cell)
    ensures |g| == |grid| && forall c :: 0 <= c < |g| ==> |g[c]| == |grid[c]|
    ensures g[cell.0][cell.1] == v
    ensures forall c, r :: InGrid(grid, (c, r)) && (c, r) != cell ==> g[c][r] == grid[c][r]
  {
    grid[cell.0 := grid[cell.0][cell.1 := v]]
  }
}

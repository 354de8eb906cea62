/**
 * The server's cell classes (`NavigableTileCell`, `ShelvingCell` and its
 * `Direction`) and `init_grid`, which allocates a grid of `None` slots.
 */
module Tiles {
  import opened Coords

  /** `Direction` of models.py and wms/models.py (NORTH = 1 ... WEST = 4). */
  datatype Direction = North | East | South | West

  /**
   * One slot of a server grid: `Empty` is the `None` that `init_grid` leaves,
   * `Navigable` a `NavigableTileCell`, `Shelving` a `ShelvingCell` facing `direction`.
   */
  datatype Slot = Empty | Navigable | Shelving(direction: Direction)

  /** Every slot of `grid` has been assigned a cell object. */
  predicate Filled(grid: seq<seq<Slot>>) {
    forall c, r :: 0 <= c < |grid| && 0 <= r < |grid[c]| ==> grid[c][r] != Empty
  }

  /**
   * `init_grid((width, height))`: `width` columns, each a freshly built list of
   * `height` `None`s.
   */
  method InitGrid(width: int, height: int) returns (grid: seq<seq<Slot>>)
    ensures Shaped(grid, NonNeg(width), NonNeg(height))
    ensures forall c, r :: 0 <= c < |grid| && 0 <= r < |grid[c]| ==> grid[c][r] == Empty
  {
    grid := [];
    var colNum := 0;
    while colNum < width
      invariant 0 <= colNum == |grid| <= NonNeg(width)
      invariant forall c :: 0 <= c < |grid| ==> grid[c] == seq(NonNeg(height), _ => Empty)
    {
      var row := seq(NonNeg(height), _ => Empty);
      grid := grid + [row];
      colNum := colNum + 1;
    }
  }

  /**
   * Writing one slot of a grid that `init_grid` allocated leaves every other
   * slot `None`: the columns share no list.
   */
  lemma {:induction false} InitGridWriteIsolated(grid: seq<seq<Slot>>, width: nat, height: nat, cell: Cell, v: Slot)
    requires Shaped(grid, width, height)
    requires forall c, r :: 0 <= c < |grid| && 0 <= r < |grid[c]| ==> grid[c][r] == Empty
    requires InGrid(grid, cell)
    ensures Shaped(SetCell(grid, cell, v), width, height)
    ensures forall c, r :: InGrid(grid, (c, r)) ==>
              SetCell(grid, cell, v)[c][r] == if (c, r) == cell then v else Empty
  {
  }
}

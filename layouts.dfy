/**
 * The fixed layouts of wms/warehouse.py, each built by writing the cells of an
 * `init_grid` result one by one and then constructing a `GridWarehouse`.
 */
module Layouts {
  import opened Coords
  import opened Tiles
  import opened Graphs
  import opened ServerGrid

  /** The simple 4 x 4 layout: a ring of aisle around a 2 x 2 block of shelves. */
  function SimpleSlot(c: int, r: int): Slot {
    if 1 <= c <= 2 && r == 1 then Shelving(South)
    else if 1 <= c <= 2 && r == 2 then Shelving(North)
    else Navigable
  }

  /** The larger 8 x 4 layout: aisle columns 0 and 7, shelf rows 1 and 2 in columns 1 to 6. */
  function LargerSlot(c: int, r: int): Slot {
    if 1 <= c <= 6 && r == 1 then Shelving(North)
    else if 1 <= c <= 6 && r == 2 then Shelving(South)
    else Navigable
  }

  /** `grid` holds `slot(c, r)` at every cell of a `width` x `height` grid. */
  ghost predicate Laid(grid: seq<seq<Slot>>, width: nat, height: nat, slot: (int, int) -> Slot) {
    Shaped(grid, width, height) && forall c, r :: 0 <= c < width && 0 <= r < height ==> grid[c][r] == slot(c, r)
  }

  /** `get_simple_warehouse` of wms/warehouse.py. */
  method SimpleWarehouse() returns (w: GridWarehouse)
    ensures w.dimensions == (4, 4) && Laid(w.grid, 4, 4, SimpleSlot)
    ensures Filled(w.grid) && GridGraph(w.grid, w.graph)
  {
    var dimensions := (4, 4);
    var grid := InitGrid(dimensions.0, dimensions.1);

    grid := grid[0 := grid[0][0 := Navigable]];
    grid := grid[0 := grid[0][1 := Navigable]];
    grid := grid[0 := grid[0][2 := Navigable]];
    grid := grid[0 := grid[0][3 := Navigable]];

    grid := grid[1 := grid[1][0 := Navigable]];
    grid := grid[1 := grid[1][1 := Shelving(South)]];
    grid := grid[1 := grid[1][2 := Shelving(North)]];
    grid := grid[1 := grid[1][3 := Navigable]];

    grid := grid[2 := grid[2][0 := Navigable]];
    grid := grid[2 := grid[2][1 := Shelving(South)]];
    grid := grid[2 := grid[2][2 := Shelving(North)]];
    grid := grid[2 := grid[2][3 := Navigable]];

    grid := grid[3 := grid[3][0 := Navigable]];
    grid := grid[3 := grid[3][1 := Navigable]];
    grid := grid[3 := grid[3][2 := Navigable]];
    grid := grid[3 := grid[3][3 := Navigable]];

    w := NewGridWarehouse(dimensions, grid);
  }

  /** `get_larger_warehouse` of wms/warehouse.py. */
  method LargerWarehouse() returns (w: GridWarehouse)
    ensures w.dimensions == (8, 4) && Laid(w.grid, 8, 4, LargerSlot)
    ensures Filled(w.grid) && GridGraph(w.grid, w.graph)
  {
    var dimensions := (8, 4);
    var grid := InitGrid(dimensions.0, dimensions.1);

    for rowNum := 0 to 4
      invariant Shaped(grid, 8, 4)
      invariant forall r :: 0 <= r < rowNum ==> grid[0][r] == Navigable
    {
      grid := SetCell(grid, (0, rowNum), Navigable);
    }

    for colNum := 1 to 7
      invariant Shaped(grid, 8, 4)
      invariant forall c, r :: 0 <= c < colNum && 0 <= r < 4 ==> grid[c][r] == LargerSlot(c, r)
    {
      grid := SetCell(grid, (colNum, 0), Navigable);
      grid := SetCell(grid, (colNum, 1), Shelving(North));
      grid := SetCell(grid, (colNum, 2), Shelving(South));
      grid := SetCell(grid, (colNum, 3), Navigable);
    }

    for rowNum := 0 to 4
      invariant Shaped(grid, 8, 4)
      invariant forall c, r :: 0 <= c < 7 && 0 <= r < 4 ==> grid[c][r] == LargerSlot(c, r)
      invariant forall r :: 0 <= r < rowNum ==> grid[7][r] == Navigable
    {
      grid := SetCell(grid, (7, rowNum), Navigable);
    }

    w := NewGridWarehouse(dimensions, grid);
  }

  /** The Georgia Tech library layout: the larger layout's four rows repeated four times. */
  function LibrarySlot(c: int, r: int): Slot {
    LargerSlot(c, r % 4)
  }

  /**
   * `get_georgia_tech_library_warehouse`: an 8 x 16 grid whose cell `(c, r)`
   * is a copy of cell `(c, r % 4)` of the larger layout.
   */
  method LibraryWarehouse() returns (w: GridWarehouse)
    ensures w.dimensions == (8, 16) && Laid(w.grid, 8, 16, LibrarySlot)
    ensures Filled(w.grid) && GridGraph(w.grid, w.graph)
  {
    var largerWarehouse := LargerWarehouse();
    var largerWarehouseGrid := largerWarehouse.grid;

    var dimensions := (8, 16);
    var grid := InitGrid(dimensions.0, dimensions.1);

    for colNum := 0 to 8
      invariant Shaped(grid, 8, 16)
      invariant forall c, r :: 0 <= c < colNum && 0 <= r < 16 ==> grid[c][r] == LibrarySlot(c, r)
    {
      for rowNum := 0 to 16
        invariant Shaped(grid, 8, 16)
        invariant forall c, r :: 0 <= c < colNum && 0 <= r < 16 ==> grid[c][r] == LibrarySlot(c, r)
        invariant forall r :: 0 <= r < rowNum ==> grid[colNum][r] == LibrarySlot(colNum, r)
      {
        grid := SetCell(grid, (colNum, rowNum), largerWarehouseGrid[colNum][rowNum % 4]);
      }
    }

    w := NewGridWarehouse(dimensions, grid);
  }

  /** The cells of `grid` holding a `NavigableTileCell`. */
  ghost function NavigableCells(grid: seq<seq<Slot>>): set<Cell> {
    set c, r | 0 <= c < |grid| && 0 <= r < |grid[c]| && grid[c][r] == Navigable :: (c, r)
  }

  /** The cells of `grid` holding a `ShelvingCell`. */
  ghost function ShelfCells(grid: seq<seq<Slot>>): set<Cell> {
    set c, r | 0 <= c < |grid| && 0 <= r < |grid[c]| && grid[c][r].Shelving? :: (c, r)
  }

  /** The nodes of a `_construct_graph` graph are as many as the navigable cells. */
  lemma GraphNodeCount(grid: seq<seq<Slot>>, g: GridWarehouse)
    requires GridGraph(grid, g.graph)
    ensures |g.graph.nodes| == |NavigableCells(grid)|
  {
    assert SetOf(g.graph.nodes) == NavigableCells(grid) by {
      forall x ensures x in SetOf(g.graph.nodes) <==> x in NavigableCells(grid) {
        if x in NavigableCells(grid) {
          assert NavigableAt(grid, x);
        }
      }
    }
    DistinctCard(g.graph.nodes);
  }

  /** A 4 x 4 grid of aisle around a 2 x 2 block of shelves, shelves facing any way. */
  ghost predicate RingLayout(grid: seq<seq<Slot>>) {
    Shaped(grid, 4, 4)
    && forall c, r :: 0 <= c < 4 && 0 <= r < 4 ==>
         if 1 <= c <= 2 && 1 <= r <= 2 then grid[c][r].Shelving? else grid[c][r] == Navigable
  }

  /** The simple layout of wms/warehouse.py is such a ring. */
  lemma SimpleIsRing(grid: seq<seq<Slot>>)
    requires Laid(grid, 4, 4, SimpleSlot)
    ensures RingLayout(grid)
  {
  }

  /** The shelves of a ring layout. */
  lemma RingShelves(grid: seq<seq<Slot>>)
    requires RingLayout(grid)
    ensures ShelfCells(grid) == {(1, 1), (1, 2), (2, 1), (2, 2)}
  {
    forall x ensures x in ShelfCells(grid) <==> x in {(1, 1), (1, 2), (2, 1), (2, 2)} {
      if x in ShelfCells(grid) {
        assert 0 <= x.0 < 4 && 0 <= x.1 < 4 && grid[x.0][x.1].Shelving?;
      }
    }
  }

  /** The aisle cells of a ring layout. */
  lemma RingAisle(grid: seq<seq<Slot>>)
    requires RingLayout(grid)
    ensures NavigableCells(grid) == {(0, 0), (0, 1), (0, 2), (0, 3), (1, 0), (1, 3), (2, 0), (2, 3), (3, 0), (3, 1), (3, 2), (3, 3)}
  {
    forall x ensures x in NavigableCells(grid) <==> x in {(0, 0), (0, 1), (0, 2), (0, 3), (1, 0), (1, 3), (2, 0), (2, 3), (3, 0), (3, 1), (3, 2), (3, 3)} {
      if x in NavigableCells(grid) {
        assert 0 <= x.0 < 4 && 0 <= x.1 < 4 && grid[x.0][x.1] == Navigable;
      }
    }
  }

  /** A ring layout has 4 shelves and 12 navigable cells, the nodes of its graph. */
  lemma RingCounts(w: GridWarehouse)
    requires RingLayout(w.grid) && GridGraph(w.grid, w.graph)
    ensures |ShelfCells(w.grid)| == 4 && |NavigableCells(w.grid)| == 12 && |w.graph.nodes| == 12
  {
    RingShelves(w.grid);
    RingAisle(w.grid);
    RingSizes();
    GraphNodeCount(w.grid, w);
  }

  lemma RingSizes()
    ensures |{(1, 1), (1, 2), (2, 1), (2, 2)}| == 4
    ensures |{(0, 0), (0, 1), (0, 2), (0, 3), (1, 0), (1, 3), (2, 0), (2, 3), (3, 0), (3, 1), (3, 2), (3, 3)}| == 12
  {
  }
}

/**
 * The layouts of warehouse.py, the earlier server whose `GridWarehouse` is
 * the one of models.py: straight-line writes into an `init_grid` result.
 */
module LegacyLayouts {
  import opened Coords
  import opened Tiles
  import opened ServerGrid
  import opened Layouts

  /** The simple layout of warehouse.py: the shelves of column 1 face south, those of column 2 north. */
  function SimpleSlot(c: int, r: int): Slot {
    if 1 <= r <= 2 && c == 1 then Shelving(South)
    else if 1 <= r <= 2 && c == 2 then Shelving(North)
    else Navigable
  }

  /** The larger 4 x 8 layout: aisle columns 0 and 3 and rows 0 and 7, shelf columns 1 and 2 in between. */
  function LargerSlot(c: int, r: int): Slot {
    if 1 <= r <= 6 && c == 1 then Shelving(South)
    else if 1 <= r <= 6 && c == 2 then Shelving(North)
    else Navigable
  }

  /** `get_simple_warehouse` of warehouse.py. */
  method SimpleWarehouse() returns (w: GridWarehouse)
    ensures w.dimensions == (4, 4) && Laid(w.grid, 4, 4, SimpleSlot)
    ensures Filled(w.grid) && GridGraph(w.grid, w.graph)
  {
    var dimensions := (4, 4);
    var grid := InitGrid(dimensions.0, dimensions.1);

    grid := grid[0 := grid[0][0 := Navigable]];
    grid := grid[0 := grid[0][1 := Navigable]];
    grid := grid[0 := grid[0][2 := Navigable]];
    grid := grid[0 := grid[0][3 := Navigable]];

    grid := grid[1 := grid[1][0 := Navigable]];
    grid := grid[1 := grid[1][1 := Shelving(South)]];
    grid := grid[1 := grid[1][2 := Shelving(South)]];
    grid := grid[1 := grid[1][3 := Navigable]];

    grid := grid[2 := grid[2][0 := Navigable]];
    grid := grid[2 := grid[2][1 := Shelving(North)]];
    grid := grid[2 := grid[2][2 := Shelving(North)]];
    grid := grid[2 := grid[2][3 := Navigable]];

    grid := grid[3 := grid[3][0 := Navigable]];
    grid := grid[3 := grid[3][1 := Navigable]];
    grid := grid[3 := grid[3][2 := Navigable]];
    grid := grid[3 := grid[3][3 := Navigable]];

    w := NewGridWarehouse(dimensions, grid);
  }

  /** The simple layout of warehouse.py is a ring of 12 aisle cells around 4 shelves, as its doc comment says. */
  lemma SimpleCounts(w: GridWarehouse)
    requires Laid(w.grid, 4, 4, SimpleSlot) && GridGraph(w.grid, w.graph)
    ensures |ShelfCells(w.grid)| == 4 && |NavigableCells(w.grid)| == 12 && |w.graph.nodes| == 12
  {
    assert RingLayout(w.grid);
    RingCounts(w);
  }

  /** `get_larger_warehouse` of warehouse.py. */
  method LargerWarehouse() returns (w: GridWarehouse)
    ensures w.dimensions == (4, 8) && Laid(w.grid, 4, 8, LargerSlot)
    ensures Filled(w.grid) && GridGraph(w.grid, w.graph)
  {
    var dimensions := (4, 8);
    var grid := InitGrid(dimensions.0, dimensions.1);

    grid := grid[0 := grid[0][0 := Navigable]];
    grid := grid[0 := grid[0][1 := Navigable]];
    grid := grid[0 := grid[0][2 := Navigable]];
    grid := grid[0 := grid[0][3 := Navigable]];
    grid := grid[0 := grid[0][4 := Navigable]];
    grid := grid[0 := grid[0][5 := Navigable]];
    grid := grid[0 := grid[0][6 := Navigable]];
    grid := grid[0 := grid[0][7 := Navigable]];

    grid := grid[1 := grid[1][0 := Navigable]];
    grid := grid[1 := grid[1][1 := Shelving(South)]];
    grid := grid[1 := grid[1][2 := Shelving(South)]];
    grid := grid[1 := grid[1][3 := Shelving(South)]];
    grid := grid[1 := grid[1][4 := Shelving(South)]];
    grid := grid[1 := grid[1][5 := Shelving(South)]];
    grid := grid[1 := grid[1][6 := Shelving(South)]];
    grid := grid[1 := grid[1][7 := Navigable]];

    grid := grid[2 := grid[2][0 := Navigable]];
    grid := grid[2 := grid[2][1 := Shelving(North)]];
    grid := grid[2 := grid[2][2 := Shelving(North)]];
    grid := grid[2 := grid[2][3 := Shelving(North)]];
    grid := grid[2 := grid[2][4 := Shelving(North)]];
    grid := grid[2 := grid[2][5 := Shelving(North)]];
    grid := grid[2 := grid[2][6 := Shelving(North)]];
    grid := grid[2 := grid[2][7 := Navigable]];

    grid := grid[3 := grid[3][0 := Navigable]];
    grid := grid[3 := grid[3][1 := Navigable]];
    grid := grid[3 := grid[3][2 := Navigable]];
    grid := grid[3 := grid[3][3 := Navigable]];
    grid := grid[3 := grid[3][4 := Navigable]];
    grid := grid[3 := grid[3][5 := Navigable]];
    grid := grid[3 := grid[3][6 := Navigable]];
    grid := grid[3 := grid[3][7 := Navigable]];

    w := NewGridWarehouse(dimensions, grid);
  }
}

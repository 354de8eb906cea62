/**
 * The server's `GridWarehouse`: a column-major grid of slots and the networkx
 * graph built from it, whose nodes are the navigable cells and whose edges join
 * orthogonally adjacent navigable cells. wms/models.py and its earlier copy
 * models.py share this logic; the earlier copy attaches no weight to its edges,
 * which networkx reads as weight 1.
 */
module ServerGrid {
  import opened Coords
  import opened Tiles
  import opened Graphs
  import opened Results
  import opened Text

  datatype GridWarehouse = GridWarehouse(dimensions: (int, int), grid: seq<seq<Slot>>, graph: Graph)

  /** The grid has the declared dimensions, as every layout builds it with `init_grid(dimensions)`. */
  predicate WellFormed(dimensions: (int, int), grid: seq<seq<Slot>>) {
    Shaped(grid, dimensions.0, dimensions.1)
  }

  /** `x` lies in the grid and holds a `NavigableTileCell`. */
  predicate NavigableAt(grid: seq<seq<Slot>>, x: Cell) {
    InGrid(grid, x) && grid[x.0][x.1] == Navigable
  }

  /** The four neighbour offsets in the order they are examined. */
  const Offsets: seq<(int, int)> := [(-1, 0), (0, 1), (1, 0), (0, -1)]

  function Shift(x: Cell, offset: (int, int)): Cell {
    (x.0 + offset.0, x.1 + offset.1)
  }

  /** The navigable cells among `origin` shifted by each of `offsets`, in the order of `offsets`. */
  function NavigableShifts(grid: seq<seq<Slot>>, origin: Cell, offsets: seq<(int, int)>): seq<Cell> {
    if offsets == [] then []
    else
      var rest := NavigableShifts(grid, origin, offsets[..|offsets| - 1]);
      var n := Shift(origin, offsets[|offsets| - 1]);
      if NavigableAt(grid, n) then rest + [n] else rest
  }

  /** `x` is `origin` shifted by one of `offsets`. */
  predicate ShiftedBy(origin: Cell, offsets: seq<(int, int)>, x: Cell) {
    exists k :: 0 <= k < |offsets| && x == Shift(origin, offsets[k])
  }

  lemma {:induction false} NavigableShiftsMembers(grid: seq<seq<Slot>>, origin: Cell, offsets: seq<(int, int)>)
    ensures |NavigableShifts(grid, origin, offsets)| <= |offsets|
    ensures forall x :: x in NavigableShifts(grid, origin, offsets) <==>
              NavigableAt(grid, x) && ShiftedBy(origin, offsets, x)
  {
    if offsets != [] {
      var init := offsets[..|offsets| - 1];
      NavigableShiftsMembers(grid, origin, init);
      forall x ensures ShiftedBy(origin, offsets, x) <==>
                       ShiftedBy(origin, init, x) || x == Shift(origin, offsets[|offsets| - 1])
      {
        if ShiftedBy(origin, offsets, x) {
          var k :| 0 <= k < |offsets| && x == Shift(origin, offsets[k]);
          if k < |init| { assert init[k] == offsets[k]; }
        }
        if ShiftedBy(origin, init, x) {
          var k :| 0 <= k < |init| && x == Shift(origin, init[k]);
          assert offsets[k] == init[k];
        }
      }
    }
  }

  /** The cells at Manhattan distance 1 are exactly the four offset shifts. */
  lemma AdjacentIsOffset(origin: Cell, x: Cell)
    ensures Adjacent(origin, x) <==> ShiftedBy(origin, Offsets, x)
  {
    if Adjacent(origin, x) {
      if x.0 == origin.0 - 1 { assert x == Shift(origin, Offsets[0]); }
      else if x.1 == origin.1 + 1 { assert x == Shift(origin, Offsets[1]); }
      else if x.0 == origin.0 + 1 { assert x == Shift(origin, Offsets[2]); }
      else { assert x == Shift(origin, Offsets[3]); }
    }
  }

  /**
   * `_get_neighboring_navigation_cells`: the in-bounds navigable cells next to
   * `origin`, examined in the offset order (-1, 0), (0, +1), (+1, 0), (0, -1).
   */
  method NeighboringNavigationCells(dimensions: (int, int), grid: seq<seq<Slot>>, origin: Cell)
    returns (neighbors: seq<Cell>)
    requires WellFormed(dimensions, grid)
    ensures neighbors == NavigableShifts(grid, origin, Offsets)
    ensures |neighbors| <= 4
    ensures forall x :: x in neighbors <==> NavigableAt(grid, x) && Adjacent(origin, x)
  {
    neighbors := [];
    for k := 0 to |Offsets|
      invariant neighbors == NavigableShifts(grid, origin, Offsets[..k])
    {
      var (offsetX, offsetY) := Offsets[k];
      var n := (origin.0 + offsetX, origin.1 + offsetY);
      assert Offsets[..k + 1][..k] == Offsets[..k];
      if n.0 < 0 || n.0 >= dimensions.0 {
      } else if n.1 < 0 || n.1 >= dimensions.1 {
      } else if grid[n.0][n.1] != Navigable {
      } else {
        neighbors := neighbors + [n];
      }
    }
    assert Offsets[..|Offsets|] == Offsets;
    NavigableShiftsMembers(grid, origin, Offsets);
    forall x ensures x in neighbors <==> NavigableAt(grid, x) && Adjacent(origin, x) {
      AdjacentIsOffset(origin, x);
    }
  }

  /** Column-major order: by column, then by row; the order in which the grid is walked. */
  predicate ColumnMajorBefore(a: Cell, b: Cell) {
    a.0 < b.0 || (a.0 == b.0 && a.1 < b.1)
  }

  /** Two navigable cells side by side: an edge of the warehouse graph. */
  predicate GridEdge(grid: seq<seq<Slot>>, u: Cell, v: Cell) {
    NavigableAt(grid, u) && NavigableAt(grid, v) && Adjacent(u, v)
  }

  /** The graph `_construct_graph` builds from `grid`. */
  ghost predicate GridGraph(grid: seq<seq<Slot>>, g: Graph) {
    && Valid(g)
    && (forall x :: x in g.nodes <==> NavigableAt(grid, x))
    && (forall i, j :: 0 <= i < j < |g.nodes| ==> ColumnMajorBefore(g.nodes[i], g.nodes[j]))
    && (forall u, v :: (u, v) in g.weight <==> GridEdge(grid, u, v))
    && (forall e :: e in g.weight ==> g.weight[e] == 1)
  }

  /** The nodes of the graph after the first pass of `_construct_graph`. */
  ghost predicate NodePass(grid: seq<seq<Slot>>, g: Graph) {
    && (forall x :: x in g.nodes <==> NavigableAt(grid, x))
    && (forall a, b :: 0 <= a < b < |g.nodes| ==> ColumnMajorBefore(g.nodes[a], g.nodes[b]))
  }

  /**
   * `_construct_graph`: a first pass adds every navigable cell as a node in
   * column-major order; a second pass adds an edge of weight 1 from every
   * navigable cell to each of its navigable neighbours.
   */
  method ConstructGraph(dimensions: (int, int), grid: seq<seq<Slot>>) returns (graph: Graph)
    requires WellFormed(dimensions, grid)
    ensures GridGraph(grid, graph)
  {
    graph := AddNavigableNodes(grid);
    graph := AddNeighborEdges(dimensions, grid, graph);
    forall a, b | 0 <= a < b < |graph.nodes| ensures graph.nodes[a] != graph.nodes[b] {
      assert ColumnMajorBefore(graph.nodes[a], graph.nodes[b]);
    }
    forall e | e in graph.weight
      ensures e.0 in graph.nodes && e.1 in graph.nodes
      ensures (e.1, e.0) in graph.weight && graph.weight[(e.1, e.0)] == graph.weight[e]
    {
      assert GridEdge(grid, e.0, e.1);
      ManhattanSymmetric(e.0, e.1);
      assert GridEdge(grid, e.1, e.0);
    }
  }

  /** The first pass of `_construct_graph`: every navigable cell becomes a node. */
  method AddNavigableNodes(grid: seq<seq<Slot>>) returns (graph: Graph)
    ensures graph.weight == map[]
    ensures NodePass(grid, graph)
  {
    graph := EmptyGraph;
    for i := 0 to |grid|
      invariant graph.weight == map[]
      invariant forall x :: x in graph.nodes <==> NavigableAt(grid, x) && ColumnMajorBefore(x, (i, 0))
      invariant forall a, b :: 0 <= a < b < |graph.nodes| ==> ColumnMajorBefore(graph.nodes[a], graph.nodes[b])
    {
      for j := 0 to |grid[i]|
        invariant graph.weight == map[]
        invariant forall x :: x in graph.nodes <==> NavigableAt(grid, x) && ColumnMajorBefore(x, (i, j))
        invariant forall a, b :: 0 <= a < b < |graph.nodes| ==> ColumnMajorBefore(graph.nodes[a], graph.nodes[b])
      {
        if grid[i][j] == Navigable {
          graph := AddNode(graph, (i, j));
        }
      }
    }
  }

  /** The edges added while walking the grid up to (excluding) `bound`: those with an endpoint before it. */
  ghost predicate EdgesBefore(grid: seq<seq<Slot>>, g: Graph, bound: Cell) {
    forall u, v :: (u, v) in g.weight <==>
      GridEdge(grid, u, v) && (ColumnMajorBefore(u, bound) || ColumnMajorBefore(v, bound))
  }

  predicate UnitWeights(g: Graph) {
    forall e :: e in g.weight ==> g.weight[e] == 1
  }

  /** The second pass of `_construct_graph`: an edge to every navigable neighbour of every navigable cell. */
  method AddNeighborEdges(dimensions: (int, int), grid: seq<seq<Slot>>, g: Graph) returns (graph: Graph)
    requires WellFormed(dimensions, grid)
    requires g.weight == map[] && NodePass(grid, g)
    ensures graph.nodes == g.nodes
    ensures forall u, v :: (u, v) in graph.weight <==> GridEdge(grid, u, v)
    ensures UnitWeights(graph)
  {
    graph := g;
    for i := 0 to |grid|
      invariant graph.nodes == g.nodes && UnitWeights(graph)
      invariant EdgesBefore(grid, graph, (i, 0))
    {
      for j := 0 to |grid[i]|
        invariant graph.nodes == g.nodes && UnitWeights(graph)
        invariant EdgesBefore(grid, graph, (i, j))
      {
        if grid[i][j] == Navigable {
          var cell := (i, j);
          var neighborCoordinates := NeighboringNavigationCells(dimensions, grid, cell);
          ghost var before := graph;
          graph := AddCellEdges(graph, cell, neighborCoordinates);
          EdgesAfterCell(grid, before, graph, cell, neighborCoordinates);
        } else {
          EdgesPastShelving(grid, graph, (i, j));
        }
      }
      EdgesNextColumn(grid, graph, i);
    }
    forall u, v ensures (u, v) in graph.weight <==> GridEdge(grid, u, v) {
      if GridEdge(grid, u, v) {
        assert ColumnMajorBefore(u, (|grid|, 0));
      }
    }
  }

  /** `for neighbor in neighbor_coordinates: graph.add_edge(cell, neighbor, weight=1)`. */
  method AddCellEdges(g: Graph, cell: Cell, neighbors: seq<Cell>) returns (graph: Graph)
    requires cell in g.nodes && forall n :: n in neighbors ==> n in g.nodes
    requires UnitWeights(g)
    ensures graph.nodes == g.nodes && UnitWeights(graph)
    ensures forall u, v :: (u, v) in graph.weight <==>
              (u, v) in g.weight || (u == cell && v in neighbors) || (v == cell && u in neighbors)
  {
    graph := g;
    for k := 0 to |neighbors|
      invariant graph.nodes == g.nodes && UnitWeights(graph)
      invariant forall u, v :: (u, v) in graph.weight <==>
                  (u, v) in g.weight || (u == cell && v in neighbors[..k]) || (v == cell && u in neighbors[..k])
    {
      assert neighbors[..k + 1] == neighbors[..k] + [neighbors[k]];
      graph := AddEdge(graph, cell, neighbors[k], 1);
    }
    assert neighbors[..|neighbors|] == neighbors;
  }

  lemma EdgesAfterCell(grid: seq<seq<Slot>>, before: Graph, after: Graph, cell: Cell, neighbors: seq<Cell>)
    requires EdgesBefore(grid, before, cell) && NavigableAt(grid, cell)
    requires forall x :: x in neighbors <==> NavigableAt(grid, x) && Adjacent(cell, x)
    requires forall u, v :: (u, v) in after.weight <==>
               (u, v) in before.weight || (u == cell && v in neighbors) || (v == cell && u in neighbors)
    ensures EdgesBefore(grid, after, (cell.0, cell.1 + 1))
  {
    forall u, v
      ensures (u, v) in after.weight <==>
        GridEdge(grid, u, v) && (ColumnMajorBefore(u, (cell.0, cell.1 + 1)) || ColumnMajorBefore(v, (cell.0, cell.1 + 1)))
    {
      ManhattanSymmetric(u, v);
    }
  }

  lemma EdgesPastShelving(grid: seq<seq<Slot>>, g: Graph, cell: Cell)
    requires EdgesBefore(grid, g, cell) && InGrid(grid, cell) && !NavigableAt(grid, cell)
    ensures EdgesBefore(grid, g, (cell.0, cell.1 + 1))
  {
  }

  lemma EdgesNextColumn(grid: seq<seq<Slot>>, g: Graph, i: int)
    requires 0 <= i < |grid| && EdgesBefore(grid, g, (i, |grid[i]|))
    ensures EdgesBefore(grid, g, (i + 1, 0))
  {
  }

  /** The `GridWarehouse(dimensions, grid)` constructor: keeps both and builds the graph. */
  method NewGridWarehouse(dimensions: (int, int), grid: seq<seq<Slot>>) returns (w: GridWarehouse)
    requires WellFormed(dimensions, grid)
    ensures w.dimensions == dimensions && w.grid == grid
    ensures GridGraph(grid, w.graph)
  {
    var graph := ConstructGraph(dimensions, grid);
    w := GridWarehouse(dimensions, grid, graph);
  }

  /** Simple facts every `_construct_graph` graph has: undirected, no self-loop, no edge at a non-navigable cell. */
  lemma GridGraphEdges(grid: seq<seq<Slot>>, g: Graph, u: Cell, v: Cell)
    requires GridGraph(grid, g)
    requires (u, v) in g.weight
    ensures (v, u) in g.weight && g.weight[(u, v)] == 1
    ensures u != v && NavigableAt(grid, u) && NavigableAt(grid, v)
  {
  }

  /** A node of a grid graph has at most four neighbours. */
  lemma GridDegreeAtMostFour(grid: seq<seq<Slot>>, g: Graph, v: Cell)
    requires GridGraph(grid, g)
    ensures Degree(g, v) <= 4
  {
    var around := {Shift(v, Offsets[0]), Shift(v, Offsets[1]), Shift(v, Offsets[2]), Shift(v, Offsets[3])};
    forall u | u in Neighbors(g, v) ensures u in around {
      AdjacentIsOffset(v, u);
      var k :| 0 <= k < |Offsets| && u == Shift(v, Offsets[k]);
    }
    SubsetCard(Neighbors(g, v), around);
    assert (v, v) !in g.weight;
  }

  /**
   * `distance`, the admissible heuristic of the warehouse, returns the Manhattan
   * distance, and it never overestimates: any walk in the grid graph is at least
   * that many steps long.
   */
  lemma {:induction false} DistanceAdmissible(grid: seq<seq<Slot>>, g: Graph, p: seq<Cell>)
    requires GridGraph(grid, g)
    requires |p| >= 1 && IsWalk(g, p)
    ensures Manhattan(p[0], p[|p| - 1]) <= |p| - 1
  {
    if |p| > 1 {
      var rest := p[1..];
      assert IsWalk(g, rest) by {
        forall k | 0 <= k < |rest| - 1 ensures (rest[k], rest[k + 1]) in g.weight {
          assert (p[k + 1], p[k + 2]) in g.weight;
        }
      }
      DistanceAdmissible(grid, g, rest);
      assert (p[0], p[1]) in g.weight;
      assert Adjacent(p[0], p[1]);
      ManhattanTriangle(p[0], p[1], p[|p| - 1]);
    }
  }

  /** The `TypeError` that `__str__` raises for a slot holding neither kind of cell. */
  datatype RenderError = UnknownCellType

  /** The symbol `__str__` prints for a cell: `+` navigable, `x` shelving. */
  function Symbol(s: Slot): string
    requires s != Empty
  {
    if s == Navigable then "+" else "x"
  }

  /** The line of one column: its symbols joined by tabs, then a line break. */
  function ColumnLine(column: seq<Slot>): string
    requires forall r :: 0 <= r < |column| ==> column[r] != Empty
  {
    Join("\t", Symbols(column)) + "\n"
  }

  function Symbols(column: seq<Slot>): (s: seq<string>)
    requires forall r :: 0 <= r < |column| ==> column[r] != Empty
    ensures |s| == |column| && forall r :: 0 <= r < |column| ==> s[r] == Symbol(column[r])
  {
    seq(|column|, r requires 0 <= r < |column| => Symbol(column[r]))
  }

  function Lines(grid: seq<seq<Slot>>): (s: seq<string>)
    requires Filled(grid)
    ensures |s| == |grid| && forall c :: 0 <= c < |grid| ==> s[c] == ColumnLine(grid[c])
  {
    seq(|grid|, c requires 0 <= c < |grid| => ColumnLine(grid[c]))
  }

  /** The lines of all columns, in column order. */
  function Body(grid: seq<seq<Slot>>): string
    requires Filled(grid)
  {
    Concat(Lines(grid))
  }

  /** The first line; it labels the width "height" and the height "width". */
  function Header(dimensions: (int, int)): string {
    "Grid Warehouse (" + IntToDecimal(dimensions.0) + " height x " + IntToDecimal(dimensions.1) + " width)\n"
  }

  /** `__str__`: the header, then one line per column; a `None` slot raises `TypeError`. */
  method Render(w: GridWarehouse) returns (r: Result<string, RenderError>)
    ensures r.Failure? <==> !Filled(w.grid)
    ensures r.Success? ==> r.value == Header(w.dimensions) + Body(w.grid)
  {
    var rowStrings: seq<string> := [];
    for i := 0 to |w.grid|
      invariant forall c, r :: 0 <= c < i && 0 <= r < |w.grid[c]| ==> w.grid[c][r] != Empty
      invariant |rowStrings| == i
      invariant forall c :: 0 <= c < i ==> rowStrings[c] == ColumnLine(w.grid[c])
    {
      var column := w.grid[i];
      var columnStrings: seq<string> := [];
      for j := 0 to |column|
        invariant |columnStrings| == j
        invariant forall r :: 0 <= r < j ==> column[r] != Empty && columnStrings[r] == Symbol(column[r])
      {
        var cell := column[j];
        if cell == Navigable {
          columnStrings := columnStrings + ["+"];
        } else if cell.Shelving? {
          columnStrings := columnStrings + ["x"];
        } else {
          assert !Filled(w.grid) by { assert w.grid[i][j] == Empty; }
          return Failure(UnknownCellType);
        }
      }
      assert columnStrings == Symbols(column);
      rowStrings := rowStrings + [Join("\t", columnStrings) + "\n"];
    }
    assert Filled(w.grid);
    assert rowStrings == Lines(w.grid);
    r := Success(Header(w.dimensions) + Concat(rowStrings));
  }

  /**
   * The line of a column of height h > 0 is 2h characters: the symbol of row k
   * at position 2k, a tab after every symbol but the last, a line break at the end.
   */
  lemma ColumnLineLayout(column: seq<Slot>)
    requires forall r :: 0 <= r < |column| ==> column[r] != Empty
    ensures |ColumnLine(column)| == if |column| == 0 then 1 else 2 * |column|
    ensures forall r :: 0 <= r < |column| ==> ColumnLine(column)[2 * r] == Symbol(column[r])[0]
    ensures forall r :: 0 <= r < |column| - 1 ==> ColumnLine(column)[2 * r + 1] == '\t'
    ensures ColumnLine(column)[|ColumnLine(column)| - 1] == '\n'
    ensures Newlines(ColumnLine(column)) == 1
  {
    var parts := Symbols(column);
    JoinSingles('\t', parts);
    var joined := Join("\t", parts);
    assert ColumnLine(column) == joined + "\n";
    forall k | 0 <= k < |joined| ensures joined[k] != '\n' {
      if k % 2 == 0 { assert joined[2 * (k / 2)] == parts[k / 2][0]; }
      else { assert joined[2 * (k / 2) + 1] == '\t'; }
    }
    NoNewlines(joined);
    NewlinesAppend(joined, "\n");
  }

  /** `__str__` prints exactly one line per column after its header. */
  lemma {:induction false} BodyLines(grid: seq<seq<Slot>>)
    requires Filled(grid)
    ensures Newlines(Body(grid)) == |grid|
  {
    var lines := Lines(grid);
    if grid != [] {
      var rest := grid[1..];
      assert Filled(rest) by {
        forall c, r | 0 <= c < |rest| && 0 <= r < |rest[c]| ensures rest[c][r] != Empty {
          assert rest[c] == grid[c + 1];
        }
      }
      BodyLines(rest);
      assert lines[1..] == Lines(rest);
      assert Body(grid) == ColumnLine(grid[0]) + Body(rest);
      ColumnLineLayout(grid[0]);
      NewlinesAppend(ColumnLine(grid[0]), Body(rest));
    }
  }
}

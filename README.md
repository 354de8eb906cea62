# Warehouse navigator, modelled in Dafny

A grid warehouse is a column-major grid of cells. `grid[col][row]` is either a
navigable floor tile or a shelf facing one of four directions. The Python
server turns the grid into a graph. The graph's nodes are the navigable
cells. Its edges join orthogonally adjacent navigable cells, with weight 1.
The server answers two kinds of request:

- shortest paths, computed by networkx;
- pick paths, which visit a list of cells and return to the start. A pick
  path runs a Christofides-style tour over a complete Manhattan-weighted
  graph of the cells, then stitches shortest paths between consecutive
  stops. As written, the tour's last step searches the wrong graph and can
  find nothing; the model records that and uses a corrected search.

The browser client keeps its own grid of cell types. It seeds that grid
from the server's node-link graph, paints each returned path into it in
place, and lays the cells out as pixel rectangles for D3.

The project has these modules:

- `Results`: `Option` and `Result`, standing for `None` and raised errors.
- `Coords`: cells, Manhattan distance, grid shapes, and the single-cell
  write `grid[c][r] = v`.
- `Tiles`: the server's cell classes and `init_grid`.
- `Graphs`: the part of networkx's `Graph` that the server uses.
  - `add_node`, `add_edge`, degree, `subgraph` and walks.
  - Both orientations of an undirected edge are stored, with one weight.
  - The handshake lemma: degrees sum to twice the number of edges.
- `Text`: joining strings and counting line breaks.
- `ServerGrid`: `GridWarehouse` of wms/models.py.
  - The neighbour lookup, `_construct_graph`, `distance` and `__str__`.
  - models.py is an earlier copy of the same class; one set of members
    models both.
- `Tsp`: wms/tsp.py.
  - Odd-degree nodes, the greedy matching and adding it to the tree.
  - The backtracking Hamiltonian-circuit search over a mutable path.
  - `tsp_circuit` as written, and the star-shaped trees for which its
    circuit search on the augmented tree finds nothing.
  - A corrected `tsp_circuit` whose circuit search runs on the input graph
    (see "## Findings").
- `PickPath`: `find_path` and `find_pick_path` of wms/models.py.
  - `find_pick_path` uses the corrected tour search. A concrete request for
    which the code as written raises `ValueError` is proved separately.
- `Layouts`: the layouts of wms/warehouse.py.
- `LegacyLayouts`: the layouts of the earlier warehouse.py.
- `ClientGrid`: static/grid.js.

Three things from networkx become parameters of the model, each with the
least contract the code relies on:

| networkx call | parameter | assumed contract |
|---|---|---|
| `minimum_spanning_tree` | `mst` | returns a spanning subgraph of its argument |
| `shortest_path` | `sp` | returns `None` for a raised error; otherwise a walk of the graph from its first argument to its second |
| `node_link_data` | the `NodeLinkData` value the client receives | none |

In the client model:

- the objects `loadWarehouse`, `findPath` and `findPickPath` update become
  the fields of the `ClientGrid.GridWarehouse` class;
- each AJAX call's `done` callback becomes the method that receives its
  data.

## Model

| member | source | states |
|---|---|---|
| Coords.Manhattan | wms/utils.py:16-19 | The Manhattan distance is zero exactly when the two cells are equal. |
| Coords.ManhattanSymmetric | wms/utils.py:16-19 | The distance is symmetric. |
| Coords.ManhattanTriangle | wms/utils.py:16-19 | The distance obeys the triangle inequality. |
| Coords.SetCell | wms/utils.py:10-12 | `grid[c][r] = v` changes that one cell and keeps the grid's shape, because every column is its own list. |
| Tiles.InitGrid | wms/utils.py:4-13 | The grid has `width` columns of `height` slots each, and every slot is `None`. utils.py:4-14 is an identical copy. |
| Tiles.InitGridWriteIsolated | utils.py:12-14 | After one write into a fresh grid, that cell holds the value and every other cell is still `None`: there is no aliasing between columns. |
| Graphs.AddNode | wms/models.py:86 | `add_node` adds a node once, at the end of the node order, and adding an existing node changes nothing. |
| Graphs.AddEdge | wms/models.py:99 | `add_edge` stores both orientations with the weight and adds missing endpoints as nodes. It replaces the weight of an existing edge and leaves other edges alone. |
| Graphs.AddEdgeValid | wms/models.py:99 | Adding an edge keeps the graph undirected, with distinct nodes. |
| Graphs.Induced | wms/tsp.py:29 | `subgraph(O)` keeps exactly the nodes in `O` and the edges between them, with their weights. |
| Graphs.HandshakeEven | wms/tsp.py:43-48 | The degrees of an undirected graph sum to twice its number of edges. An edge between two nodes is stored under both orientations and a self-loop once, so the count is half the non-loop pairs plus the loops. |
| ServerGrid.NeighboringNavigationCells | wms/models.py:103-129 | The result lists the navigable in-bounds cells at Manhattan distance 1 from the origin. It holds at most 4 cells, in the offset order (-1,0), (0,+1), (+1,0), (0,-1). The copy at models.py:64-90 is identical. |
| ServerGrid.AdjacentIsOffset | wms/models.py:104-109 | A cell is adjacent to the origin exactly when it is the origin shifted by one of the four offsets. |
| ServerGrid.AddNavigableNodes | wms/models.py:81-86 | The first pass adds exactly the navigable cells as nodes, in column-major order, and no edges. |
| ServerGrid.AddNeighborEdges | wms/models.py:88-99 | The second pass adds an edge for exactly the pairs of adjacent navigable cells, each with weight 1. |
| ServerGrid.AddCellEdges | wms/models.py:96-99 | The edges added for one cell are those to its listed neighbours, in both orientations. |
| ServerGrid.ConstructGraph | wms/models.py:78-101 | The graph is undirected. Its nodes are exactly the navigable cells, in column-major order. Its edges are exactly the adjacent navigable pairs, each with weight 1. In the copy at models.py:39-62 the edges carry networkx's default weight 1. |
| ServerGrid.NewGridWarehouse | wms/models.py:15-18 | The constructor stores the dimensions and the grid and builds the graph from the grid. |
| ServerGrid.GridGraphEdges | wms/models.py:89-99 | Every edge is symmetric and has weight 1. No edge is a self-loop, and no edge touches a shelving cell. The same holds for the copy at models.py:50-60. |
| ServerGrid.GridDegreeAtMostFour | wms/models.py:103-129 | Every node of the warehouse graph has degree at most 4. |
| ServerGrid.DistanceAdmissible | wms/models.py:56-60 | `distance` returns the Manhattan distance, and it is admissible: no walk in the warehouse graph is shorter than the Manhattan distance between its ends. |
| ServerGrid.Render | wms/models.py:62-76 | `__str__` fails with `TypeError` exactly when some slot holds neither kind of cell. Otherwise it gives the header followed by one line per column of tab-separated `+`/`x` symbols. The copy at models.py:21-37 is identical. |
| ServerGrid.ColumnLineLayout | wms/models.py:64-73 | A column of height h > 0 prints as 2h characters: row k's symbol at position 2k, a tab between symbols, and a line break at the end. |
| ServerGrid.BodyLines | models.py:23-37 | The body has exactly as many lines as the grid has columns. |
| Tsp.NodesWithOddDegree | wms/tsp.py:43-48 | The result is exactly the nodes of odd degree, in node order. |
| Tsp.OddDegreeMembers | wms/tsp.py:43-48 | A cell is selected exactly when it is a node of odd degree. |
| Tsp.OddDistinct | wms/tsp.py:43-48 | The selected nodes have no repeats. |
| Tsp.OddDegreeEven | wms/tsp.py:25-26 | An undirected graph has an even number of odd-degree nodes, so the matching never meets an odd count. |
| Tsp.Closest | wms/tsp.py:64-70 | The inner loop finds a partner exactly when some remaining node has an edge to `v`. That partner is connected to `v`, and its weight is minimal among the remaining nodes. |
| Tsp.MinWeightMatching | wms/tsp.py:51-73 | A success is a perfect matching of disjoint edges, each carrying its edge's weight, with n/2 triples chosen greedily. The odd-count error comes only for an odd node count. The no-partner error comes only for a graph that is not complete. A complete graph always succeeds with an even node count and always fails with the odd-count error with an odd one. |
| Tsp.MatchStep | wms/tsp.py:56-71 | One round removes `v` and its closest partner and keeps the triples disjoint and greedy. |
| Tsp.MatchStart | wms/tsp.py:52-54 | Before the first round no node is covered and the set of nodes has the graph's size. |
| Tsp.MatchDone | wms/tsp.py:56-73 | When no node remains, the triples form a perfect matching. |
| Tsp.MatchCovers | wms/tsp.py:70-71 | When no node remains, every node is an end of some triple. |
| Tsp.MatchDisjoint | wms/tsp.py:70-71 | Triples made from removed nodes share no end, and none is made twice. |
| Tsp.MatchEdges | wms/tsp.py:65-70 | Every triple joins two nodes by an edge and carries that edge's weight. |
| Tsp.AddMatchingToMst | wms/tsp.py:76-78 | Afterwards every matched pair is an edge, and every other edge keeps its weight. When the triples are disjoint, each pair carries exactly its triple's weight. |
| Tsp.AddedStep | wms/tsp.py:77-78 | Adding one more triple keeps that description true. |
| Tsp.DisjointWeights | wms/tsp.py:76-78 | For disjoint triples, no later triple overwrites an earlier pair's weight. |
| Tsp.HamPath.constructor | wms/tsp.py:82 | The path starts as `[source]`. |
| Tsp.HamPath.Append | wms/tsp.py:106 | `append` adds the node at the end. |
| Tsp.HamPath.Pop | wms/tsp.py:112 | `pop(len - 1)` removes the last node. |
| Tsp.HamiltonCircuitHelper | wms/tsp.py:92-114 | On `True` the path has been extended to a circuit through every node. On `False` the path is restored to what it was at the call, and no extension of that path exists. |
| Tsp.ExtendsShorter | wms/tsp.py:102-109 | A circuit through the path plus an allowed next node is a circuit through the path. |
| Tsp.ExtendsLonger | wms/tsp.py:102-109 | A circuit through the path passes through its next node, which the loop tries. |
| Tsp.MissingShrinks | wms/tsp.py:105-106 | Appending an unvisited node reduces the number of unvisited nodes, so the recursion ends. |
| Tsp.TourFromExtension | wms/tsp.py:94-98 | A circuit through `[source]` is a tour. It has length \|V\|+1, starts and ends at the source, its first \|V\| entries are distinct and cover V, and each step is an edge. |
| Tsp.ExtensionFromTour | wms/tsp.py:92-114 | Every tour is an extension of `[source]`, so the search misses none. |
| Tsp.HamiltonCircuit | wms/tsp.py:81-89 | A non-`None` result is a tour from the source, and `None` means the graph has no tour from the source. |
| Tsp.TourOfSupergraph | wms/tsp.py:35-38 | A tour of a spanning subgraph is a tour of the graph. |
| Tsp.AugmentedInside | wms/tsp.py:34-35 | The tree plus the matching on the odd nodes has the graph's nodes and only the graph's edges. |
| Tsp.InducedComplete | wms/tsp.py:29-32 | The subgraph of a complete graph is complete. |
| Tsp.MatchingFailure | wms/tsp.py:25-32 | The matching on the tree's odd-degree nodes can fail only because some node has no partner, and only when the graph is not complete. |
| Tsp.MatchOddNodes | wms/tsp.py:25-32 | A success is a perfect matching on the subgraph that the tree's odd-degree nodes induce. The only error is the no-partner one, and only when the graph is not complete. |
| Tsp.TspCircuit | wms/tsp.py:18-40 | As written. A tour found is a tour of the input graph. A success also yields the tree with a perfect matching added, and `None` comes exactly when that augmented graph has no tour from the source. The only error is the no-partner one, and only when the graph is not complete. |
| Tsp.TourNeighbours | wms/tsp.py:94-109 | On a tour of three or more nodes, the stops before and after each stop are two different neighbours of it. |
| Tsp.PendantNoTour | wms/tsp.py:94-109 | In a graph of three or more nodes, a node with a single neighbour rules out every tour, so the search returns `None`. |
| Tsp.PendantLeaf | wms/tsp.py:34-35 | When the tree is a star, the leaf matched with the centre still has the centre as its only neighbour after step 5, because the matched edge duplicates a tree edge. |
| Tsp.StarMatchingNoCircuit | wms/tsp.py:22-38 | If the tree is a star whose centre has odd degree, then for any perfect matching on the odd nodes the augmented tree has no tour. |
| Tsp.StarNoCircuit | wms/tsp.py:22-38 | No augmentation of a star tree with an odd-degree centre has a tour, so `tsp_circuit` returns `None` for it. |
| Tsp.StarFacts | wms/tsp.py:23 | A star on distinct cells is an undirected graph, a star at its centre, and the centre's degree is the number of leaves. |
| Tsp.StarSpans | wms/tsp.py:23 | On the complete Manhattan-weighted graph of a centre and its adjacent cells, the star of unit edges is a spanning subgraph. |
| Tsp.CrossNoCircuit | wms/tsp.py:22-38 | On the complete graph of (1,1), (0,1), (2,1) and (1,0), the unit star at (1,1) spans the graph with edges of weight 1, the three leaf-to-leaf edges weigh 2, and no augmentation of the star has a tour. |
| Tsp.CompleteHasTour | wms/tsp.py:81-89 | A complete graph has a tour from any of its nodes: the source, the other nodes in order, and the source again. A single node needs a self-loop. |
| Tsp.ClosedWalk | wms/tsp.py:94-109 | In a complete graph, distinct nodes listed from the source and back form a closed walk. |
| Tsp.CorrectedTspCircuit | wms/tsp.py:18-40 | Corrected: step 6 searches `G` itself. A tour found is a tour of `G`, and `None` means `G` has none. On a complete graph with two or more nodes, or with a self-loop at the source, a tour is always found. The error is as written. |
| PickPath.Dedup | wms/models.py:29-30 | Adding the nodes one by one keeps each distinct cell once. |
| PickPath.AddTspNodes | wms/models.py:28-30 | The TSP graph starts with the listed nodes and no edges. |
| PickPath.AddEdgesFrom | wms/models.py:33-35 | The inner loop adds the edges from position i to every other position, each weighted by distance. |
| PickPath.BuildTspGraph | wms/models.py:26-35 | The TSP graph is undirected and its nodes are the listed nodes. Its edges join exactly the pairs at two different positions of `[from_node] + intermediate_nodes`, weighted by Manhattan distance. |
| PickPath.PairedMeans | wms/models.py:32-35 | Two cells are joined exactly when both are listed and either they differ or the cell is listed twice. |
| PickPath.TspGraphComplete | wms/models.py:32-35 | The TSP graph is complete. |
| PickPath.FindPath | wms/models.py:20-21 | `find_path` returns a walk of the warehouse graph from the first cell to the second. |
| PickPath.GridPathSteps | models.py:18-19 | A walk of the warehouse graph moves between adjacent cells. |
| PickPath.StitchTour | wms/models.py:42-51 | The stitched path is a walk that passes through the tour's stops in order, from the first stop to the last. It fails only when some leg has no shortest path. |
| PickPath.StitchedCovers | wms/models.py:42-53 | Stitching a tour gives a path that starts and ends at `from_node` and visits every node. |
| PickPath.LoneNodeNoTour | wms/models.py:37-40 | A lone node without a self-loop has no tour, which is why an empty item list raises `ValueError`. |
| PickPath.TourPossible | wms/models.py:26-35 | With at least one item cell, the pick graph has a second node, or a self-loop at `from_node` when every item is that cell. |
| PickPath.PickTour | wms/models.py:26-40 | Steps 1 and 2, with the corrected tour search. A tour found is a tour of the pick graph from `from_node`, and a tour is missing exactly when the item list is empty. |
| PickPath.FindPickPath | wms/models.py:23-53 | With the corrected tour search. The pick graph is the one step 1 builds, and the stops are a tour of it from `from_node`. A result is a walk of the warehouse graph from `from_node` back to itself that passes through those stops in order and visits every listed cell. The `ValueError` for a missing tour comes exactly when the item list is empty; a leg without a shortest path fails as `NoPath`. |
| PickPath.CrossNodes | wms/models.py:27-30 | The request (1,1) with items (0,1), (2,1), (1,0) gives a pick graph on those four cells in that order. |
| PickPath.CrossGraph | wms/models.py:31-35 | That pick graph is complete, and each of its edges weighs at least one. |
| PickPath.CrossPickNoCircuit | wms/models.py:23-40 | For that request, the unit star at (1,1) spans the pick graph. Its edges weigh 1, every other edge weighs 2, so it is the only spanning tree of least weight. No augmentation of it has a tour, so the code as written raises `ValueError("Couldn't find picking path.")`. |
| Layouts.SimpleWarehouse | wms/warehouse.py:10-41 | The layout is 4 x 4. (1,1) and (2,1) are shelves facing south, (1,2) and (2,2) shelves facing north, and the rest is navigable. No slot is left `None`, and the graph is that of the grid. |
| Layouts.LargerWarehouse | wms/warehouse.py:44-63 | The layout is 8 x 4. Columns 0 and 7 are navigable. Columns 1 to 6 are navigable at rows 0 and 3, with north shelves in row 1 and south shelves in row 2. No slot is left `None`. |
| Layouts.LibraryWarehouse | wms/warehouse.py:66-77 | The layout is 8 x 16, and cell (c, r) equals cell (c, r mod 4) of the larger layout. No slot is left `None`. |
| Layouts.GraphNodeCount | wms/models.py:81-86 | The graph has one node per navigable cell. |
| Layouts.SimpleIsRing | wms/warehouse.py:15-37 | The simple layout is a ring of aisle around a 2 x 2 shelf block. |
| Layouts.RingShelves | wms/warehouse.py:23-30 | The shelves of the ring are exactly (1,1), (1,2), (2,1) and (2,2). |
| Layouts.RingAisle | wms/warehouse.py:15-37 | The navigable cells of the ring are the other twelve. |
| Layouts.RingCounts | warehouse.py:9 | The ring has 4 shelves, 12 navigable cells and 12 graph nodes. |
| LegacyLayouts.SimpleWarehouse | warehouse.py:29-56 | The layout is 4 x 4. (1,1) and (1,2) are shelves facing south, (2,1) and (2,2) shelves facing north, and the rest is navigable. No slot is left `None`. |
| LegacyLayouts.SimpleCounts | warehouse.py:9 | The layout has 16 cells: 4 shelves, 12 navigable cells and 12 graph nodes. |
| LegacyLayouts.LargerWarehouse | warehouse.py:59-102 | The layout is 4 x 8. Columns 0 and 3 are navigable. Columns 1 and 2 are navigable at rows 0 and 7, with south shelves in column 1 and north shelves in column 2 for rows 1 to 6. No slot is left `None`. |
| ClientGrid.Code | static/grid.js:76-85 | Each cell type has a code from 1 to 6. |
| ClientGrid.CodeInjective | static/grid.js:76-85 | No two cell types share a code. |
| ClientGrid.ClassName | static/grid.js:275-293 | The class switch succeeds exactly for the codes 1 to 6 and throws "Unknown type" for every other value. |
| ClientGrid.ClassNamesDistinct | static/grid.js:275-293 | Every cell type has a class, and distinct types have distinct classes. |
| ClientGrid.ArraysEqual | static/grid.js:14-24 | The result is true exactly when the lengths agree and the arrays agree at every index, that is, when they are equal. |
| ClientGrid.ArrayContains | static/grid.js:26-33 | The result is true exactly when some entry is `arraysEqual` to the element. |
| ClientGrid.CellArrayInjective | static/grid.js:175 | Two cells' `[col, row]` arrays are `arraysEqual` exactly when the cells are equal. |
| ClientGrid.ContainsCell | static/grid.js:175 | A path cell is found among the item arrays exactly when it is one of the items. |
| ClientGrid.InitializeGrid | static/grid.js:35-47 | The grid has `width` columns of `height` cells each, and every cell is the default. |
| ClientGrid.Graph.constructor | static/grid.js:49-74 | `nodes` lists the node ids in input order, and the adjacency list is the one built by processing the links in order. |
| ClientGrid.KeysDistinct | static/grid.js:63-69 | Each endpoint becomes a key of the adjacency list once. |
| ClientGrid.AdjacencyDomain | static/grid.js:63-69 | The keys of the adjacency list are the cells that `Keys` lists. |
| ClientGrid.KeysEndpoints | static/grid.js:60-73 | Those keys are exactly the link endpoints. |
| ClientGrid.AdjacencyCount | static/grid.js:71-72 | `v` occurs in `u`'s list once per link joining them, or twice per loop on `u`, because nothing is deduplicated. |
| ClientGrid.AdjacencySymmetric | static/grid.js:71-72 | `v` occurs in `u`'s list as often as `u` occurs in `v`'s list. |
| ClientGrid.MultiplicitySymmetric | static/grid.js:71-72 | The number of links joining two cells does not depend on their order. |
| ClientGrid.AdjacencyTotal | static/grid.js:60-73 | The adjacency lists hold 2 × (number of links) entries in all. |
| ClientGrid.GridWarehouse.constructor | static/grid.js:87-94 | A new client warehouse has its id and has no dimensions, grid or graph yet. |
| ClientGrid.GridWarehouse.LoadWarehouse | static/grid.js:103-114 | The grid has the server's dimensions. A cell is Navigable exactly when it is a graph node and Shelving otherwise. The graph is built from the node-link data. |
| ClientGrid.GridWarehouse.MarkPath | static/grid.js:130-146 | The new grid is the old grid with each path cell written in index order: the source first, then the destination, then intermediate. |
| ClientGrid.GridWarehouse.MarkPickPath | static/grid.js:163-187 | The same, with a cell between the ends written as an item to pick up when it is among the items. |
| ClientGrid.PaintCell | static/grid.js:145 | The last write wins: a cell shows the type written at its last occurrence in the path, and a cell off the path keeps its previous type. |
| ClientGrid.MarkDistinctPath | static/grid.js:132-146 | On a path without repeated cells, the first cell is the source and the last (if there are at least 2) is the destination. The others are intermediate, and the rest of the grid is unchanged. |
| ClientGrid.MarkDistinctPickPath | static/grid.js:166-187 | The same for a pick path, where a middle cell is an item to pick up exactly when it is among the items. |
| ClientGrid.MarkSingleCellPath | static/grid.js:137-139 | A one-cell path shows its cell as the source. |
| ClientGrid.MarkClosedPickPath | static/grid.js:166-187 | A pick path that returns to its start shows the start cell as the destination, because that write comes last. |
| ClientGrid.GridDataForD3 | static/grid.js:203-235 | The data has the grid's shape. Cell (c, r) gets x = c × cellWidth, y = gridHeight − (r+1) × cellHeight, the cell's width and height, and the cell's type. |
| ClientGrid.CellRectsTile | static/grid.js:212-233 | The rectangles tile the drawing: each lies inside it, row 0 touches the bottom edge, the last row touches the top, and neighbouring rows and columns abut. |
| ClientGrid.GridWarehouse.Render | static/grid.js:193-196 | Rendering uses 50 × 50 pixel cells in a drawing 50 × height pixels high. |

## Left out

- AJAX requests, jQuery promises, the `$(document).ready` start-up, D3/SVG construction and `console` logging in static/grid.js. These are network I/O and rendering; only the data handed over is modelled.
- `getQueryStringParameterByName` (static/grid.js:4-12). It depends on the regular-expression engine and URL decoding.
- app.py: Flask routing, JSON encoding and `ast.literal_eval`.
- networkx internals. `minimum_spanning_tree` and `shortest_path` are parameters with the contracts above; minimality and shortness are not modelled.
- ClientGrid.ArraysEqual: the identity shortcut `a === b` and the `null` tests have no counterpart on values.
- ClientGrid.ArrayContains: its `equalityMethod` parameter is fixed to `arraysEqual`, the only one the client passes.
- ClientGrid.GridWarehouse.LoadWarehouse: requires every node to lie inside the dimensions. An out-of-range column throws in JavaScript, and an out-of-range row silently adds a property to the column array.
- ClientGrid.GridWarehouse.MarkPath: requires the path cells to lie in the grid, for the same reason. The same holds for MarkPickPath.
- ClientGrid.GridDataForD3: requires a non-empty rectangular grid. The empty grid throws at `grid[0].length`, and a ragged grid would carry `undefined` types.
- ClientGrid.GridWarehouse: `lastPath` is never written and is omitted. `null` fields before loading are modelled as `(0, 0)` dimensions, the empty grid and `null` graph.
- ClientGrid.ClassName takes the raw cell code, so the unknown-value branch is reachable. Cell codes stored in the client grid are always among the six.
- Integers are unbounded. JavaScript's floating-point numbers and Python's integers agree with them on every value these layouts and grids produce.
- The Christofides 3/2 approximation ratio (wms/tsp.py:6). The matching is greedy and plain `nx.Graph` collapses parallel edges, so the code does not establish it.
- Tsp.MinWeightMatching: `set.pop` and iteration over a set are modelled as an arbitrary choice of element. So the contract states that the weight is minimal but not which of several equal-weight candidates the strict `<` keeps.
- Tsp.MinWeightMatching: the `float('inf')` start value is modelled as "no candidate yet". `copy.deepcopy` of a set of tuples is an ordinary copy.
- Tsp.HamiltonCircuitHelper: `G.nodes` is iterated in insertion order. The contract does not say which circuit is found first, only that one is found exactly when one exists.
- PickPath.BuildTspGraph: `i is not j` compares objects. It is modelled as comparing positions in the list, which is what it does for the distinct tuple objects the caller passes. A cell listed twice therefore gets a self-loop under the model.
- ServerGrid.Header: `%d` formatting of the dimensions is modelled by a decimal conversion. The header labels the width "height" and the height "width", as the code does.
- ServerGrid: edges in models.py carry no weight attribute; they are modelled with weight 1, networkx's default for algorithms.
- Layouts.LibraryWarehouse: `copy.copy` of a cell is modelled as the value itself. Cells have no identity in the model.
- ShelvingCell items and the `Item` class hold no logic and are not modelled.
- Tsp.CorrectedTspCircuit: the fix stated is the smallest edit that makes step 6 return a tour of `G`. Christofides' shortcut of an Euler circuit of a multigraph is not modelled. Nor is the 3/2 ratio, for the reason above.
- Tsp.CrossNoCircuit: the weights are proved: the star's edges weigh 1 and the leaf-to-leaf edges 2. The step from those weights to "the star is the only minimum spanning tree" is not formalised. A tree on four nodes has three edges, and weight 3 needs all three at the centre. Spanning-tree minimality is outside the `mst` contract.
- PickPath.FindPickPath: uses the corrected tour search of PickPath.PickTour. As written, `find_pick_path` also raises the missing-tour `ValueError` for non-empty item lists, such as the request in "## Findings". PickPath.CrossPickNoCircuit states that behaviour.

## Findings

| source | as written | input that shows it | evidently intended | confidence | as-written member | corrected member |
|---|---|---|---|---|---|---|
| wms/tsp.py:37-38 | Step 6 looks for a Hamiltonian circuit of `T`, the spanning tree with the matching added, not of `G`. `T` is a plain `nx.Graph`, so a matched edge that duplicates a tree edge adds nothing, and a leaf matched with its own neighbour keeps one neighbour. | `find_pick_path((1, 1), [(0, 1), (2, 1), (1, 0)])`. The tree is the star at (1, 1), all four nodes have odd degree, and the centre is matched with a leaf. That leaf has one neighbour, so no circuit exists and `ValueError("Couldn't find picking path.")` is raised. | `tsp_circuit` returns a tour of `G`, which is complete, whenever `G` has two or more nodes. | not executed; high | Tsp.TspCircuit, Tsp.StarNoCircuit, PickPath.CrossPickNoCircuit | Tsp.CorrectedTspCircuit, Tsp.CompleteHasTour, PickPath.PickTour |

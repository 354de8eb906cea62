/**
 * The browser client of static/grid.js: the cell-type enum and its CSS classes,
 * the array helpers, `initializeGrid`, the adjacency-list `Graph` built from
 * networkx node-link data, the client `GridWarehouse` whose grid the
 * server's answers repaint in place, and the pixel layout handed to D3.
 */
module ClientGrid {
  import opened Coords
  import opened Results
  import opened Graphs

  /** `GridCellTypeEnum`, frozen with the codes 1 to 6. */
  datatype CellType = Navigable | Shelving | PathIntermediate | PathSource | PathDestination | PathItemToPickUp

  /** The number `GridCellTypeEnum` attaches to each value. */
  function Code(t: CellType): (n: int)
    ensures 1 <= n <= 6
  {
    match t
    case Navigable => 1
    case Shelving => 2
    case PathIntermediate => 3
    case PathSource => 4
    case PathDestination => 5
    case PathItemToPickUp => 6
  }

  lemma CodeInjective(s: CellType, t: CellType)
    ensures Code(s) == Code(t) ==> s == t
  {
  }

  /**
   * The `class` attribute of a rendered cell: a switch on the cell's code that
   * throws "Unknown type" for a value outside the enum.
   */
  function ClassName(code: int): (r: Result<string, string>)
    ensures r.Success? <==> 1 <= code <= 6
    ensures r.Failure? ==> r.error == "Unknown type"
  {
    if code == Code(Navigable) then Success("navigable-cell")
    else if code == Code(Shelving) then Success("shelving-cell")
    else if code == Code(PathSource) then Success("source-cell")
    else if code == Code(PathIntermediate) then Success("intermediate-cell")
    else if code == Code(PathDestination) then Success("destination-cell")
    else if code == Code(PathItemToPickUp) then Success("path-item-to-pick-up-cell")
    else Failure("Unknown type")
  }

  /** Every enum value has a class, and no two values share one. */
  lemma ClassNamesDistinct(s: CellType, t: CellType)
    ensures ClassName(Code(s)).Success?
    ensures ClassName(Code(s)) == ClassName(Code(t)) ==> s == t
  {
    CodeInjective(s, t);
  }

  /**
   * `arraysEqual`: equal lengths and elementwise `===`. The identity shortcut
   * `a === b` and the `null` tests have no counterpart on values.
   */
  method ArraysEqual<T(==)>(a: seq<T>, b: seq<T>) returns (equal: bool)
    ensures equal <==> |a| == |b| && forall i :: 0 <= i < |a| ==> a[i] == b[i]
    ensures equal <==> a == b
  {
    if |a| != |b| {
      return false;
    }
    for i := 0 to |a|
      invariant forall k :: 0 <= k < i ==> a[k] == b[k]
    {
      if a[i] != b[i] {
        return false;
      }
    }
    return true;
  }

  /**
   * `arrayContains(arrays, element, arraysEqual)`, the one way the client calls
   * it: some entry of `arrays` is `arraysEqual` to `element`.
   */
  method ArrayContains<T(==)>(arrays: seq<seq<T>>, element: seq<T>) returns (found: bool)
    ensures found <==> exists i :: 0 <= i < |arrays| && arrays[i] == element
  {
    for i := 0 to |arrays|
      invariant forall k :: 0 <= k < i ==> arrays[k] != element
    {
      var equal := ArraysEqual(arrays[i], element);
      if equal {
        return true;
      }
    }
    return false;
  }

  /** A cell as the two-element JSON array `[col, row]` the server sends. */
  function CellArray(c: Cell): seq<int> {
    [c.0, c.1]
  }

  function CellArrays(cells: seq<Cell>): (r: seq<seq<int>>)
    ensures |r| == |cells| && forall i :: 0 <= i < |r| ==> r[i] == CellArray(cells[i])
  {
    seq(|cells|, i requires 0 <= i < |cells| => CellArray(cells[i]))
  }

  /** Two cells are equal exactly when their JSON arrays are `arraysEqual`. */
  lemma CellArrayInjective(a: Cell, b: Cell)
    ensures CellArray(a) == CellArray(b) <==> a == b
  {
    if CellArray(a) == CellArray(b) {
      assert CellArray(a)[0] == CellArray(b)[0] && CellArray(a)[1] == CellArray(b)[1];
    }
  }

  /** Some item's array is `arraysEqual` to the cell's exactly when the cell is among the items. */
  lemma ContainsCell(items: seq<Cell>, cell: Cell)
    ensures (exists k :: 0 <= k < |CellArrays(items)| && CellArrays(items)[k] == CellArray(cell)) <==> cell in items
  {
    forall k | 0 <= k < |items| {
      CellArrayInjective(items[k], cell);
    }
    if cell in items {
      var k :| 0 <= k < |items| && items[k] == cell;
      assert CellArrays(items)[k] == CellArray(cell);
    }
  }

  /** `initializeGrid([width, height], defaultData)`: `width` columns of `height` copies of the default. */
  method InitializeGrid<T>(dimensions: (int, int), defaultData: T) returns (grid: seq<seq<T>>)
    ensures Shaped(grid, NonNeg(dimensions.0), NonNeg(dimensions.1))
    ensures forall c, r :: 0 <= c < |grid| && 0 <= r < |grid[c]| ==> grid[c][r] == defaultData
  {
    var width := dimensions.0;
    var height := dimensions.1;
    grid := [];
    var colNum := 0;
    while colNum < width
      invariant 0 <= colNum == |grid| <= NonNeg(width)
      invariant forall c :: 0 <= c < |grid| ==> |grid[c]| == NonNeg(height)
      invariant forall c, r :: 0 <= c < |grid| && 0 <= r < |grid[c]| ==> grid[c][r] == defaultData
    {
      var column := [];
      var rowNum := 0;
      while rowNum < height
        invariant 0 <= rowNum == |column| <= NonNeg(height)
        invariant forall r :: 0 <= r < |column| ==> column[r] == defaultData
      {
        column := column + [defaultData];
        rowNum := rowNum + 1;
      }
      grid := grid + [column];
      colNum := colNum + 1;
    }
  }

  // ---------------------------------------------------------------------------
  // The adjacency-list graph

  /** An entry of node-link data's `nodes`: the node's `id` is its cell. */
  datatype Node = Node(id: Cell)

  /** An entry of node-link data's `links`. */
  datatype Link = Link(source: Cell, target: Cell)

  /** The output of `networkx.node_link_data` as far as the client reads it. */
  datatype NodeLinkData = NodeLinkData(nodes: seq<Node>, links: seq<Link>)

  /** `adjacencyList[key]`, where reading a missing key gives the list `[]` it is then set to. */
  function Get(adj: map<Cell, seq<Cell>>, key: Cell): seq<Cell> {
    if key in adj then adj[key] else []
  }

  /** `adjacencyList[key].push(v)` after creating a missing list. */
  function Push(adj: map<Cell, seq<Cell>>, key: Cell, v: Cell): (r: map<Cell, seq<Cell>>)
    ensures r.Keys == adj.Keys + {key}
  {
    adj[key := Get(adj, key) + [v]]
  }

  /** The adjacency list after processing `links` in order. */
  function Adjacency(links: seq<Link>): map<Cell, seq<Cell>> {
    if links == [] then map[]
    else
      var link := links[|links| - 1];
      Push(Push(Adjacency(links[..|links| - 1]), link.source, link.target), link.target, link.source)
  }

  /** The number of links joining `u` and `v`, in either orientation. */
  function Multiplicity(links: seq<Link>, u: Cell, v: Cell): nat {
    if links == [] then 0
    else
      var link := links[|links| - 1];
      var m := Multiplicity(links[..|links| - 1], u, v);
      if (link.source == u && link.target == v) || (link.source == v && link.target == u) then m + 1 else m
  }

  /** `u` is an endpoint of some link. */
  predicate Endpoint(links: seq<Link>, u: Cell) {
    exists i :: 0 <= i < |links| && (links[i].source == u || links[i].target == u)
  }

  /** The keys of the adjacency list in insertion order: each endpoint when first met. */
  function Keys(links: seq<Link>): seq<Cell> {
    if links == [] then []
    else
      var link := links[|links| - 1];
      var k := Keys(links[..|links| - 1]);
      var k1 := if link.source in k then k else k + [link.source];
      if link.target in k1 then k1 else k1 + [link.target]
  }

  /** The total length of the lists stored under `keys`. */
  function TotalLength(adj: map<Cell, seq<Cell>>, keys: seq<Cell>): nat {
    if keys == [] then 0 else TotalLength(adj, keys[..|keys| - 1]) + |Get(adj, keys[|keys| - 1])|
  }

  /** Each endpoint becomes a key once. */
  lemma {:induction false} KeysDistinct(links: seq<Link>)
    ensures Distinct(Keys(links))
  {
    if links != [] {
      KeysDistinct(links[..|links| - 1]);
    }
  }

  /** The keys of the adjacency list are the cells `Keys` lists. */
  lemma {:induction false} AdjacencyDomain(links: seq<Link>)
    ensures forall u :: u in Adjacency(links) <==> u in Keys(links)
  {
    if links != [] {
      AdjacencyDomain(links[..|links| - 1]);
    }
  }

  /** The keys are exactly the link endpoints. */
  lemma {:induction false} KeysEndpoints(links: seq<Link>)
    ensures forall u :: u in Keys(links) <==> Endpoint(links, u)
  {
    if links != [] {
      var init := links[..|links| - 1];
      var link := links[|links| - 1];
      KeysEndpoints(init);
      forall u ensures Endpoint(links, u) <==> Endpoint(init, u) || u == link.source || u == link.target {
        if Endpoint(links, u) {
          var i :| 0 <= i < |links| && (links[i].source == u || links[i].target == u);
          if i < |init| {
            assert init[i] == links[i];
          }
        }
        if Endpoint(init, u) {
          var i :| 0 <= i < |init| && (init[i].source == u || init[i].target == u);
          assert links[i] == init[i];
        }
      }
    }
  }

  /**
   * Each link adds `v` once to `u`'s list when it joins `u` and `v != u`, and
   * twice when it is a loop on `u`: links are never deduplicated.
   */
  lemma {:induction false} AdjacencyCount(links: seq<Link>, u: Cell, v: Cell)
    ensures multiset(Get(Adjacency(links), u))[v] == if u == v then 2 * Multiplicity(links, u, v) else Multiplicity(links, u, v)
  {
    if links != [] {
      var init := links[..|links| - 1];
      var link := links[|links| - 1];
      AdjacencyCount(init, u, v);
      var a := Adjacency(init);
      PushCount(a, link.source, link.target, u, v);
      PushCount(Push(a, link.source, link.target), link.target, link.source, u, v);
    }
  }

  /** A push onto `key`'s list adds one occurrence of `x` there and changes no other count. */
  lemma PushCount(adj: map<Cell, seq<Cell>>, key: Cell, x: Cell, u: Cell, v: Cell)
    ensures multiset(Get(Push(adj, key, x), u))[v] == multiset(Get(adj, u))[v] + if u == key && v == x then 1 else 0
  {
  }

  /** `v` occurs in `u`'s list as often as `u` occurs in `v`'s list. */
  lemma AdjacencySymmetric(links: seq<Link>, u: Cell, v: Cell)
    ensures multiset(Get(Adjacency(links), u))[v] == multiset(Get(Adjacency(links), v))[u]
  {
    AdjacencyCount(links, u, v);
    AdjacencyCount(links, v, u);
    MultiplicitySymmetric(links, u, v);
  }

  lemma {:induction false} MultiplicitySymmetric(links: seq<Link>, u: Cell, v: Cell)
    ensures Multiplicity(links, u, v) == Multiplicity(links, v, u)
  {
    if links != [] {
      MultiplicitySymmetric(links[..|links| - 1], u, v);
    }
  }

  /** Appending one element to one key's list adds one to the total over distinct keys holding it. */
  lemma {:induction false} TotalLengthPush(adj: map<Cell, seq<Cell>>, keys: seq<Cell>, key: Cell, v: Cell)
    requires Distinct(keys)
    ensures TotalLength(Push(adj, key, v), keys) == TotalLength(adj, keys) + (if key in keys then 1 else 0)
  {
    if keys != [] {
      var init := keys[..|keys| - 1];
      assert Distinct(init) by {
        forall i, j | 0 <= i < j < |init| ensures init[i] != init[j] {
          assert init[i] == keys[i] && init[j] == keys[j];
        }
      }
      TotalLengthPush(adj, init, key, v);
      assert key in keys <==> key in init || key == keys[|keys| - 1];
      if key == keys[|keys| - 1] {
        assert key !in init by {
          forall i | 0 <= i < |init| ensures init[i] != key {
            assert init[i] == keys[i];
          }
        }
      }
    }
  }

  /** A key holding the empty list adds nothing to the total. */
  lemma TotalLengthAppend(adj: map<Cell, seq<Cell>>, keys: seq<Cell>, key: Cell)
    requires key !in adj
    ensures TotalLength(adj, keys + [key]) == TotalLength(adj, keys)
  {
    assert (keys + [key])[..|keys|] == keys;
  }

  /** One push onto the list of `key` grows the total by one, registering `key` if it is new. */
  lemma PushTotal(adj: map<Cell, seq<Cell>>, keys: seq<Cell>, key: Cell, v: Cell)
    requires Distinct(keys)
    requires forall u :: u in adj <==> u in keys
    ensures var keys1 := if key in keys then keys else keys + [key];
            && Distinct(keys1)
            && (forall u :: u in Push(adj, key, v) <==> u in keys1)
            && TotalLength(Push(adj, key, v), keys1) == TotalLength(adj, keys) + 1
  {
    var keys1 := if key in keys then keys else keys + [key];
    if key !in keys {
      TotalLengthAppend(adj, keys, key);
      DistinctAppend(keys, key);
    }
    assert key in keys1;
    TotalLengthPush(adj, keys1, key, v);
  }

  lemma DistinctAppend(keys: seq<Cell>, key: Cell)
    requires Distinct(keys) && key !in keys
    ensures Distinct(keys + [key])
  {
  }

  /** The adjacency lists hold `2 * |links|` entries in all: each link pushes twice. */
  lemma {:induction false} AdjacencyTotal(links: seq<Link>)
    ensures TotalLength(Adjacency(links), Keys(links)) == 2 * |links|
  {
    if links != [] {
      var init := links[..|links| - 1];
      var link := links[|links| - 1];
      AdjacencyTotal(init);
      KeysDistinct(init);
      AdjacencyDomain(init);
      var a := Adjacency(init);
      var k := Keys(init);
      PushTotal(a, k, link.source, link.target);
      var k1 := if link.source in k then k else k + [link.source];
      PushTotal(Push(a, link.source, link.target), k1, link.target, link.source);
    }
  }

  /**
   * One link's effect as the loop writes it (create missing lists, then push
   * onto both) equals two `Push`es.
   */
  lemma LinkStep(adj: map<Cell, seq<Cell>>, s: Cell, t: Cell)
    ensures var a1 := if s !in adj then adj[s := []] else adj;
            var a2 := if t !in a1 then a1[t := []] else a1;
            var a3 := a2[s := a2[s] + [t]];
            a3[t := a3[t] + [s]] == Push(Push(adj, s, t), t, s)
  {
    var a1 := if s !in adj then adj[s := []] else adj;
    var a2 := if t !in a1 then a1[t := []] else a1;
    var a3 := a2[s := a2[s] + [t]];
    var expected := Push(Push(adj, s, t), t, s);
    assert a3[t := a3[t] + [s]].Keys == expected.Keys;
  }

  /** The client's `Graph`: node ids in input order and an adjacency list keyed by cell. */
  class Graph {
    var nodes: seq<Cell>
    var adjacencyList: map<Cell, seq<Cell>>

    constructor(nodeLinkData: NodeLinkData)
      ensures |nodes| == |nodeLinkData.nodes|
      ensures forall i :: 0 <= i < |nodes| ==> nodes[i] == nodeLinkData.nodes[i].id
      ensures adjacencyList == Adjacency(nodeLinkData.links)
    {
      var ids := [];
      for i := 0 to |nodeLinkData.nodes|
        invariant |ids| == i
        invariant forall k :: 0 <= k < i ==> ids[k] == nodeLinkData.nodes[k].id
      {
        ids := ids + [nodeLinkData.nodes[i].id];
      }
      var links := nodeLinkData.links;
      var adj := map[];
      for i := 0 to |links|
        invariant adj == Adjacency(links[..i])
      {
        var link := links[i];
        assert links[..i + 1][..i] == links[..i] && links[..i + 1][i] == link;
        LinkStep(adj, link.source, link.target);
        if link.source !in adj {
          adj := adj[link.source := []];
        }
        if link.target !in adj {
          adj := adj[link.target := []];
        }
        adj := adj[link.source := adj[link.source] + [link.target]];
        adj := adj[link.target := adj[link.target] + [link.source]];
      }
      assert links[..|links|] == links;
      nodes := ids;
      adjacencyList := adj;
    }
  }

  // ---------------------------------------------------------------------------
  // Painting a path into the grid

  /** The type `findPath` gives index `i` of a path of `n` cells. */
  function PathType(i: int, n: int): CellType {
    if i == 0 then PathSource
    else if i == n - 1 then PathDestination
    else PathIntermediate
  }

  /** The type `findPickPath` gives index `i` of a path of `n` cells; `isItem` says the cell is to be picked up. */
  function PickPathType(i: int, n: int, isItem: bool): CellType {
    if i == 0 then PathSource
    else if i == n - 1 then PathDestination
    else if isItem then PathItemToPickUp
    else PathIntermediate
  }

  function PathTypes(path: seq<Cell>): (r: seq<CellType>)
    ensures |r| == |path| && forall i :: 0 <= i < |r| ==> r[i] == PathType(i, |path|)
  {
    seq(|path|, i => PathType(i, |path|))
  }

  function PickPathTypes(path: seq<Cell>, items: seq<Cell>): (r: seq<CellType>)
    ensures |r| == |path| && forall i :: 0 <= i < |r| ==> r[i] == PickPathType(i, |path|, path[i] in items)
  {
    seq(|path|, i requires 0 <= i < |path| => PickPathType(i, |path|, path[i] in items))
  }

  /** Every cell of `cells` indexes a slot of `grid`. */
  predicate OnGrid<T>(grid: seq<seq<T>>, cells: seq<Cell>) {
    forall i :: 0 <= i < |cells| ==> InGrid(grid, cells[i])
  }

  /** `grid` after the assignments `grid[cells[i][0]][cells[i][1]] = types[i]`, in index order. */
  function Paint(grid: seq<seq<CellType>>, cells: seq<Cell>, types: seq<CellType>): (g: seq<seq<CellType>>)
    requires |cells| == |types| && OnGrid(grid, cells)
    ensures |g| == |grid| && forall c :: 0 <= c < |g| ==> |g[c]| == |grid[c]|
  {
    if cells == [] then grid
    else
      var n := |cells| - 1;
      SetCell(Paint(grid, cells[..n], types[..n]), cells[n], types[n])
  }

  /** Index `i` is the last occurrence of `cell` in `cells`. */
  predicate LastAt(cells: seq<Cell>, i: int, cell: Cell) {
    0 <= i < |cells| && cells[i] == cell && forall j :: i < j < |cells| ==> cells[j] != cell
  }

  /** A cell that occurs in `cells` has a last occurrence. */
  lemma {:induction false} LastOccurrence(cells: seq<Cell>, cell: Cell) returns (i: int)
    requires cell in cells
    ensures LastAt(cells, i, cell)
  {
    var n := |cells| - 1;
    if cells[n] == cell {
      i := n;
    } else {
      assert cell in cells[..n] by {
        var k :| 0 <= k < |cells| && cells[k] == cell;
        assert cells[..n][k] == cell;
      }
      i := LastOccurrence(cells[..n], cell);
    }
  }

  /**
   * The last write wins: a cell shows the type written at its last occurrence,
   * and a cell off the path keeps its previous type.
   */
  lemma {:induction false} PaintCell(grid: seq<seq<CellType>>, cells: seq<Cell>, types: seq<CellType>, cell: Cell)
    requires |cells| == |types| && OnGrid(grid, cells) && InGrid(grid, cell)
    ensures cell !in cells ==> Paint(grid, cells, types)[cell.0][cell.1] == grid[cell.0][cell.1]
    ensures forall i :: LastAt(cells, i, cell) ==> Paint(grid, cells, types)[cell.0][cell.1] == types[i]
  {
    if cells != [] {
      var n := |cells| - 1;
      PaintCell(grid, cells[..n], types[..n], cell);
      if cells[n] != cell {
        assert cell in cells <==> cell in cells[..n];
        forall i | LastAt(cells, i, cell) ensures LastAt(cells[..n], i, cell) {
        }
      }
    }
  }

  /**
   * A path without repeated cells: the first cell shows the source, the last
   * the destination, the cells between show the path; nothing else changes.
   */
  lemma MarkDistinctPath(grid: seq<seq<CellType>>, path: seq<Cell>, cell: Cell)
    requires OnGrid(grid, path) && Distinct(path) && InGrid(grid, cell)
    ensures var g := Paint(grid, path, PathTypes(path));
            && (cell !in path ==> g[cell.0][cell.1] == grid[cell.0][cell.1])
            && (|path| >= 1 && cell == path[0] ==> g[cell.0][cell.1] == PathSource)
            && (|path| >= 2 && cell == path[|path| - 1] ==> g[cell.0][cell.1] == PathDestination)
            && (forall i :: 0 < i < |path| - 1 && cell == path[i] ==> g[cell.0][cell.1] == PathIntermediate)
  {
    PaintCell(grid, path, PathTypes(path), cell);
    forall i | 0 <= i < |path| && cell == path[i] ensures LastAt(path, i, cell) {
    }
  }

  /**
   * The same for a pick path, where a cell between the ends shows an item to
   * pick up exactly when it is one of `items`.
   */
  lemma MarkDistinctPickPath(grid: seq<seq<CellType>>, path: seq<Cell>, items: seq<Cell>, cell: Cell)
    requires OnGrid(grid, path) && Distinct(path) && InGrid(grid, cell)
    ensures var g := Paint(grid, path, PickPathTypes(path, items));
            && (cell !in path ==> g[cell.0][cell.1] == grid[cell.0][cell.1])
            && (|path| >= 1 && cell == path[0] ==> g[cell.0][cell.1] == PathSource)
            && (|path| >= 2 && cell == path[|path| - 1] ==> g[cell.0][cell.1] == PathDestination)
            && (forall i :: 0 < i < |path| - 1 && cell == path[i] ==>
                  g[cell.0][cell.1] == if cell in items then PathItemToPickUp else PathIntermediate)
  {
    PaintCell(grid, path, PickPathTypes(path, items), cell);
    forall i | 0 <= i < |path| && cell == path[i] ensures LastAt(path, i, cell) {
    }
  }

  /** A one-cell path shows its cell as the source: index 0 is tested first. */
  lemma MarkSingleCellPath(grid: seq<seq<CellType>>, cell: Cell)
    requires InGrid(grid, cell)
    ensures Paint(grid, [cell], PathTypes([cell]))[cell.0][cell.1] == PathSource
  {
    PaintCell(grid, [cell], PathTypes([cell]), cell);
    assert LastAt([cell], 0, cell);
  }

  /**
   * A pick path closes on its start, so the start cell, written first as the
   * source, is overwritten as the destination.
   */
  lemma MarkClosedPickPath(grid: seq<seq<CellType>>, path: seq<Cell>, items: seq<Cell>)
    requires OnGrid(grid, path) && |path| >= 2 && path[0] == path[|path| - 1]
    ensures Paint(grid, path, PickPathTypes(path, items))[path[0].0][path[0].1] == PathDestination
  {
    PaintCell(grid, path, PickPathTypes(path, items), path[0]);
    assert LastAt(path, |path| - 1, path[0]);
  }

  // ---------------------------------------------------------------------------
  // The pixel layout

  /** The record `getGridDataForD3` builds for one cell. */
  datatype Rect = Rect(x: int, y: int, width: int, height: int, gridCellType: CellType)

  /**
   * Column `c` starts `c` cell widths from the left; row 0 is drawn at the
   * bottom, `gridHeight` being the height of the drawing.
   */
  function CellRect(grid: seq<seq<CellType>>, c: int, r: int, cellDimensions: (int, int), gridHeight: int): Rect
    requires InGrid(grid, (c, r))
  {
    Rect(c * cellDimensions.0, gridHeight - (r + 1) * cellDimensions.1, cellDimensions.0, cellDimensions.1, grid[c][r])
  }

  /**
   * `getGridDataForD3`: a grid of the input's shape whose `(c, r)` entry is
   * that cell's rectangle. The result starts as `initializeGrid` with no
   * default, modelled as `None` everywhere.
   */
  method GridDataForD3(grid: seq<seq<CellType>>, cellDimensions: (int, int), gridHeight: int)
    returns (data: seq<seq<Option<Rect>>>)
    requires |grid| >= 1 && Rectangular(grid)
    ensures Shaped(data, |grid|, |grid[0]|)
    ensures forall c, r :: 0 <= c < |data| && 0 <= r < |data[c]| ==>
              data[c][r] == Some(CellRect(grid, c, r, cellDimensions, gridHeight))
  {
    var numCols := |grid|;
    var numRows := |grid[0]|;
    data := InitializeGrid((numCols, numRows), None);
    var cellWidth := cellDimensions.0;
    var cellHeight := cellDimensions.1;
    var xPosition := 0;
    var yPosition := gridHeight - cellHeight;
    for column := 0 to numCols
      invariant Shaped(data, numCols, numRows)
      invariant xPosition == column * cellWidth && yPosition == gridHeight - cellHeight
      invariant forall c, r :: 0 <= c < numCols && 0 <= r < numRows ==>
                  data[c][r] == if c < column then Some(CellRect(grid, c, r, cellDimensions, gridHeight)) else None
    {
      for row := 0 to numRows
        invariant Shaped(data, numCols, numRows)
        invariant xPosition == column * cellWidth && yPosition == gridHeight - (row + 1) * cellHeight
        invariant forall c, r :: 0 <= c < numCols && 0 <= r < numRows ==>
                    data[c][r] == if c < column || (c == column && r < row)
                                  then Some(CellRect(grid, c, r, cellDimensions, gridHeight)) else None
      {
        data := SetCell(data, (column, row), Some(Rect(xPosition, yPosition, cellWidth, cellHeight, grid[column][row])));
        yPosition := yPosition - cellHeight;
      }
      yPosition := gridHeight - cellHeight;
      xPosition := xPosition + cellWidth;
    }
  }

  /**
   * With positive cell sizes and a drawing `numRows` cells high, the
   * rectangles tile the drawing: each lies inside it, a row's upper neighbour
   * sits directly above it, a column's right neighbour directly beside it,
   * row 0 touches the bottom edge and the last row the top edge.
   */
  lemma CellRectsTile(grid: seq<seq<CellType>>, c: int, r: int, cellDimensions: (int, int), gridHeight: int)
    requires Rectangular(grid) && InGrid(grid, (c, r))
    requires cellDimensions.0 > 0 && cellDimensions.1 > 0 && gridHeight == cellDimensions.1 * |grid[0]|
    ensures var rect := CellRect(grid, c, r, cellDimensions, gridHeight);
            && 0 <= rect.x && rect.x + rect.width <= cellDimensions.0 * |grid|
            && 0 <= rect.y && rect.y + rect.height <= gridHeight
            && (r == 0 ==> rect.y + rect.height == gridHeight)
            && (r == |grid[0]| - 1 ==> rect.y == 0)
            && (r + 1 < |grid[c]| ==> CellRect(grid, c, r + 1, cellDimensions, gridHeight).y + rect.height == rect.y)
            && (c + 1 < |grid| ==> CellRect(grid, c + 1, r, cellDimensions, gridHeight).x == rect.x + rect.width)
  {
    var w := cellDimensions.0;
    var h := cellDimensions.1;
    assert |grid[c]| == |grid[0]|;
    MulMonotone(c + 1, |grid|, w);
    MulMonotone(r + 1, |grid[0]|, h);
    MulMonotone(0, c, w);
    MulStep(r + 1, h);
    MulStep(c, w);
  }

  lemma MulMonotone(a: int, b: int, k: int)
    requires a <= b && k > 0
    ensures a * k <= b * k
  {
  }

  lemma MulStep(a: int, k: int)
    ensures (a + 1) * k == a * k + k
  {
  }

  // ---------------------------------------------------------------------------
  // The client warehouse

  /** The pixel size of a cell, `[50, 50]`. */
  const CellDimensions := (50, 50)

  /**
   * The client's `GridWarehouse`. Before `loadWarehouse` completes its
   * `dimensions`, `grid` and `graph` are `null`, modelled as `(0, 0)`, the
   * empty grid and `null`.
   */
  class GridWarehouse {
    var warehouseId: string
    var dimensions: (int, int)
    var grid: seq<seq<CellType>>
    var graph: Graph?

    constructor(warehouseId: string)
      ensures this.warehouseId == warehouseId && dimensions == (0, 0) && grid == [] && graph == null
    {
      this.warehouseId := warehouseId;
      dimensions := (0, 0);
      grid := [];
      graph := null;
    }

    /**
     * What `loadWarehouse` does with the server's answer: an all-Shelving grid
     * of the given dimensions, the graph built from the node-link data, and
     * each graph node marked Navigable.
     */
    method LoadWarehouse(dimensions: (int, int), graphData: NodeLinkData)
      modifies this
      requires forall i :: 0 <= i < |graphData.nodes| ==>
                 0 <= graphData.nodes[i].id.0 < dimensions.0 && 0 <= graphData.nodes[i].id.1 < dimensions.1
      ensures warehouseId == old(warehouseId) && this.dimensions == dimensions
      ensures graph != null && fresh(graph)
      ensures |graph.nodes| == |graphData.nodes| && forall i :: 0 <= i < |graph.nodes| ==> graph.nodes[i] == graphData.nodes[i].id
      ensures graph.adjacencyList == Adjacency(graphData.links)
      ensures Shaped(grid, NonNeg(dimensions.0), NonNeg(dimensions.1))
      ensures forall c, r :: 0 <= c < |grid| && 0 <= r < |grid[c]| ==>
                grid[c][r] == if (c, r) in graph.nodes then Navigable else Shelving
    {
      this.dimensions := dimensions;
      grid := InitializeGrid(dimensions, Shelving);
      var g := new Graph(graphData);
      graph := g;
      ghost var nodes := g.nodes;
      ghost var adjacencyList := g.adjacencyList;
      for i := 0 to |g.nodes|
        invariant graph == g && g.nodes == nodes && g.adjacencyList == adjacencyList && warehouseId == old(warehouseId) && this.dimensions == dimensions
        invariant Shaped(grid, NonNeg(dimensions.0), NonNeg(dimensions.1))
        invariant forall c, r :: 0 <= c < |grid| && 0 <= r < |grid[c]| ==>
                    grid[c][r] == if (c, r) in g.nodes[..i] then Navigable else Shelving
      {
        var node := g.nodes[i];
        assert g.nodes[..i + 1] == g.nodes[..i] + [node];
        grid := SetCell(grid, node, Navigable);
      }
      assert g.nodes[..|g.nodes|] == g.nodes;
    }

    /** What `findPath` does with the path the server returns: mark it, cell by cell. */
    method MarkPath(path: seq<Cell>)
      modifies this
      requires OnGrid(grid, path)
      ensures grid == Paint(old(grid), path, PathTypes(path))
      ensures warehouseId == old(warehouseId) && dimensions == old(dimensions) && graph == old(graph)
    {
      ghost var start := grid;
      ghost var types := PathTypes(path);
      for i := 0 to |path|
        invariant grid == Paint(start, path[..i], types[..i])
        invariant warehouseId == old(warehouseId) && dimensions == old(dimensions) && graph == old(graph)
      {
        var pathCell := path[i];
        var cellType;
        if i == 0 {
          cellType := PathSource;
        } else if i == |path| - 1 {
          cellType := PathDestination;
        } else {
          cellType := PathIntermediate;
        }
        assert path[..i + 1][..i] == path[..i] && types[..i + 1][..i] == types[..i];
        grid := SetCell(grid, pathCell, cellType);
      }
      assert path[..|path|] == path && types[..|path|] == types;
    }

    /**
     * What `findPickPath` does with the server's answer: mark the path, with
     * the cells between the ends that are among `items` marked for pick-up.
     */
    method MarkPickPath(path: seq<Cell>, items: seq<Cell>)
      modifies this
      requires OnGrid(grid, path)
      ensures grid == Paint(old(grid), path, PickPathTypes(path, items))
      ensures warehouseId == old(warehouseId) && dimensions == old(dimensions) && graph == old(graph)
    {
      ghost var start := grid;
      ghost var types := PickPathTypes(path, items);
      for i := 0 to |path|
        invariant grid == Paint(start, path[..i], types[..i])
        invariant warehouseId == old(warehouseId) && dimensions == old(dimensions) && graph == old(graph)
      {
        var pathCell := path[i];
        var cellType;
        if i == 0 {
          cellType := PathSource;
        } else if i == |path| - 1 {
          cellType := PathDestination;
        } else {
          var isItem := ArrayContains(CellArrays(items), CellArray(pathCell));
          ContainsCell(items, pathCell);
          if isItem {
            cellType := PathItemToPickUp;
          } else {
            cellType := PathIntermediate;
          }
        }
        assert path[..i + 1][..i] == path[..i] && types[..i + 1][..i] == types[..i];
        grid := SetCell(grid, pathCell, cellType);
      }
      assert path[..|path|] == path && types[..|path|] == types;
    }

    /** The data `render` hands to D3: rectangles of 50 by 50 pixels in a drawing `50 * height` high. */
    method Render() returns (data: seq<seq<Option<Rect>>>)
      requires |grid| >= 1 && Rectangular(grid)
      ensures Shaped(data, |grid|, |grid[0]|)
      ensures forall c, r :: 0 <= c < |data| && 0 <= r < |data[c]| ==>
                data[c][r] == Some(CellRect(grid, c, r, CellDimensions, CellDimensions.1 * dimensions.1))
    {
      var gridHeight := CellDimensions.1 * dimensions.1;
      data := GridDataForD3(grid, CellDimensions, gridHeight);
    }
  }
}

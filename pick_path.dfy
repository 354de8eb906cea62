/**
 * `find_path` and `find_pick_path` of the server's `GridWarehouse`: a
 * complete graph on the start cell and the item cells weighted by Manhattan
 * distance, a tour of it, and the tour's legs filled in with shortest paths
 * of the warehouse graph. `nx.shortest_path` and `nx.minimum_spanning_tree`
 * are parameters.
 */
module PickPath {
  import opened Coords
  import opened Graphs
  import opened Results
  import opened Tsp
  import opened ServerGrid

  /** The entries of `s` in the order of their first occurrence. */
  function Dedup(s: seq<Cell>): (d: seq<Cell>)
    ensures Distinct(d)
    ensures forall x :: x in d <==> x in s
  {
    if s == [] then []
    else
      var init := Dedup(s[..|s| - 1]);
      var x := s[|s| - 1];
      assert forall y :: y in s <==> y in s[..|s| - 1] || y == x by {
        assert s == s[..|s| - 1] + [x];
      }
      if x in init then init else init + [x]
  }

  /** Some two different positions of `nodes` hold `a` and `b`. */
  ghost predicate Paired(nodes: seq<Cell>, a: Cell, b: Cell) {
    exists i, j :: 0 <= i < |nodes| && 0 <= j < |nodes| && i != j && nodes[i] == a && nodes[j] == b
  }

  /** `(a, b)` is one orientation of the pair of positions `i` and `j` of `nodes`. */
  ghost predicate PairAt(nodes: seq<Cell>, i: int, j: int, a: Cell, b: Cell) {
    0 <= i < |nodes| && 0 <= j < |nodes| && i != j
    && ((nodes[i], nodes[j]) == (a, b) || (nodes[j], nodes[i]) == (a, b))
  }

  /** `(a, b)` is an orientation of a pair of positions the double loop has reached before `(i, j)`. */
  ghost predicate PairedBefore(nodes: seq<Cell>, i: int, j: int, a: Cell, b: Cell) {
    exists i', j' :: (i' < i || (i' == i && j' < j)) && PairAt(nodes, i', j', a, b)
  }

  /** The graph under construction holds the nodes of `nodes` and the pairs before `(i, j)`, weighted by distance. */
  ghost predicate EdgesSoFar(nodes: seq<Cell>, g: Graph, i: int, j: int) {
    && Valid(g)
    && g.nodes == Dedup(nodes)
    && (forall e :: e in g.weight <==> PairedBefore(nodes, i, j, e.0, e.1))
    && (forall e :: e in g.weight ==> g.weight[e] == Manhattan(e.0, e.1))
  }

  lemma PairedBeforeStep(nodes: seq<Cell>, i: int, j: int, a: Cell, b: Cell)
    ensures PairedBefore(nodes, i, j + 1, a, b) <==> PairedBefore(nodes, i, j, a, b) || PairAt(nodes, i, j, a, b)
  {
    if PairedBefore(nodes, i, j + 1, a, b) {
      var i', j' :| (i' < i || (i' == i && j' < j + 1)) && PairAt(nodes, i', j', a, b);
      if !(i' == i && j' == j) {
        assert PairedBefore(nodes, i, j, a, b);
      }
    }
  }

  lemma PairedBeforeRow(nodes: seq<Cell>, i: int, a: Cell, b: Cell)
    ensures PairedBefore(nodes, i, |nodes|, a, b) <==> PairedBefore(nodes, i + 1, 0, a, b)
  {
    if PairedBefore(nodes, i + 1, 0, a, b) {
      var i', j' :| (i' < i + 1 || (i' == i + 1 && j' < 0)) && PairAt(nodes, i', j', a, b);
      assert j' < |nodes|;
    }
  }

  /** The inner loop of the double loop of `find_pick_path`: edges from `nodes[i]` to every other entry. */
  method AddEdgesFrom(nodes: seq<Cell>, g: Graph, i: int) returns (h: Graph)
    requires 0 <= i < |nodes| && EdgesSoFar(nodes, g, i, 0)
    ensures EdgesSoFar(nodes, h, i + 1, 0)
  {
    h := g;
    for j := 0 to |nodes|
      invariant EdgesSoFar(nodes, h, i, j)
    {
      if i != j {
        AddEdgeValid(h, nodes[i], nodes[j], Manhattan(nodes[i], nodes[j]));
        ghost var before := h;
        h := AddEdge(h, nodes[i], nodes[j], Manhattan(nodes[i], nodes[j]));
        forall e ensures e in h.weight <==> PairedBefore(nodes, i, j + 1, e.0, e.1) {
          PairedBeforeStep(nodes, i, j, e.0, e.1);
        }
        forall e | e in h.weight ensures h.weight[e] == Manhattan(e.0, e.1) {
          if e == (nodes[i], nodes[j]) || e == (nodes[j], nodes[i]) {
            ManhattanSymmetric(nodes[i], nodes[j]);
          }
        }
      } else {
        forall e ensures e in h.weight <==> PairedBefore(nodes, i, j + 1, e.0, e.1) {
          PairedBeforeStep(nodes, i, j, e.0, e.1);
        }
      }
    }
    forall e ensures e in h.weight <==> PairedBefore(nodes, i + 1, 0, e.0, e.1) {
      PairedBeforeRow(nodes, i, e.0, e.1);
    }
  }

  /** The `add_node` loop: the entries of `nodes`, each once, in first-occurrence order. */
  method AddTspNodes(nodes: seq<Cell>) returns (g: Graph)
    ensures EdgesSoFar(nodes, g, 0, 0)
  {
    g := EmptyGraph;
    for k := 0 to |nodes|
      invariant g.nodes == Dedup(nodes[..k]) && g.weight == map[]
    {
      assert nodes[..k + 1][..k] == nodes[..k];
      g := AddNode(g, nodes[k]);
    }
    assert nodes[..|nodes|] == nodes;
  }

  /**
   * Step 1 of `find_pick_path`: the graph on `[from] + intermediates` with an
   * edge between every two positions (the test `i is not j` compares list
   * entries, so two equal cells at different positions give a self-loop),
   * weighted by the Manhattan distance.
   */
  method BuildTspGraph(from: Cell, intermediates: seq<Cell>) returns (g: Graph)
    ensures Valid(g)
    ensures g.nodes == Dedup([from] + intermediates)
    ensures forall a, b :: (a, b) in g.weight <==> Paired([from] + intermediates, a, b)
    ensures forall e :: e in g.weight ==> g.weight[e] == Manhattan(e.0, e.1)
  {
    var nodes := [from] + intermediates;
    g := AddTspNodes(nodes);
    for i := 0 to |nodes|
      invariant EdgesSoFar(nodes, g, i, 0)
    {
      g := AddEdgesFrom(nodes, g, i);
    }
    forall a, b ensures (a, b) in g.weight <==> Paired(nodes, a, b) {
      assert (a, b).0 == a && (a, b).1 == b;
      if PairedBefore(nodes, |nodes|, 0, a, b) {
        var i, j :| (i < |nodes| || (i == |nodes| && j < 0)) && PairAt(nodes, i, j, a, b);
        if (nodes[i], nodes[j]) != (a, b) {
          assert nodes[j] == a && nodes[i] == b;
        }
      }
      if Paired(nodes, a, b) {
        var i, j :| 0 <= i < |nodes| && 0 <= j < |nodes| && i != j && nodes[i] == a && nodes[j] == b;
        assert PairAt(nodes, i, j, a, b);
      }
    }
  }

  /** The graph of `find_pick_path` joins every two distinct cells, and a cell to itself when it is listed twice. */
  lemma PairedMeans(nodes: seq<Cell>, a: Cell, b: Cell)
    ensures Paired(nodes, a, b) <==> a in nodes && b in nodes && (a != b || exists i, j :: 0 <= i < j < |nodes| && nodes[i] == a && nodes[j] == a)
  {
    if a in nodes && b in nodes && a != b {
      var i :| 0 <= i < |nodes| && nodes[i] == a;
      var j :| 0 <= j < |nodes| && nodes[j] == b;
    }
    if a == b && exists i, j :: 0 <= i < j < |nodes| && nodes[i] == a && nodes[j] == a {
      var i, j :| 0 <= i < j < |nodes| && nodes[i] == a && nodes[j] == a;
    }
    if Paired(nodes, a, b) && a == b {
      var i, j :| 0 <= i < |nodes| && 0 <= j < |nodes| && i != j && nodes[i] == a && nodes[j] == b;
      if j < i {
        assert 0 <= j < i < |nodes| && nodes[j] == a && nodes[i] == a;
      }
    }
  }

  /** Hence that graph is complete. */
  lemma TspGraphComplete(nodes: seq<Cell>, g: Graph)
    requires Valid(g) && (forall x :: x in g.nodes <==> x in nodes)
    requires forall a, b :: (a, b) in g.weight <==> Paired(nodes, a, b)
    ensures Complete(g)
  {
    forall u, v | u in g.nodes && v in g.nodes && u != v ensures (u, v) in g.weight {
      PairedMeans(nodes, u, v);
    }
  }

  /** `p` is a path of `g` from `a` to `b`, as `nx.shortest_path` returns. */
  predicate PathBetween(g: Graph, a: Cell, b: Cell, p: seq<Cell>) {
    |p| >= 1 && p[0] == a && p[|p| - 1] == b && IsWalk(g, p)
  }

  /** What the model assumes of `nx.shortest_path(G, a, b)`: `None` for a raised error, otherwise a path of `G`. */
  ghost predicate ShortestPaths(g: Graph, sp: (Cell, Cell) -> Option<seq<Cell>>) {
    forall a, b :: sp(a, b).Some? ==> PathBetween(g, a, b, sp(a, b).value)
  }

  /** What the model assumes of `nx.minimum_spanning_tree(G)`: a spanning subgraph of `G`. */
  ghost predicate SpanningTrees(mst: Graph -> Graph) {
    forall h :: Valid(h) ==> SpanningSubgraph(mst(h), h)
  }

  /** A path of the grid graph moves one cell at a time. */
  lemma GridPathSteps(grid: seq<seq<Tiles.Slot>>, g: Graph, p: seq<Cell>)
    requires GridGraph(grid, g) && IsWalk(g, p)
    ensures forall k :: 0 <= k < |p| - 1 ==> Adjacent(p[k], p[k + 1])
  {
    forall k | 0 <= k < |p| - 1 ensures Adjacent(p[k], p[k + 1]) {
      GridGraphEdges(grid, g, p[k], p[k + 1]);
    }
  }

  /** `find_path`: the shortest path of the warehouse graph between two cells. */
  function FindPath(w: GridWarehouse, from: Cell, to: Cell, sp: (Cell, Cell) -> Option<seq<Cell>>): (r: Option<seq<Cell>>)
    requires ShortestPaths(w.graph, sp)
    ensures r.Some? ==> PathBetween(w.graph, from, to, r.value)
  {
    sp(from, to)
  }

  /** `ValueError` for a missing tour; `NoPath` for an error of `nx.shortest_path` between two tour stops. */
  datatype PickError = NoPickPath | NoPath

  /**
   * `path` visits the stops of `tour` in order: stop `k` is at position
   * `marks[k]`, the marks never go back, the path starts at the first stop and
   * ends at the last.
   */
  ghost predicate Stitched(tour: seq<Cell>, path: seq<Cell>, marks: seq<int>) {
    && |tour| >= 1
    && |marks| == |tour|
    && marks[0] == 0
    && marks[|marks| - 1] == |path| - 1
    && (forall k :: 0 <= k < |marks| - 1 ==> marks[k] <= marks[k + 1])
    && (forall k :: 0 <= k < |marks| ==> 0 <= marks[k] < |path| && path[marks[k]] == tour[k])
  }

  /**
   * Step 3 of `find_pick_path`: from the first stop, append the shortest path
   * to each next stop without its first cell.
   */
  method StitchTour(g: Graph, tour: seq<Cell>, sp: (Cell, Cell) -> Option<seq<Cell>>)
    returns (r: Result<seq<Cell>, PickError>, ghost marks: seq<int>)
    requires |tour| >= 1 && ShortestPaths(g, sp)
    ensures r.Success? ==> IsWalk(g, r.value) && Stitched(tour, r.value, marks)
    ensures r == Failure(NoPath) ==> exists k :: 0 <= k < |tour| - 1 && sp(tour[k], tour[k + 1]).None?
    ensures r.Failure? ==> r.error == NoPath
  {
    var finalPath := [tour[0]];
    marks := [0];
    for n := 1 to |tour|
      invariant IsWalk(g, finalPath) && Stitched(tour[..n], finalPath, marks)
    {
      var nextCell := tour[n];
      var currentCell := finalPath[|finalPath| - 1];
      assert currentCell == tour[n - 1];
      var found := sp(currentCell, nextCell);
      if found.None? {
        return Failure(NoPath), marks;
      }
      var pathToNextCell := found.value[1..];
      ghost var before := finalPath;
      for k := 0 to |pathToNextCell|
        invariant finalPath == before + pathToNextCell[..k]
      {
        finalPath := finalPath + [pathToNextCell[k]];
      }
      assert pathToNextCell[..|pathToNextCell|] == pathToNextCell;
      assert finalPath == before + found.value[1..];
      assert IsWalk(g, finalPath) by {
        forall k | 0 <= k < |finalPath| - 1 ensures (finalPath[k], finalPath[k + 1]) in g.weight {
          if k >= |before| - 1 {
            assert finalPath[k] == found.value[k - |before| + 1];
            assert finalPath[k + 1] == found.value[k - |before| + 2];
          }
        }
      }
      assert finalPath[|finalPath| - 1] == nextCell;
      marks := marks + [|finalPath| - 1];
      assert tour[..n + 1] == tour[..n] + [nextCell];
    }
    assert tour[..|tour|] == tour;
    return Success(finalPath), marks;
  }

  /** A single node without a self-loop has no tour. */
  lemma LoneNodeNoTour(g: Graph, from: Cell)
    requires g.nodes == [from] && (from, from) !in g.weight
    ensures forall q :: !IsTour(g, from, q)
  {
  }

  /**
   * With at least one item cell the pick graph has a second node or, when
   * every item is `from` itself, a self-loop at `from`: a tour can exist.
   */
  lemma TourPossible(from: Cell, intermediates: seq<Cell>, g: Graph)
    requires intermediates != []
    requires g.nodes == Dedup([from] + intermediates)
    requires forall a, b :: (a, b) in g.weight <==> Paired([from] + intermediates, a, b)
    ensures from in g.nodes && (|g.nodes| >= 2 || (from, from) in g.weight)
  {
    var nodes := [from] + intermediates;
    if forall x :: x in intermediates ==> x == from {
      assert intermediates[0] in intermediates;
      assert nodes[0] == from && nodes[1] == from;
      PairedMeans(nodes, from, from);
    } else {
      var x :| x in intermediates && x != from;
      assert x in g.nodes && from in g.nodes;
    }
  }

  /** A path stitched along a tour passes through every node the tour covers. */
  lemma StitchedCovers(g: Graph, from: Cell, tour: seq<Cell>, path: seq<Cell>, marks: seq<int>)
    requires IsTour(g, from, tour) && Stitched(tour, path, marks)
    ensures path[0] == from && path[|path| - 1] == from
    ensures forall x :: x in g.nodes ==> x in path
  {
    forall x | x in g.nodes ensures x in path {
      var k :| 0 <= k < |g.nodes| && tour[..|g.nodes|][k] == x;
      assert path[marks[k]] == tour[k];
    }
  }

  /**
   * Steps 1 and 2 of `find_pick_path`: the complete graph on `from` and the
   * item cells, and a tour of it from `from`. With the corrected tour search
   * a tour is missing exactly when there are no item cells.
   */
  method PickTour(from: Cell, intermediates: seq<Cell>, mst: Graph -> Graph)
    returns (stops: Option<seq<Cell>>, ghost gTsp: Graph)
    requires SpanningTrees(mst)
    ensures Valid(gTsp) && gTsp.nodes == Dedup([from] + intermediates)
    ensures forall a, b :: (a, b) in gTsp.weight <==> Paired([from] + intermediates, a, b)
    ensures forall e :: e in gTsp.weight ==> gTsp.weight[e] == Manhattan(e.0, e.1)
    ensures stops.Some? ==> IsTour(gTsp, from, stops.value)
    ensures stops.None? <==> intermediates == []
  {
    var g := BuildTspGraph(from, intermediates);
    gTsp := g;
    TspGraphComplete([from] + intermediates, g);
    var tspTour := CorrectedTspCircuit(g, from, mst(g));
    if intermediates == [] {
      assert g.nodes == [from];
      PairedMeans([from], from, from);
      LoneNodeNoTour(g, from);
    } else {
      TourPossible(from, intermediates, g);
    }
    if tspTour.Failure? || tspTour.value.None? {
      return None, gTsp;
    }
    return tspTour.value, gTsp;
  }

  /**
   * `find_pick_path`, with the corrected tour search of `PickTour`: a pick
   * path that leaves `from`, collects every cell of `intermediates` in the
   * order of a tour of the pick graph `gTsp`, and comes back to `from`.
   * Without intermediate cells no tour exists and the error is `NoPickPath`.
   */
  method FindPickPath(w: GridWarehouse, from: Cell, intermediates: seq<Cell>,
                      mst: Graph -> Graph, sp: (Cell, Cell) -> Option<seq<Cell>>)
    returns (r: Result<seq<Cell>, PickError>, ghost tour: seq<Cell>, ghost marks: seq<int>, ghost gTsp: Graph)
    requires SpanningTrees(mst) && ShortestPaths(w.graph, sp)
    ensures Valid(gTsp) && gTsp.nodes == Dedup([from] + intermediates)
    ensures forall a, b :: (a, b) in gTsp.weight <==> Paired([from] + intermediates, a, b)
    ensures forall e :: e in gTsp.weight ==> gTsp.weight[e] == Manhattan(e.0, e.1)
    ensures r.Success? || r == Failure(NoPath) ==> IsTour(gTsp, from, tour)
    ensures r.Success? ==> Stitched(tour, r.value, marks) && IsWalk(w.graph, r.value)
    ensures r.Success? ==> r.value[0] == from && r.value[|r.value| - 1] == from
    ensures r.Success? ==> forall x :: x in [from] + intermediates ==> x in r.value
    ensures r.Success? ==> |tour| == |Dedup([from] + intermediates)| + 1
    ensures r == Failure(NoPath) ==> exists k :: 0 <= k < |tour| - 1 && sp(tour[k], tour[k + 1]).None?
    ensures r == Failure(NoPickPath) <==> intermediates == []
  {
    var tspTour;
    tspTour, gTsp := PickTour(from, intermediates, mst);
    if tspTour.None? {
      return Failure(NoPickPath), [], [], gTsp;
    }
    var stops := tspTour.value;
    tour := stops;
    r, marks := StitchTour(w.graph, stops, sp);
    if r.Success? {
      StitchedCovers(gTsp, from, stops, r.value, marks);
    }
  }

  /** The start cell of the pick request in which the tour search fails. */
  const CrossCentre: Cell := (1, 1)

  /** The three item cells around `CrossCentre`: left, right and below, each one step away. */
  const CrossItems: seq<Cell> := [(0, 1), (2, 1), (1, 0)]

  /**
   * The pick graph of `find_pick_path((1, 1), [(0, 1), (2, 1), (1, 0)])`, as
   * `BuildTspGraph` describes it. Its only spanning tree of least weight is
   * `CrossTree`: the tree's edges weigh one and every other edge two. No
   * augmentation of that tree has a circuit, so `tsp_circuit` returns `None`
   * and the request fails.
   */
  lemma CrossPickNoCircuit(g: Graph)
    requires Valid(g) && g.nodes == Dedup([CrossCentre] + CrossItems)
    requires forall a, b :: (a, b) in g.weight <==> Paired([CrossCentre] + CrossItems, a, b)
    requires forall e :: e in g.weight ==> g.weight[e] == Manhattan(e.0, e.1)
    ensures SpanningSubgraph(CrossTree, g) && StarAt(CrossTree, CrossCentre)
    ensures forall e :: e in g.weight ==> g.weight[e] >= 1
    ensures forall e :: e in g.weight && e.0 != CrossCentre && e.1 != CrossCentre ==> g.weight[e] == 2
    ensures forall t :: Augmented(g, CrossTree, t) ==> forall q :: !IsTour(t, CrossCentre, q)
  {
    CrossNodes();
    CrossGraph(g);
    CrossNoCircuit(g);
  }

  lemma CrossNodes()
    ensures Dedup([CrossCentre] + CrossItems) == [CrossCentre] + CrossItems
  {
    var s := [CrossCentre] + CrossItems;
    assert s[..1] == [(1, 1)] && Dedup(s[..1]) == [(1, 1)];
    assert s[..2][..1] == s[..1] && Dedup(s[..2]) == [(1, 1), (0, 1)];
    assert s[..3][..2] == s[..2] && Dedup(s[..3]) == [(1, 1), (0, 1), (2, 1)];
    assert s[..4][..3] == s[..3] && s[..4] == s;
  }

  /** The pick graph on the cross is complete, without self-loops, and weighs each edge by distance at least one. */
  lemma CrossGraph(g: Graph)
    requires Valid(g) && g.nodes == [CrossCentre] + CrossItems
    requires forall a, b :: (a, b) in g.weight <==> Paired([CrossCentre] + CrossItems, a, b)
    requires forall e :: e in g.weight ==> g.weight[e] == Manhattan(e.0, e.1)
    ensures Complete(g)
    ensures forall e :: e in g.weight ==> g.weight[e] >= 1
  {
    var s := [CrossCentre] + CrossItems;
    TspGraphComplete(s, g);
    forall e | e in g.weight ensures e.0 != e.1 {
      PairedMeans(s, e.0, e.1);
    }
  }
}

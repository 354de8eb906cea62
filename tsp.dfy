/**
 * The helpers of the Christofides-style tour in wms/tsp.py: odd-degree nodes
 * of the spanning tree, a greedy matching on them, adding the matching to the
 * tree, and a backtracking search for a Hamiltonian circuit. The spanning tree
 * itself comes from networkx and is an input here.
 */
module Tsp {
  import opened Coords
  import opened Graphs
  import opened Results

  /** The nodes of `s` whose degree in `g` is odd, in the order of `s`. */
  function OddDegree(g: Graph, s: seq<Cell>): seq<Cell> {
    if s == [] then []
    else
      var v := s[|s| - 1];
      OddDegree(g, s[..|s| - 1]) + if Degree(g, v) % 2 == 1 then [v] else []
  }

  lemma {:induction false} OddDegreeMembers(g: Graph, s: seq<Cell>)
    ensures forall x :: x in OddDegree(g, s) <==> x in s && Degree(g, x) % 2 == 1
  {
    if s != [] {
      var init := s[..|s| - 1];
      OddDegreeMembers(g, init);
      assert s == init + [s[|s| - 1]];
    }
  }

  lemma {:induction false} OddDegreeSum(g: Graph, s: seq<Cell>) returns (k: nat)
    ensures DegreeSum(g, s) == |OddDegree(g, s)| + 2 * k
  {
    if s == [] {
      return 0;
    }
    var init := s[..|s| - 1];
    var d := Degree(g, s[|s| - 1]);
    k := OddDegreeSum(g, init);
    k := k + d / 2;
  }

  /** Every graph has an even number of odd-degree nodes. */
  lemma OddDegreeEven(g: Graph)
    requires Valid(g)
    ensures |OddDegree(g, g.nodes)| % 2 == 0
  {
    var edges := HandshakeEven(g);
    var k := OddDegreeSum(g, g.nodes);
    Parity(edges - k);
  }

  /** `_get_nodes_with_odd_degree`: the odd-degree nodes, in node iteration order. */
  method NodesWithOddDegree(g: Graph) returns (nodes: seq<Cell>)
    ensures nodes == OddDegree(g, g.nodes)
    ensures forall x :: x in nodes <==> x in g.nodes && Degree(g, x) % 2 == 1
  {
    nodes := [];
    for i := 0 to |g.nodes|
      invariant nodes == OddDegree(g, g.nodes[..i])
    {
      var node := g.nodes[i];
      assert g.nodes[..i + 1][..i] == g.nodes[..i];
      if Degree(g, node) % 2 == 1 {
        nodes := nodes + [node];
      }
    }
    assert g.nodes[..|g.nodes|] == g.nodes;
    OddDegreeMembers(g, g.nodes);
  }

  /** A matched pair `(v, closest, min_weight)`. */
  type Triple = (Cell, Cell, int)

  /** `ValueError` (odd number of nodes) and the `KeyError` of removing `None` when no partner has an edge. */
  datatype MatchingError = OddNodeCount | NoPartner

  /** `x` is an end of one of the triples of `order`. */
  ghost predicate CoveredBy(order: seq<Triple>, x: Cell) {
    exists k :: 0 <= k < |order| && (x == order[k].0 || x == order[k].1)
  }

  /** A triple joins two distinct nodes by an edge of `g` and carries its weight. */
  ghost predicate MatchedEdge(g: Graph, t: Triple) {
    t.0 != t.1 && (t.0, t.1) in g.weight && t.2 == g.weight[(t.0, t.1)]
  }

  /** No two triples of `m` share an end. */
  ghost predicate Disjoint(m: set<Triple>) {
    forall t, t' :: t in m && t' in m && t != t' ==> t.0 != t'.0 && t.0 != t'.1 && t.1 != t'.0 && t.1 != t'.1
  }

  /** Every node of `g` is an end of exactly one triple of `m`, each triple an edge of `g`. */
  ghost predicate PerfectMatching(g: Graph, m: set<Triple>) {
    && (forall t :: t in m ==> MatchedEdge(g, t))
    && Disjoint(m)
    && (forall x :: x in g.nodes ==> exists t :: t in m && (x == t.0 || x == t.1))
    && (forall t :: t in m ==> t.0 in g.nodes && t.1 in g.nodes)
    && 2 * |m| == |g.nodes|
  }

  /**
   * The greedy choice, in the order the triples were made: each partner has the
   * least edge weight to `v` among the nodes no earlier triple had taken.
   */
  ghost predicate Greedy(g: Graph, order: seq<Triple>) {
    forall k, x :: 0 <= k < |order| && x in g.nodes && !CoveredBy(order[..k], x) && x != order[k].0
                   && (x, order[k].0) in g.weight
                   ==> order[k].2 <= g.weight[(x, order[k].0)]
  }

  /**
   * What holds between two rounds of `_min_weight_matching`: `nodes` are the
   * nodes no triple of `order` covers, the triples are disjoint edges of `g`,
   * chosen greedily.
   */
  ghost predicate MatchState(g: Graph, all: set<Cell>, nodes: set<Cell>, order: seq<Triple>) {
    && nodes <= all
    && (forall x :: x in all ==> (x in nodes <==> !CoveredBy(order, x)))
    && (forall k :: 0 <= k < |order| ==> MatchedEdge(g, order[k]))
    && (forall k :: 0 <= k < |order| ==> order[k].0 in all && order[k].1 in all)
    && (forall i, j :: 0 <= i < j < |order| ==>
          order[i].0 != order[j].0 && order[i].0 != order[j].1 && order[i].1 != order[j].0 && order[i].1 != order[j].1)
    && |nodes| + 2 * |order| == |all|
    && Greedy(g, order)
  }

  /** Appending a triple covers its two ends and what was covered before. */
  lemma CoverStep(order: seq<Triple>, t: Triple)
    ensures forall x :: CoveredBy(order + [t], x) <==> CoveredBy(order, x) || x == t.0 || x == t.1
  {
    var order' := order + [t];
    forall x ensures CoveredBy(order', x) <==> CoveredBy(order, x) || x == t.0 || x == t.1 {
      if CoveredBy(order', x) {
        var k :| 0 <= k < |order'| && (x == order'[k].0 || x == order'[k].1);
        if k < |order| { assert order'[k] == order[k]; }
      }
      if CoveredBy(order, x) {
        var k :| 0 <= k < |order| && (x == order[k].0 || x == order[k].1);
        assert order'[k] == order[k];
      }
      if x == t.0 || x == t.1 { assert order'[|order|] == t; }
    }
  }

  /** The greedy choice survives appending a triple whose weight is least among the uncovered nodes. */
  lemma GreedyStep(g: Graph, order: seq<Triple>, t: Triple)
    requires Greedy(g, order)
    requires forall x :: x in g.nodes && !CoveredBy(order, x) && x != t.0 && (x, t.0) in g.weight ==> t.2 <= g.weight[(x, t.0)]
    ensures Greedy(g, order + [t])
  {
    var order' := order + [t];
    forall k, x | 0 <= k < |order'| && x in g.nodes && !CoveredBy(order'[..k], x) && x != order'[k].0
                  && (x, order'[k].0) in g.weight
      ensures order'[k].2 <= g.weight[(x, order'[k].0)]
    {
      if k < |order| {
        assert order'[..k] == order[..k];
        assert order'[k] == order[k];
      } else {
        assert order'[..k] == order;
      }
    }
  }

  /** One round: `v` is paired with `u`, the remaining node of least edge weight to it. */
  lemma MatchStep(g: Graph, all: set<Cell>, nodes: set<Cell>, order: seq<Triple>, v: Cell, u: Cell, w: int)
    requires all == SetOf(g.nodes)
    requires MatchState(g, all, nodes, order)
    requires v in nodes && u in nodes && u != v
    requires (v, u) in g.weight && w == g.weight[(v, u)]
    requires forall x :: x in nodes - {v} && (x, v) in g.weight ==> w <= g.weight[(x, v)]
    ensures MatchState(g, all, nodes - {v} - {u}, order + [(v, u, w)])
  {
    var t: Triple := (v, u, w);
    var order' := order + [t];
    CoverStep(order, t);
    assert !CoveredBy(order, v) && !CoveredBy(order, u);
    forall i, j | 0 <= i < j < |order'|
      ensures order'[i].0 != order'[j].0 && order'[i].0 != order'[j].1 && order'[i].1 != order'[j].0 && order'[i].1 != order'[j].1
    {
      assert order'[i] == order[i];
      if j < |order| {
        assert order'[j] == order[j];
      } else {
        assert order'[j] == t;
        assert CoveredBy(order, order[i].0) && CoveredBy(order, order[i].1);
      }
    }
    forall x | x in g.nodes && !CoveredBy(order, x) && x != v && (x, v) in g.weight
      ensures w <= g.weight[(x, v)]
    {
      assert x in all;
    }
    GreedyStep(g, order, t);
    forall k | 0 <= k < |order'| ensures MatchedEdge(g, order'[k]) && order'[k].0 in all && order'[k].1 in all {
      if k < |order| { assert order'[k] == order[k]; }
    }
    assert |nodes - {v} - {u}| == |nodes| - 2;
  }

  lemma Parity(k: int)
    ensures (2 * k) % 2 == 0 && (2 * k + 1) % 2 == 1
  {
  }

  /** Before the first round every node is uncovered. */
  lemma MatchStart(g: Graph)
    requires Valid(g)
    ensures MatchState(g, SetOf(g.nodes), SetOf(g.nodes), []) && |SetOf(g.nodes)| == |g.nodes|
  {
    DistinctCard(g.nodes);
  }

  /** When no node is left, the triples cover every node. */
  lemma MatchCovers(g: Graph, all: set<Cell>, order: seq<Triple>)
    requires all == SetOf(g.nodes) && MatchState(g, all, {}, order)
    ensures forall x :: x in g.nodes ==> exists t :: t in SetOf(order) && (x == t.0 || x == t.1)
  {
    forall x | x in g.nodes ensures exists t :: t in SetOf(order) && (x == t.0 || x == t.1) {
      assert x in all && CoveredBy(order, x);
      var k :| 0 <= k < |order| && (x == order[k].0 || x == order[k].1);
      assert order[k] in SetOf(order);
    }
  }

  /** Triples with pairwise distinct ends make a disjoint set with one element per triple. */
  lemma MatchDisjoint(order: seq<Triple>)
    requires forall i, j :: 0 <= i < j < |order| ==>
               order[i].0 != order[j].0 && order[i].0 != order[j].1 && order[i].1 != order[j].0 && order[i].1 != order[j].1
    ensures Disjoint(SetOf(order)) && |SetOf(order)| == |order|
  {
    var matching := SetOf(order);
    forall t, t' | t in matching && t' in matching && t != t'
      ensures t.0 != t'.0 && t.0 != t'.1 && t.1 != t'.0 && t.1 != t'.1
    {
      var i :| 0 <= i < |order| && order[i] == t;
      var j :| 0 <= j < |order| && order[j] == t';
    }
    assert Distinct(order) by {
      forall i, j | 0 <= i < j < |order| ensures order[i] != order[j] {
        assert order[i].0 != order[j].0;
      }
    }
    DistinctCard(order);
  }

  /** When no node is left, the triples form a perfect matching of `g`. */
  lemma MatchDone(g: Graph, all: set<Cell>, order: seq<Triple>)
    requires Valid(g) && all == SetOf(g.nodes) && MatchState(g, all, {}, order)
    ensures PerfectMatching(g, SetOf(order)) && |SetOf(order)| == |order|
  {
    MatchCovers(g, all, order);
    MatchDisjoint(order);
    MatchEdges(g, all, order);
    DistinctCard(g.nodes);
  }

  /** The triples are edges of `g` between its nodes. */
  lemma MatchEdges(g: Graph, all: set<Cell>, order: seq<Triple>)
    requires all == SetOf(g.nodes) && MatchState(g, all, {}, order)
    ensures forall t :: t in SetOf(order) ==> MatchedEdge(g, t) && t.0 in g.nodes && t.1 in g.nodes
  {
    forall t | t in SetOf(order) ensures MatchedEdge(g, t) && t.0 in g.nodes && t.1 in g.nodes {
      var k :| 0 <= k < |order| && order[k] == t;
    }
  }

  /**
   * The inner loop of `_min_weight_matching`: the node of `nodes` with the
   * least edge weight to `v`, the first one met on ties; `None` when `v` has
   * no edge into `nodes`.
   */
  method Closest(g: Graph, v: Cell, nodes: set<Cell>) returns (closest: Option<Cell>, minWeight: Option<int>)
    ensures closest.None? <==> minWeight.None?
    ensures closest.None? <==> forall x :: x in nodes ==> (x, v) !in g.weight
    ensures closest.Some? ==> closest.value in nodes && (closest.value, v) in g.weight
                              && minWeight.value == g.weight[(closest.value, v)]
    ensures closest.Some? ==> forall x :: x in nodes && (x, v) in g.weight ==> minWeight.value <= g.weight[(x, v)]
  {
    minWeight := None;
    closest := None;
    var rest := nodes;
    while rest != {}
      invariant rest <= nodes
      invariant closest.None? <==> minWeight.None?
      invariant closest.None? ==> forall x :: x in nodes - rest ==> (x, v) !in g.weight
      invariant closest.Some? ==> closest.value in nodes - rest && (closest.value, v) in g.weight
                                  && minWeight.value == g.weight[(closest.value, v)]
      invariant closest.Some? ==> forall x :: x in nodes - rest && (x, v) in g.weight ==> minWeight.value <= g.weight[(x, v)]
      decreases |rest|
    {
      var u :| u in rest;
      rest := rest - {u};
      if (u, v) in g.weight && (minWeight.None? || g.weight[(u, v)] < minWeight.value) {
        minWeight := Some(g.weight[(u, v)]);
        closest := Some(u);
      }
    }
  }

  /**
   * `_min_weight_matching`: pop any node, pair it with the remaining node of
   * least edge weight, repeat. Fails when a node is left alone (odd count) or
   * has no edge to any remaining node.
   */
  method MinWeightMatching(g: Graph) returns (r: Result<set<Triple>, MatchingError>, ghost order: seq<Triple>)
    requires Valid(g)
    ensures r.Success? ==> PerfectMatching(g, r.value)
    ensures r.Success? ==> r.value == SetOf(order) && |order| == |r.value| && Greedy(g, order)
    ensures r == Failure(OddNodeCount) ==> |g.nodes| % 2 == 1
    ensures r == Failure(NoPartner) ==> !Complete(g)
    ensures r.Success? ==> |g.nodes| % 2 == 0
    ensures Complete(g) && |g.nodes| % 2 == 0 ==> r.Success?
    ensures Complete(g) && |g.nodes| % 2 == 1 ==> r == Failure(OddNodeCount)
  {
    ghost var all := SetOf(g.nodes);
    MatchStart(g);
    var nodes := SetOf(g.nodes);
    var matching: set<Triple> := {};
    order := [];
    while nodes != {}
      invariant MatchState(g, all, nodes, order)
      invariant matching == SetOf(order)
      decreases |nodes|
    {
      var v :| v in nodes;
      var rest := nodes - {v};
      assert |rest| == |nodes| - 1;
      if rest == {} {
        assert |g.nodes| == 2 * |order| + 1;
        Parity(|order|);
        return Failure(OddNodeCount), order;
      }
      var closest, minWeight := Closest(g, v, rest);
      if closest.None? {
        assert !Complete(g) by {
          var x :| x in rest;
          assert x != v && x in g.nodes && v in g.nodes && (x, v) !in g.weight;
        }
        return Failure(NoPartner), order;
      }
      var u := closest.value;
      assert (v, u) in g.weight && g.weight[(v, u)] == minWeight.value;
      MatchStep(g, all, nodes, order, v, u, minWeight.value);
      SetOfAppend(order, (v, u, minWeight.value));
      matching := matching + {(v, u, minWeight.value)};
      order := order + [(v, u, minWeight.value)];
      nodes := rest - {u};
    }
    MatchDone(g, all, order);
    assert |g.nodes| == 2 * |order|;
    Parity(|order|);
    r := Success(matching);
  }

  /** Some triple of `m` names the pair `p`, in either orientation. */
  ghost predicate Matched(m: set<Triple>, p: (Cell, Cell)) {
    exists t :: t in m && (p == (t.0, t.1) || p == (t.1, t.0))
  }

  /**
   * What holds of `t` once the triples `done` of `m` have been added to `tree`:
   * the matched pairs are edges carrying a weight of one of their triples and
   * every other edge keeps its weight.
   */
  ghost predicate AddedSoFar(tree: Graph, m: set<Triple>, done: set<Triple>, t: Graph) {
    && Valid(t)
    && ((forall e :: e in m ==> e.0 in tree.nodes && e.1 in tree.nodes) ==> t.nodes == tree.nodes)
    && (forall p :: p in t.weight <==> p in tree.weight || Matched(done, p))
    && (forall p :: p in tree.weight && !Matched(done, p) ==> t.weight[p] == tree.weight[p])
    && (forall p :: Matched(done, p) ==>
          exists e :: e in done && (p == (e.0, e.1) || p == (e.1, e.0)) && t.weight[p] == e.2)
  }

  lemma AddedStep(tree: Graph, m: set<Triple>, rest: set<Triple>, t: Graph, e: Triple)
    requires Valid(tree) && rest <= m && e in rest && AddedSoFar(tree, m, m - rest, t)
    ensures AddedSoFar(tree, m, m - (rest - {e}), AddEdge(t, e.0, e.1, e.2))
  {
    AddEdgeValid(t, e.0, e.1, e.2);
    var t' := AddEdge(t, e.0, e.1, e.2);
    var done := m - rest;
    var done' := m - (rest - {e});
    assert done' == done + {e};
    forall p ensures Matched(done', p) <==> Matched(done, p) || p == (e.0, e.1) || p == (e.1, e.0) {
      if Matched(done', p) {
        var f :| f in done' && (p == (f.0, f.1) || p == (f.1, f.0));
        if f != e { assert f in done; }
      }
      if Matched(done, p) {
        var f :| f in done && (p == (f.0, f.1) || p == (f.1, f.0));
        assert f in done';
      }
    }
    forall p | Matched(done', p)
      ensures exists f :: f in done' && (p == (f.0, f.1) || p == (f.1, f.0)) && t'.weight[p] == f.2
    {
      if p == (e.0, e.1) || p == (e.1, e.0) {
        assert e in done';
      } else {
        var f :| f in done && (p == (f.0, f.1) || p == (f.1, f.0)) && t.weight[p] == f.2;
        assert f in done';
      }
    }
  }

  /**
   * `_add_matching_to_mst`: `T.add_edge(u, v, weight=w)` for every triple. The
   * matched pairs become edges carrying a matched weight; every other edge
   * keeps its weight.
   */
  method AddMatchingToMst(tree: Graph, m: set<Triple>) returns (t: Graph)
    requires Valid(tree)
    ensures AddedSoFar(tree, m, m, t)
    ensures Disjoint(m) ==> forall e :: e in m ==>
              (e.0, e.1) in t.weight && t.weight[(e.0, e.1)] == e.2 && (e.1, e.0) in t.weight && t.weight[(e.1, e.0)] == e.2
  {
    t := tree;
    var rest := m;
    assert m - rest == {};
    while rest != {}
      invariant rest <= m
      invariant AddedSoFar(tree, m, m - rest, t)
      decreases |rest|
    {
      var e :| e in rest;
      AddedStep(tree, m, rest, t, e);
      t := AddEdge(t, e.0, e.1, e.2);
      rest := rest - {e};
    }
    assert m - rest == m;
    if Disjoint(m) {
      DisjointWeights(tree, m, t);
    }
  }

  /** With disjoint triples, each matched pair carries the weight of its own triple. */
  lemma DisjointWeights(tree: Graph, m: set<Triple>, t: Graph)
    requires AddedSoFar(tree, m, m, t) && Disjoint(m)
    ensures forall e :: e in m ==>
              (e.0, e.1) in t.weight && t.weight[(e.0, e.1)] == e.2 && (e.1, e.0) in t.weight && t.weight[(e.1, e.0)] == e.2
  {
    forall e | e in m
      ensures (e.0, e.1) in t.weight && t.weight[(e.0, e.1)] == e.2 && (e.1, e.0) in t.weight && t.weight[(e.1, e.0)] == e.2
    {
      assert Matched(m, (e.0, e.1)) && Matched(m, (e.1, e.0));
      var f :| f in m && ((e.0, e.1) == (f.0, f.1) || (e.0, e.1) == (f.1, f.0)) && t.weight[(e.0, e.1)] == f.2;
      var f' :| f' in m && ((e.1, e.0) == (f'.0, f'.1) || (e.1, e.0) == (f'.1, f'.0)) && t.weight[(e.1, e.0)] == f'.2;
    }
  }

  /** The list `ham_path`, shared by the recursive calls that push and pop its last cell. */
  class HamPath {
    var cells: seq<Cell>

    constructor (source: Cell)
      ensures cells == [source]
    {
      cells := [source];
    }

    /** `ham_path.append(x)`. */
    method Append(x: Cell)
      modifies this
      ensures cells == old(cells) + [x]
    {
      cells := cells + [x];
    }

    /** `ham_path.pop(len(ham_path) - 1)`. */
    method Pop()
      requires |cells| >= 1
      modifies this
      ensures cells == old(cells)[..|old(cells)| - 1]
    {
      cells := cells[..|cells| - 1];
    }
  }

  /**
   * `path` is `prefix` continued by fresh nodes of `g`, one edge at a time,
   * until it holds as many entries as `g` has nodes, and then closed by an
   * edge back to `source`.
   */
  ghost predicate ExtendsToCircuit(g: Graph, source: Cell, prefix: seq<Cell>, path: seq<Cell>) {
    && 1 <= |prefix| <= |g.nodes|
    && |path| == |g.nodes| + 1
    && path[..|prefix|] == prefix
    && path[|g.nodes|] == source
    && (forall k :: |prefix| - 1 <= k < |g.nodes| ==> (path[k], path[k + 1]) in g.weight)
    && (forall k :: |prefix| <= k < |g.nodes| ==> path[k] in g.nodes && path[k] !in path[..k])
  }

  /** A closed walk from `source` through every node of `g` exactly once. */
  ghost predicate IsTour(g: Graph, source: Cell, path: seq<Cell>) {
    && source in g.nodes
    && |path| == |g.nodes| + 1
    && path[0] == source
    && path[|g.nodes|] == source
    && IsWalk(g, path)
    && Distinct(path[..|g.nodes|])
    && (forall x :: x in g.nodes <==> x in path[..|g.nodes|])
  }

  /** A circuit through `prefix + [node]` is one through `prefix` when the step to `node` is allowed. */
  lemma ExtendsShorter(g: Graph, source: Cell, prefix: seq<Cell>, node: Cell, path: seq<Cell>)
    requires |prefix| >= 1 && (prefix[|prefix| - 1], node) in g.weight && node in g.nodes && node !in prefix
    requires ExtendsToCircuit(g, source, prefix + [node], path)
    ensures ExtendsToCircuit(g, source, prefix, path)
  {
    var n := |prefix|;
    assert path[..n] == (prefix + [node])[..n] == prefix by {
      assert path[..n] == path[..n + 1][..n];
    }
    assert path[n] == node by {
      assert path[n] == path[..n + 1][n];
    }
  }

  /** A circuit through `prefix` whose next entry is `node` is one through `prefix + [node]`. */
  lemma ExtendsLonger(g: Graph, source: Cell, prefix: seq<Cell>, path: seq<Cell>)
    requires ExtendsToCircuit(g, source, prefix, path) && |prefix| < |g.nodes|
    ensures ExtendsToCircuit(g, source, prefix + [path[|prefix|]], path)
  {
    var n := |prefix|;
    assert path[..n + 1] == path[..n] + [path[n]];
  }

  /** Adding a node of `g` that the path lacks brings the path closer to all of `g`'s nodes. */
  lemma MissingShrinks(nodes: seq<Cell>, cells: seq<Cell>, node: Cell)
    requires node in nodes && node !in cells
    ensures |SetOf(nodes) - SetOf(cells + [node])| < |SetOf(nodes) - SetOf(cells)|
  {
    SetOfAppend(cells, node);
    var before := SetOf(nodes) - SetOf(cells);
    assert SetOf(nodes) - SetOf(cells + [node]) == before - {node};
    assert node in before;
  }

  /**
   * `_hamilton_circuit_helper`: backtracking depth-first search, in node
   * order, for fresh nodes joined by edges until the path holds every node,
   * then an edge back to `source`. On success the path has been extended to
   * a circuit; on failure it is as it was, and no such circuit exists.
   */
  method HamiltonCircuitHelper(g: Graph, source: Cell, p: HamPath) returns (found: bool)
    requires |p.cells| >= 1
    modifies p
    decreases |SetOf(g.nodes) - SetOf(p.cells)|
    ensures found ==> ExtendsToCircuit(g, source, old(p.cells), p.cells)
    ensures !found ==> p.cells == old(p.cells)
    ensures !found ==> forall q :: !ExtendsToCircuit(g, source, old(p.cells), q)
  {
    if |p.cells| == |g.nodes| {
      var last := p.cells[|p.cells| - 1];
      if (last, source) in g.weight {
        ghost var prefix := p.cells;
        p.Append(source);
        assert p.cells[..|prefix|] == prefix;
        return true;
      }
      return false;
    }
    ghost var prefix := p.cells;
    for i := 0 to |g.nodes|
      invariant p.cells == prefix
      invariant forall q :: ExtendsToCircuit(g, source, prefix, q) ==> q[|prefix|] !in g.nodes[..i]
    {
      var node := g.nodes[i];
      var last := p.cells[|p.cells| - 1];
      if (last, node) in g.weight && node !in p.cells {
        MissingShrinks(g.nodes, p.cells, node);
        p.Append(node);
        found := HamiltonCircuitHelper(g, source, p);
        if found {
          ExtendsShorter(g, source, prefix, node, p.cells);
          return true;
        }
        p.Pop();
        assert p.cells == prefix;
        forall q | ExtendsToCircuit(g, source, prefix, q) ensures q[|prefix|] != node {
          if q[|prefix|] == node {
            ExtendsLonger(g, source, prefix, q);
          }
        }
      } else {
        forall q | ExtendsToCircuit(g, source, prefix, q) ensures q[|prefix|] != node {
          assert q[..|prefix|] == prefix;
          assert q[|prefix| - 1] == last;
        }
      }
      assert g.nodes[..i + 1] == g.nodes[..i] + [node];
    }
    assert g.nodes[..|g.nodes|] == g.nodes;
    return false;
  }

  /** A circuit found from `[source]` is a tour. */
  lemma TourFromExtension(g: Graph, source: Cell, path: seq<Cell>)
    requires Valid(g) && ExtendsToCircuit(g, source, [source], path)
    ensures IsTour(g, source, path)
  {
    var n := |g.nodes|;
    assert path[0] == source by { assert path[0] == path[..1][0]; }
    assert (path[n - 1], path[n]) in g.weight;
    assert source in g.nodes;
    var body := path[..n];
    assert Distinct(body) by {
      forall i, j | 0 <= i < j < n ensures body[i] != body[j] {
        assert body[i] in path[..j];
      }
    }
    forall x | x in body ensures x in g.nodes {
      var k :| 0 <= k < n && body[k] == x;
    }
    CoverByCount(body, g.nodes);
    assert forall x :: x in g.nodes <==> x in body;
  }

  /** Every tour is a circuit found from `[source]`. */
  lemma ExtensionFromTour(g: Graph, source: Cell, path: seq<Cell>)
    requires IsTour(g, source, path)
    ensures ExtendsToCircuit(g, source, [source], path)
  {
    var n := |g.nodes|;
    var body := path[..n];
    forall k | 1 <= k < n ensures path[k] in g.nodes && path[k] !in path[..k] {
      assert path[k] == body[k];
      assert path[..k] == body[..k];
      forall j | 0 <= j < k ensures body[..k][j] != body[k] {
        assert body[..k][j] == body[j];
      }
    }
  }

  /** `_hamilton_circuit`: the search from `[source]`; `None` exactly when `g` has no tour from `source`. */
  method HamiltonCircuit(g: Graph, source: Cell) returns (path: Option<seq<Cell>>)
    requires Valid(g)
    ensures path.Some? ==> IsTour(g, source, path.value)
    ensures path.None? ==> forall q :: !IsTour(g, source, q)
  {
    var p := new HamPath(source);
    var found := HamiltonCircuitHelper(g, source, p);
    if !found {
      forall q | IsTour(g, source, q) ensures false {
        ExtensionFromTour(g, source, q);
      }
      return None;
    }
    TourFromExtension(g, source, p.cells);
    return Some(p.cells);
  }

  /** `t` spans `g`: a graph on the same nodes whose edges are edges of `g` with the same weights. */
  ghost predicate SpanningSubgraph(t: Graph, g: Graph) {
    && Valid(t)
    && t.nodes == g.nodes
    && forall e :: e in t.weight ==> e in g.weight && t.weight[e] == g.weight[e]
  }

  /** A tour of a spanning subgraph is a tour of the graph. */
  lemma TourOfSupergraph(t: Graph, g: Graph, source: Cell, path: seq<Cell>)
    requires t.nodes == g.nodes && (forall e :: e in t.weight ==> e in g.weight)
    requires IsTour(t, source, path)
    ensures IsTour(g, source, path)
  {
  }

  /** The tree with the matching added keeps the nodes of `g` and uses only edges of `g`. */
  lemma AugmentedInside(g: Graph, tree: Graph, odd: seq<Cell>, m: set<Triple>, t: Graph)
    requires Valid(g) && SpanningSubgraph(tree, g)
    requires PerfectMatching(Induced(g, odd), m)
    requires AddedSoFar(tree, m, m, t)
    ensures t.nodes == g.nodes
    ensures forall e :: e in t.weight ==> e in g.weight
  {
    var sub := Induced(g, odd);
    forall e | e in m ensures e.0 in tree.nodes && e.1 in tree.nodes {
      assert e.0 in sub.nodes && e.1 in sub.nodes;
    }
    forall p | p in t.weight ensures p in g.weight {
      if !(p in tree.weight) {
        var e :| e in m && (p == (e.0, e.1) || p == (e.1, e.0));
        assert MatchedEdge(sub, e);
      }
    }
  }

  /** Every two distinct nodes of `g` in `keep` are joined in the subgraph induced on `keep`. */
  lemma InducedComplete(g: Graph, keep: seq<Cell>)
    requires Complete(g)
    ensures Complete(Induced(g, keep))
  {
  }

  /**
   * `tsp_circuit`: the odd-degree nodes of the spanning tree, a matching on
   * the subgraph of `g` they induce, the matching added to the tree, and a
   * Hamiltonian circuit of the result. The spanning tree is the one
   * `nx.minimum_spanning_tree(G)` returns; of it the model uses only that it
   * spans `g`.
   */
  method TspCircuit(g: Graph, source: Cell, tree: Graph)
    returns (r: Result<Option<seq<Cell>>, MatchingError>, ghost augmented: Graph)
    requires Valid(g) && SpanningSubgraph(tree, g)
    ensures r.Success? && r.value.Some? ==> IsTour(g, source, r.value.value)
    ensures r.Failure? ==> r.error == NoPartner && !Complete(g)
    ensures r.Success? ==> Augmented(g, tree, augmented)
    ensures r.Success? ==> (r.value.None? <==> forall q :: !IsTour(augmented, source, q))
  {
    var matching := MatchOddNodes(g, tree);
    if matching.Failure? {
      return Failure(matching.error), tree;
    }
    var t := AddMatchingToMst(tree, matching.value);
    augmented := t;
    AugmentedInside(g, tree, OddDegree(tree, tree.nodes), matching.value, t);
    var path := HamiltonCircuit(t, source);
    if path.Some? {
      TourOfSupergraph(t, g, source, path.value);
    }
    return Success(path), augmented;
  }

  /** Steps 2 to 4 of `tsp_circuit`: the odd-degree nodes of the tree and a matching on the subgraph of `g` they induce. */
  method MatchOddNodes(g: Graph, tree: Graph) returns (r: Result<set<Triple>, MatchingError>)
    requires Valid(g) && SpanningSubgraph(tree, g)
    ensures r.Success? ==> PerfectMatching(Induced(g, OddDegree(tree, tree.nodes)), r.value)
    ensures r.Failure? ==> r.error == NoPartner && !Complete(g)
  {
    var odd := NodesWithOddDegree(tree);
    var sub := Induced(g, odd);
    var matching, order := MinWeightMatching(sub);
    if matching.Failure? {
      MatchingFailure(g, tree, matching.error);
    }
    return matching;
  }

  /** `t` is the spanning tree with a perfect matching on its odd-degree nodes added (steps 2 to 5). */
  ghost predicate Augmented(g: Graph, tree: Graph, t: Graph) {
    exists m: set<Triple> :: PerfectMatching(Induced(g, OddDegree(tree, tree.nodes)), m) && AddedSoFar(tree, m, m, t)
  }

  /** `c` is joined to every other node of `t`, and every edge has exactly one end at `c`. */
  ghost predicate StarAt(t: Graph, c: Cell) {
    && c in t.nodes
    && (forall x :: x in t.nodes && x != c ==> (x, c) in t.weight)
    && (forall p :: p in t.weight ==> (p.0 == c) != (p.1 == c))
  }

  /** A graph of three or more nodes in which some node has a single neighbour has no tour. */
  lemma PendantNoTour(g: Graph, source: Cell, x: Cell, y: Cell)
    requires Valid(g) && |g.nodes| >= 3 && x in g.nodes
    requires forall z :: (x, z) in g.weight ==> z == y
    ensures forall q :: !IsTour(g, source, q)
  {
    forall q | IsTour(g, source, q) ensures false {
      var k := TourIndex(g, source, q, x);
      var a, b := TourNeighbours(g, source, q, k);
    }
  }

  /** A tour stops at every node. */
  lemma TourIndex(g: Graph, source: Cell, q: seq<Cell>, x: Cell) returns (k: int)
    requires IsTour(g, source, q) && x in g.nodes
    ensures 0 <= k < |g.nodes| && q[k] == x
  {
    assert x in q[..|g.nodes|];
    k :| 0 <= k < |g.nodes| && q[..|g.nodes|][k] == x;
  }

  /** On a tour of three or more nodes, the stops before and after each stop are two different neighbours of it. */
  lemma TourNeighbours(g: Graph, source: Cell, q: seq<Cell>, k: int) returns (a: Cell, b: Cell)
    requires Valid(g) && |g.nodes| >= 3 && IsTour(g, source, q) && 0 <= k < |g.nodes|
    ensures a != b && (q[k], a) in g.weight && (q[k], b) in g.weight
  {
    var n := |g.nodes|;
    var p := q[..n];
    assert (q[k], q[k + 1]) in g.weight;
    b := q[k + 1];
    if k == 0 {
      assert (q[n - 1], q[n]) in g.weight;
      a := q[n - 1];
      assert p[n - 1] != p[1];
    } else {
      assert (q[k - 1], q[k]) in g.weight;
      a := q[k - 1];
      if k + 1 < n {
        assert p[k - 1] != p[k + 1];
      } else {
        assert p[k - 1] != p[0];
      }
    }
  }

  /**
   * Step 6 searches the augmented tree, not `G`: when the spanning tree is a
   * star whose centre has odd degree, the centre is matched with a leaf, that
   * leaf keeps the centre as its only neighbour, and no circuit exists.
   */
  lemma StarNoCircuit(g: Graph, tree: Graph, c: Cell, t: Graph, source: Cell)
    requires Valid(g) && SpanningSubgraph(tree, g) && |g.nodes| >= 3
    requires StarAt(tree, c) && Degree(tree, c) % 2 == 1
    requires Augmented(g, tree, t)
    ensures forall q :: !IsTour(t, source, q)
  {
    var m: set<Triple> :| PerfectMatching(Induced(g, OddDegree(tree, tree.nodes)), m) && AddedSoFar(tree, m, m, t);
    StarMatchingNoCircuit(g, tree, c, m, t, source);
  }

  lemma StarMatchingNoCircuit(g: Graph, tree: Graph, c: Cell, m: set<Triple>, t: Graph, source: Cell)
    requires Valid(g) && SpanningSubgraph(tree, g) && |g.nodes| >= 3
    requires StarAt(tree, c) && Degree(tree, c) % 2 == 1
    requires PerfectMatching(Induced(g, OddDegree(tree, tree.nodes)), m) && AddedSoFar(tree, m, m, t)
    ensures forall q :: !IsTour(t, source, q)
  {
    var odd := OddDegree(tree, tree.nodes);
    assert c in odd by {
      OddDegreeMembers(tree, tree.nodes);
    }
    var sub := Induced(g, odd);
    var e := MatchedPartner(sub, m, c);
    var leaf := if c == e.0 then e.1 else e.0;
    assert leaf in t.nodes by {
      AugmentedInside(g, tree, odd, m, t);
    }
    PendantLeaf(tree, c, m, t, e, leaf);
    PendantNoTour(t, source, leaf, c);
  }

  /** Every node a perfect matching covers is an end of one of its triples, whose ends are distinct nodes. */
  lemma MatchedPartner(h: Graph, m: set<Triple>, x: Cell) returns (e: Triple)
    requires PerfectMatching(h, m) && x in h.nodes
    ensures e in m && e.0 != e.1 && (x == e.0 || x == e.1) && e.0 in h.nodes && e.1 in h.nodes
  {
    e :| e in m && (x == e.0 || x == e.1);
    assert MatchedEdge(h, e);
  }

  /** The leaf matched with the centre of a star has only the centre as neighbour once the matching is added. */
  lemma PendantLeaf(tree: Graph, c: Cell, m: set<Triple>, t: Graph, e: Triple, leaf: Cell)
    requires StarAt(tree, c) && Disjoint(m) && e in m && e.0 != e.1
    requires (c, leaf) == (e.0, e.1) || (c, leaf) == (e.1, e.0)
    requires forall p :: p in t.weight <==> p in tree.weight || Matched(m, p)
    ensures forall z :: (leaf, z) in t.weight ==> z == c
  {
    forall z | (leaf, z) in t.weight ensures z == c {
      if (leaf, z) !in tree.weight {
        var f :| f in m && ((leaf, z) == (f.0, f.1) || (leaf, z) == (f.1, f.0));
        assert f == e;
      }
    }
  }

  /** The pairs joining `c` to a leaf, in both orientations. */
  function StarEdges(c: Cell, leaves: seq<Cell>): (r: set<(Cell, Cell)>)
    ensures forall p :: p in r <==> (p.0 == c && p.1 in leaves) || (p.0 in leaves && p.1 == c)
  {
    (set l | l in leaves :: (c, l)) + (set l | l in leaves :: (l, c))
  }

  /** The star with centre `c` and the given leaves, every edge weighing `w`. */
  function Star(c: Cell, leaves: seq<Cell>, w: int): (t: Graph)
    ensures t.nodes == [c] + leaves
    ensures forall p :: p in t.weight <==> p in StarEdges(c, leaves)
    ensures forall p :: p in t.weight ==> t.weight[p] == w
  {
    Graph([c] + leaves, map p | p in StarEdges(c, leaves) :: w)
  }

  /** A star on distinct cells is a graph, a star at its centre, and its centre has one edge per leaf. */
  lemma StarFacts(c: Cell, leaves: seq<Cell>, w: int)
    requires Distinct([c] + leaves)
    ensures Valid(Star(c, leaves, w)) && StarAt(Star(c, leaves, w), c)
    ensures Degree(Star(c, leaves, w), c) == |leaves|
  {
    var t := Star(c, leaves, w);
    forall k | 0 <= k < |leaves| ensures leaves[k] != c {
      assert ([c] + leaves)[0] != ([c] + leaves)[k + 1];
    }
    assert Distinct(leaves) by {
      forall i, j | 0 <= i < j < |leaves| ensures leaves[i] != leaves[j] {
        assert ([c] + leaves)[i + 1] != ([c] + leaves)[j + 1];
      }
    }
    assert Neighbors(t, c) == SetOf(leaves);
    DistinctCard(leaves);
  }

  /** The star on `(1, 1)` and its three neighbours `(0, 1)`, `(2, 1)` and `(1, 0)`, with unit edges. */
  const CrossTree: Graph := Star((1, 1), [(0, 1), (2, 1), (1, 0)], 1)

  /**
   * On the complete graph of the four cells of `CrossTree` weighted by
   * Manhattan distance, `CrossTree` spans the graph with edges of the least
   * weight, and no augmentation of it has a circuit.
   */
  lemma CrossNoCircuit(g: Graph)
    requires Valid(g) && Complete(g) && g.nodes == [(1, 1), (0, 1), (2, 1), (1, 0)]
    requires forall e :: e in g.weight ==> g.weight[e] == Manhattan(e.0, e.1)
    ensures SpanningSubgraph(CrossTree, g) && StarAt(CrossTree, (1, 1))
    ensures forall e :: e in CrossTree.weight ==> CrossTree.weight[e] == 1
    ensures forall e :: e in g.weight && e.0 != e.1 && e.0 != (1, 1) && e.1 != (1, 1) ==> g.weight[e] == 2
    ensures forall t :: Augmented(g, CrossTree, t) ==> forall q :: !IsTour(t, (1, 1), q)
  {
    var leaves := [(0, 1), (2, 1), (1, 0)];
    forall e | e in g.weight && e.0 != e.1 && e.0 != (1, 1) && e.1 != (1, 1) ensures g.weight[e] == 2 {
      assert e.0 in leaves && e.1 in leaves;
    }
    assert g.nodes == [(1, 1)] + leaves;
    assert Distinct([(1, 1)] + leaves);
    assert forall l :: l in leaves ==> Manhattan((1, 1), l) == 1;
    var tree := Star((1, 1), leaves, 1);
    assert tree == CrossTree;
    StarFacts((1, 1), leaves, 1);
    StarSpans(g, (1, 1), leaves);
    assert Degree(tree, (1, 1)) % 2 == 1 && |g.nodes| >= 3;
    forall t | Augmented(g, tree, t) ensures forall q :: !IsTour(t, (1, 1), q) {
      StarNoCircuit(g, tree, (1, 1), t, (1, 1));
    }
  }

  /** In the complete graph weighted by Manhattan distance, a star of unit edges to neighbouring cells spans the graph. */
  lemma StarSpans(g: Graph, c: Cell, leaves: seq<Cell>)
    requires Valid(g) && Complete(g) && g.nodes == [c] + leaves
    requires forall e :: e in g.weight ==> g.weight[e] == Manhattan(e.0, e.1)
    requires forall l :: l in leaves ==> Manhattan(c, l) == 1
    requires Valid(Star(c, leaves, 1))
    ensures SpanningSubgraph(Star(c, leaves, 1), g)
  {
    var t := Star(c, leaves, 1);
    forall e | e in t.weight ensures e in g.weight && t.weight[e] == g.weight[e] {
      if e.0 == c {
        assert Manhattan(e.0, e.1) == 1;
      } else {
        ManhattanSymmetric(e.0, e.1);
        assert Manhattan(e.1, e.0) == 1;
      }
      assert e.0 in g.nodes && e.1 in g.nodes && e.0 != e.1;
    }
  }

  /** The entries of `s` other than `x`, in the order of `s`. */
  function Without(s: seq<Cell>, x: Cell): (r: seq<Cell>)
    ensures forall y :: y in r <==> y in s && y != x
    ensures Distinct(s) ==> Distinct(r)
    ensures x !in s ==> r == s
    ensures Distinct(s) && x in s ==> |r| == |s| - 1
  {
    if s == [] then []
    else
      var rest := Without(s[1..], x);
      assert s == [s[0]] + s[1..];
      assert Distinct(s) ==> Distinct(s[1..]) && s[0] !in s[1..] by {
        if Distinct(s) {
          forall i, j | 0 <= i < j < |s[1..]| ensures s[1..][i] != s[1..][j] {
            assert s[1..][i] == s[i + 1] && s[1..][j] == s[j + 1];
          }
        }
      }
      if s[0] == x then rest else [s[0]] + rest
  }

  lemma DistinctCons(x: Cell, s: seq<Cell>)
    requires Distinct(s) && x !in s
    ensures Distinct([x] + s)
  {
    forall i, j | 0 <= i < j < |s| + 1 ensures ([x] + s)[i] != ([x] + s)[j] {
      assert ([x] + s)[j] == s[j - 1];
      if i > 0 {
        assert ([x] + s)[i] == s[i - 1];
      }
    }
  }

  /**
   * A complete graph has a tour from each of its nodes: the source, then the
   * other nodes in order, then the source again. A graph of one node needs its
   * self-loop.
   */
  lemma CompleteHasTour(g: Graph, source: Cell)
    requires Valid(g) && Complete(g) && source in g.nodes
    requires |g.nodes| >= 2 || (source, source) in g.weight
    ensures IsTour(g, source, [source] + Without(g.nodes, source) + [source])
  {
    var n := |g.nodes|;
    var rest := Without(g.nodes, source);
    var p := [source] + rest;
    assert |p| == n;
    DistinctCons(source, rest);
    var q := p + [source];
    assert q[..n] == p;
    assert q == [source] + Without(g.nodes, source) + [source];
    ClosedWalk(g, p, source);
  }

  /** In a complete graph, nodes listed without repeats from `source` and back form a closed walk. */
  lemma ClosedWalk(g: Graph, p: seq<Cell>, source: Cell)
    requires Complete(g) && Distinct(p) && |p| >= 1 && p[0] == source
    requires forall x :: x in p ==> x in g.nodes
    requires |p| >= 2 || (source, source) in g.weight
    ensures IsWalk(g, p + [source])
  {
    var q := p + [source];
    forall k | 0 <= k < |p| ensures (q[k], q[k + 1]) in g.weight {
      if |p| >= 2 {
        assert q[k] == p[k] && p[k] in g.nodes;
        if k + 1 < |p| {
          assert q[k + 1] == p[k + 1] && p[k + 1] in g.nodes;
        } else {
          assert p[k] != p[0];
        }
      }
    }
  }

  /**
   * `tsp_circuit` with step 6 searching `G` itself. Steps 1 to 4 are as
   * written, and their only effect left is the matching error. Step 5 only
   * changes `T`, which the corrected step 6 no longer reads. On a complete
   * graph a tour is always found.
   */
  method CorrectedTspCircuit(g: Graph, source: Cell, tree: Graph) returns (r: Result<Option<seq<Cell>>, MatchingError>)
    requires Valid(g) && SpanningSubgraph(tree, g)
    ensures r.Success? && r.value.Some? ==> IsTour(g, source, r.value.value)
    ensures r.Success? && r.value.None? ==> forall q :: !IsTour(g, source, q)
    ensures r.Failure? ==> r.error == NoPartner && !Complete(g)
    ensures Complete(g) && source in g.nodes && (|g.nodes| >= 2 || (source, source) in g.weight) ==>
              r.Success? && r.value.Some?
  {
    var matching := MatchOddNodes(g, tree);
    if matching.Failure? {
      return Failure(matching.error);
    }
    var path := HamiltonCircuit(g, source);
    if Complete(g) && source in g.nodes && (|g.nodes| >= 2 || (source, source) in g.weight) {
      CompleteHasTour(g, source);
      assert path.Some?;
    }
    return Success(path);
  }

  /**
   * The matching on the odd-degree nodes of a spanning tree can only fail for
   * want of a partner, and only when `g` is not complete: the tree has an even
   * number of odd-degree nodes.
   */
  lemma MatchingFailure(g: Graph, tree: Graph, error: MatchingError)
    requires Valid(g) && SpanningSubgraph(tree, g)
    requires var sub := Induced(g, OddDegree(tree, tree.nodes));
             && (error == OddNodeCount ==> |sub.nodes| % 2 == 1)
             && (error == NoPartner ==> !Complete(sub))
    ensures error == NoPartner && !Complete(g)
  {
    var odd := OddDegree(tree, tree.nodes);
    var sub := Induced(g, odd);
    assert |sub.nodes| == |odd| by {
      DistinctCard(sub.nodes);
      OddDistinct(tree);
      DistinctCard(odd);
      OddDegreeMembers(tree, tree.nodes);
      assert SetOf(sub.nodes) == SetOf(odd);
    }
    OddDegreeEven(tree);
    if Complete(g) {
      InducedComplete(g, odd);
    }
  }

  /** The odd-degree nodes of a graph are listed once each. */
  lemma OddDistinct(g: Graph)
    requires Valid(g)
    ensures Distinct(OddDegree(g, g.nodes))
  {
    OddDistinctPrefix(g, g.nodes);
  }

  lemma {:induction false} OddDistinctPrefix(g: Graph, s: seq<Cell>)
    requires Distinct(s)
    ensures Distinct(OddDegree(g, s))
  {
    if s != [] {
      var init := s[..|s| - 1];
      var v := s[|s| - 1];
      assert Distinct(init);
      OddDistinctPrefix(g, init);
      OddDegreeMembers(g, init);
      assert v !in init;
    }
  }
}

/**
 * An undirected networkx `Graph` as a value: its nodes in insertion order
 * (the order `G.nodes` iterates) and the weight of every edge, stored under
 * both orientations so that `G.get_edge_data(u, v)` and `(v, u)` agree.
 */
module Graphs {
  import opened Coords

  datatype Graph = Graph(nodes: seq<Cell>, weight: map<(Cell, Cell), int>)

  const EmptyGraph := Graph([], map[])

  predicate Distinct<T(==)>(s: seq<T>) {
    forall i, j :: 0 <= i < j < |s| ==> s[i] != s[j]
  }

  function SetOf<T>(s: seq<T>): set<T> {
    set x | x in s
  }

  /** What every networkx graph satisfies: no repeated node, edges between nodes, undirected. */
  predicate Valid(g: Graph) {
    && Distinct(g.nodes)
    && forall e :: e in g.weight ==>
         && e.0 in g.nodes && e.1 in g.nodes
         && (e.1, e.0) in g.weight && g.weight[(e.1, e.0)] == g.weight[e]
  }

  /** `G.add_node(v)`: appends `v` unless it is already a node. */
  function AddNode(g: Graph, v: Cell): (h: Graph)
    ensures Valid(g) ==> Valid(h)
    ensures v in h.nodes && h.weight == g.weight
    ensures forall x :: x in h.nodes <==> x in g.nodes || x == v
    ensures v in g.nodes ==> h == g
    ensures v !in g.nodes ==> h.nodes == g.nodes + [v]
  {
    if v in g.nodes then g else Graph(g.nodes + [v], g.weight)
  }

  /** `G.add_edge(u, v, weight=w)`: adds missing endpoints, then sets the weight of edge {u, v}. */
  function AddEdge(g: Graph, u: Cell, v: Cell, w: int): (h: Graph)
    ensures forall x :: x in h.nodes <==> x in g.nodes || x == u || x == v
    ensures u in g.nodes && v in g.nodes ==> h.nodes == g.nodes
    ensures (u, v) in h.weight && h.weight[(u, v)] == w && (v, u) in h.weight && h.weight[(v, u)] == w
    ensures forall e :: e in h.weight <==> e in g.weight || e == (u, v) || e == (v, u)
    ensures forall e :: e in g.weight && e != (u, v) && e != (v, u) ==> h.weight[e] == g.weight[e]
  {
    var n := AddNode(AddNode(g, u), v);
    Graph(n.nodes, g.weight[(u, v) := w][(v, u) := w])
  }

  lemma AddEdgeValid(g: Graph, u: Cell, v: Cell, w: int)
    requires Valid(g)
    ensures Valid(AddEdge(g, u, v, w))
  {
    var h := AddEdge(g, u, v, w);
    var n := AddNode(AddNode(g, u), v);
    assert Valid(n);
    assert h.nodes == n.nodes;
    forall e | e in h.weight
      ensures e.0 in h.nodes && e.1 in h.nodes
      ensures (e.1, e.0) in h.weight && h.weight[(e.1, e.0)] == h.weight[e]
    {
      if e != (u, v) && e != (v, u) {
        assert e in g.weight;
        assert (e.1, e.0) != (u, v) && (e.1, e.0) != (v, u);
      }
    }
  }

  lemma SetOfAppend<T>(s: seq<T>, x: T)
    ensures SetOf(s + [x]) == SetOf(s) + {x}
  {
  }

  /** Every consecutive pair of `p` is an edge of `g`. */
  predicate IsWalk(g: Graph, p: seq<Cell>) {
    forall k :: 0 <= k < |p| - 1 ==> (p[k], p[k + 1]) in g.weight
  }

  /** Every two distinct nodes are joined by an edge. */
  ghost predicate Complete(g: Graph) {
    forall u, v :: u in g.nodes && v in g.nodes && u != v ==> (u, v) in g.weight
  }

  /** The nodes joined to `v` by an edge (`v` itself too when it has a self-loop). */
  function Neighbors(g: Graph, v: Cell): set<Cell> {
    set u | u in g.nodes && (v, u) in g.weight
  }

  /** `nx.degree(G, v)`: the number of incident edges, a self-loop counting twice. */
  function Degree(g: Graph, v: Cell): nat {
    |Neighbors(g, v)| + if (v, v) in g.weight then 1 else 0
  }

  /** The nodes of `s` that are in `keep`, in the order of `s`. */
  function Filter(s: seq<Cell>, keep: seq<Cell>): (r: seq<Cell>)
    ensures forall x :: x in r <==> x in s && x in keep
    ensures Distinct(s) ==> Distinct(r)
    ensures |r| <= |s|
  {
    if s == [] then []
    else (if s[0] in keep then [s[0]] else []) + Filter(s[1..], keep)
  }

  /** `G.subgraph(keep)`: the nodes of `G` in `keep` and the edges between them. */
  function Induced(g: Graph, keep: seq<Cell>): (h: Graph)
    ensures Valid(g) ==> Valid(h)
    ensures forall x :: x in h.nodes <==> x in g.nodes && x in keep
    ensures forall e :: e in h.weight <==> e in g.weight && e.0 in keep && e.1 in keep
    ensures forall e :: e in h.weight ==> h.weight[e] == g.weight[e]
  {
    Graph(Filter(g.nodes, keep), map e | e in g.weight && e.0 in keep && e.1 in keep :: g.weight[e])
  }

  /** A sequence without repetitions has as many distinct elements as entries. */
  lemma {:induction false} DistinctCard<T>(s: seq<T>)
    requires Distinct(s)
    ensures |SetOf(s)| == |s|
  {
    if s != [] {
      var t := s[1..];
      assert Distinct(t) by {
        forall i, j | 0 <= i < j < |t| ensures t[i] != t[j] {
          assert t[i] == s[i + 1] && t[j] == s[j + 1];
        }
      }
      DistinctCard(t);
      assert s[0] !in SetOf(t) by {
        forall k | 0 <= k < |t| ensures t[k] != s[0] {
          assert t[k] == s[k + 1];
        }
      }
      assert SetOf(s) == SetOf(t) + {s[0]} by {
        forall x ensures x in SetOf(s) <==> x in SetOf(t) + {s[0]} {
          if x in s && x != s[0] {
            var k :| 0 <= k < |s| && s[k] == x;
            assert t[k - 1] == x;
          }
        }
      }
    }
  }

  /** A subset as large as its superset is the whole superset. */
  lemma {:induction false} SubsetCardEq<T>(a: set<T>, b: set<T>)
    requires a <= b && |a| == |b|
    ensures a == b
  {
    if a != b {
      var x :| x in b && x !in a;
      assert a <= b - {x};
      SubsetCard(a, b - {x});
    }
  }

  lemma {:induction false} SubsetCard<T>(a: set<T>, b: set<T>)
    requires a <= b
    ensures |a| <= |b|
    decreases |b|
  {
    if a != {} {
      var x :| x in a;
      SubsetCard(a - {x}, b - {x});
    }
  }

  /**
   * Two repetition-free sequences of the same length, the elements of the
   * first among those of the second, hold the same elements.
   */
  lemma CoverByCount(s: seq<Cell>, t: seq<Cell>)
    requires Distinct(s) && Distinct(t) && |s| == |t|
    requires forall x :: x in s ==> x in t
    ensures forall x :: x in t <==> x in s
  {
    DistinctCard(s);
    DistinctCard(t);
    assert SetOf(s) <= SetOf(t);
    SubsetCardEq(SetOf(s), SetOf(t));
    forall x | x in t ensures x in s {
      assert x in SetOf(t);
    }
  }

  /** The sum of `Degree(g, v)` over the entries `v` of `s`. */
  ghost function DegreeSum(g: Graph, s: seq<Cell>): nat {
    if s == [] then 0 else DegreeSum(g, s[..|s| - 1]) + Degree(g, s[|s| - 1])
  }

  /** The edge orientations leaving the nodes of `s`. */
  ghost function Out(g: Graph, s: seq<Cell>): set<(Cell, Cell)> {
    set e | e in g.weight && e.0 in s
  }

  /** The self-loops at the nodes of `s`. */
  ghost function Loops(g: Graph, s: seq<Cell>): set<(Cell, Cell)> {
    set e | e in g.weight && e.0 in s && e.0 == e.1
  }

  /** The orientations leaving `v` are the pairs `(v, u)` for the neighbours `u` of `v`. */
  lemma OutOfNode(g: Graph, v: Cell)
    requires Valid(g)
    ensures |set e | e in g.weight && e.0 == v| == |Neighbors(g, v)|
  {
    PairCard(v, Neighbors(g, v));
    var pairs := set u | u in Neighbors(g, v) :: (v, u);
    assert (set e | e in g.weight && e.0 == v) == pairs by {
      forall e | e in g.weight && e.0 == v ensures e in pairs {
        assert e == (v, e.1) && e.1 in Neighbors(g, v);
      }
    }
  }

  lemma {:induction false} PairCard(v: Cell, a: set<Cell>)
    ensures |set u | u in a :: (v, u)| == |a|
    decreases |a|
  {
    if a != {} {
      var x :| x in a;
      PairCard(v, a - {x});
      assert (set u | u in a :: (v, u)) == (set u | u in a - {x} :: (v, u)) + {(v, x)};
    }
  }

  /** The degrees over `s` add up to the orientations leaving `s` plus its self-loops. */
  lemma {:induction false} DegreeSumCount(g: Graph, s: seq<Cell>)
    requires Valid(g) && Distinct(s)
    ensures DegreeSum(g, s) == |Out(g, s)| + |Loops(g, s)|
  {
    if s != [] {
      var init := s[..|s| - 1];
      var v := s[|s| - 1];
      assert s == init + [v];
      assert Distinct(init);
      assert v !in init;
      DegreeSumCount(g, init);
      OutStep(g, init, v);
      LoopStep(g, init, v);
    }
  }

  lemma OutStep(g: Graph, init: seq<Cell>, v: Cell)
    requires Valid(g) && v !in init
    ensures |Out(g, init + [v])| == |Out(g, init)| + |Neighbors(g, v)|
  {
    var here := set e | e in g.weight && e.0 == v;
    OutOfNode(g, v);
    assert forall x :: x in init + [v] <==> x in init || x == v;
    assert Out(g, init + [v]) == Out(g, init) + here;
    assert Out(g, init) !! here;
  }

  lemma LoopStep(g: Graph, init: seq<Cell>, v: Cell)
    requires v !in init
    ensures |Loops(g, init + [v])| == |Loops(g, init)| + if (v, v) in g.weight then 1 else 0
  {
    if (v, v) in g.weight {
      assert Loops(g, init + [v]) == Loops(g, init) + {(v, v)};
    } else {
      assert Loops(g, init + [v]) == Loops(g, init);
    }
  }

  /** A set of pairs closed under swapping and free of pairs `(x, x)` has an even number of elements. */
  lemma {:induction false} SwapClosedEven(p: set<(Cell, Cell)>) returns (half: nat)
    requires forall e :: e in p ==> e.0 != e.1 && (e.1, e.0) in p
    ensures |p| == 2 * half
    decreases |p|
  {
    if p == {} {
      return 0;
    }
    var e :| e in p;
    var rest := p - {e} - {(e.1, e.0)};
    SwapClosedRemove(p, e);
    half := SwapClosedEven(rest);
    half := half + 1;
  }

  /** Removing a pair and its swap from a swap-closed set leaves a swap-closed set two smaller. */
  lemma SwapClosedRemove(p: set<(Cell, Cell)>, e: (Cell, Cell))
    requires forall e :: e in p ==> e.0 != e.1 && (e.1, e.0) in p
    requires e in p
    ensures forall f :: f in p - {e} - {(e.1, e.0)} ==> f.0 != f.1 && (f.1, f.0) in p - {e} - {(e.1, e.0)}
    ensures |p - {e} - {(e.1, e.0)}| == |p| - 2
  {
    var s := (e.1, e.0);
    assert |p - {e}| == |p| - 1;
    assert s in p - {e};
  }

  /**
   * The handshake lemma: the degree sum is twice the number of edges. An edge
   * between two nodes is stored under both orientations and a self-loop once,
   * so `edges` is half the non-loop pairs plus the loops.
   */
  lemma HandshakeEven(g: Graph) returns (edges: nat)
    requires Valid(g)
    ensures DegreeSum(g, g.nodes) == 2 * edges
    ensures 2 * edges == |g.weight.Keys - Loops(g, g.nodes)| + 2 * |Loops(g, g.nodes)|
  {
    DegreeSumCount(g, g.nodes);
    assert Out(g, g.nodes) == g.weight.Keys;
    var loops := Loops(g, g.nodes);
    var others := g.weight.Keys - loops;
    var half := SwapClosedEven(others);
    assert g.weight.Keys == others + loops;
    assert |g.weight.Keys| == |others| + |loops|;
    edges := half + |loops|;
  }
}

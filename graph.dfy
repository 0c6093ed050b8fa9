/** The undirected, unweighted graph the recommenders read (a SNAP TUNGraph), as an immutable value. */
module Graphs {

  /** The node ids in the order the graph enumerates them, and the neighbour set of every node. */
  datatype Graph = Graph(nodes: seq<int>, adj: map<int, set<int>>)

  /** No node id occurs twice. */
  predicate Distinct(ns: seq<int>) {
    forall i, j :: 0 <= i < j < |ns| ==> ns[i] != ns[j]
  }

  /** A simple undirected graph: node ids are distinct and are exactly the keys of `adj`, both
      ends of every edge are nodes, edges are symmetric and no node is its own neighbour. */
  ghost predicate WellFormed(g: Graph) {
    && Distinct(g.nodes)
    && (forall x :: x in g.nodes ==> x in g.adj)
    && (forall x :: x in g.adj ==> x in g.nodes)
    && (forall x, y :: x in g.adj && y in g.adj[x] ==> y in g.adj && x in g.adj[y])
    && (forall x :: x in g.adj ==> x !in g.adj[x])
  }

  /** `IsEdge(a, b)`: false when `a` is not a node, as SNAP answers for unknown ids. */
  predicate IsEdge(g: Graph, a: int, b: int) {
    a in g.adj && b in g.adj[a]
  }

  /** `GetOutDeg()` of a node of an undirected graph: the number of its neighbours. */
  function Degree(g: Graph, x: int): nat
    requires x in g.adj
  {
    |g.adj[x]|
  }

  /** `GetCmnNbrs(a, b)`: the nodes adjacent to both `a` and `b`. */
  function CommonNeighbourSet(g: Graph, a: int, b: int): set<int>
    requires a in g.adj && b in g.adj
  {
    g.adj[a] * g.adj[b]
  }

  /** A node may be recommended to `q` when it is not `q` itself and not already adjacent to it.
      The test asks whether `x` is adjacent to `q`; on a well-formed graph that is the same as
      asking whether `x` is among the neighbours of `q`. */
  predicate Eligible(g: Graph, q: int, x: int): (b: bool)
    ensures WellFormed(g) && q in g.adj ==> (b <==> x != q && x !in g.adj[q])
  {
    x != q && !IsEdge(g, x, q)
  }

  /** Every node of the graph that may be recommended to `q`. */
  function EligibleNodes(g: Graph, q: int): set<int> {
    set x | x in g.adj && Eligible(g, q, x)
  }

  /** For an id that is not a node, `IsEdge` is false for every pair it heads, so the filter keeps
      every node of the graph: nothing is excluded. */
  lemma UnknownQueryExcludesNothing(g: Graph, q: int)
    requires WellFormed(g) && q !in g.adj
    ensures EligibleNodes(g, q) == g.adj.Keys
  {
  }

  /** On a well-formed graph the edge test does not depend on the order of its ends. */
  lemma EdgeSymmetric(g: Graph, a: int, b: int)
    requires WellFormed(g)
    ensures IsEdge(g, a, b) <==> IsEdge(g, b, a)
  {
  }

  /** A common neighbour of two distinct nodes is adjacent to both, so its degree is at least 2:
      the logarithm of its degree, which Adamic-Adar divides by, is never log2(1) = 0. */
  lemma CommonNeighbourDegrees(g: Graph, a: int, b: int)
    requires WellFormed(g) && a in g.adj && b in g.adj && a != b
    ensures forall c :: c in CommonNeighbourSet(g, a, b) ==> c in g.adj && Degree(g, c) >= 2
  {
    forall c | c in CommonNeighbourSet(g, a, b)
      ensures c in g.adj && Degree(g, c) >= 2
    {
      var others := g.adj[c] - {a, b};
      assert g.adj[c] == {a, b} + others && {a, b} * others == {};
      assert |{a, b}| == 2;
    }
  }
}

/** Worked cases on the graph with edges 1-2, 1-3, 2-3 and 2-4. */
module Scenarios {
  import opened Graphs
  import opened Ranking
  import opened Recommenders

  function SmallGraph(): Graph {
    Graph([1, 2, 3, 4], map[1 := {2, 3}, 2 := {1, 3, 4}, 3 := {1, 2}, 4 := {2}])
  }

  lemma SmallGraphWellFormed()
    ensures WellFormed(SmallGraph())
  {
    var g := SmallGraph();
    assert g.adj.Keys == {1, 2, 3, 4};
    forall x | x in g.adj
      ensures x in g.nodes && x !in g.adj[x]
      ensures forall y :: y in g.adj[x] ==> y in g.adj && x in g.adj[y]
    {
      assert x == 1 || x == 2 || x == 3 || x == 4;
    }
  }

  /** The loop over the four nodes, one step at a time: only the eligible nodes get an entry. */
  lemma SmallGraphScores(h: Heuristic, q: int, e1: seq<Rec>, e2: seq<Rec>, e3: seq<Rec>, e4: seq<Rec>)
    requires WellFormed(SmallGraph()) && q in SmallGraph().adj
    requires e1 == (if Eligible(SmallGraph(), q, 1) then [Rec(1, Score(SmallGraph(), h, q, 1))] else [])
    requires e2 == (if Eligible(SmallGraph(), q, 2) then [Rec(2, Score(SmallGraph(), h, q, 2))] else [])
    requires e3 == (if Eligible(SmallGraph(), q, 3) then [Rec(3, Score(SmallGraph(), h, q, 3))] else [])
    requires e4 == (if Eligible(SmallGraph(), q, 4) then [Rec(4, Score(SmallGraph(), h, q, 4))] else [])
    ensures ScoreList(SmallGraph(), h, q, SmallGraph().nodes) == e1 + e2 + e3 + e4
  {
    var g := SmallGraph();
    assert [1, 2, 3, 4][..3] == [1, 2, 3];
    assert [1, 2, 3][..2] == [1, 2];
    assert [1, 2][..1] == [1];
    assert [1][..0] == [];
    assert ScoreList(g, h, q, []) == [];
    assert ScoreList(g, h, q, [1]) == e1;
    assert ScoreList(g, h, q, [1, 2]) == e1 + e2;
    assert ScoreList(g, h, q, [1, 2, 3]) == e1 + e2 + e3;
  }

  /** For node 1, node 3 is already a friend and is left out; node 4 shares node 2 with it. */
  lemma CommonNeighboursOfNode1()
    ensures WellFormed(SmallGraph())
    ensures Recommend(SmallGraph(), ByCommonNeighbours, 1, 10) == [Rec(4, 1.0)]
  {
    SmallGraphWellFormed();
    var g := SmallGraph();
    assert CommonNeighbourSet(g, 4, 1) == {2};
    SmallGraphScores(ByCommonNeighbours, 1, [], [], [], [Rec(4, 1.0)]);
  }

  /** Node 2, the one common neighbour of 1 and 4, has degree 3: the score is 1 / log2(3). */
  lemma AdamicAdarOfNode1(invLog2: nat -> real)
    ensures WellFormed(SmallGraph())
    ensures Recommend(SmallGraph(), ByAdamicAdar(invLog2), 1, 10) == [Rec(4, invLog2(3))]
  {
    SmallGraphWellFormed();
    var g := SmallGraph();
    assert CommonNeighbourSet(g, 4, 1) == {2};
    SumContributionsRemove(g, invLog2, {2}, 2);
    assert {2} - {2} == {};
    assert Degree(g, 2) == 3;
    assert SumContributions(g, invLog2, {}) == 0.0;
    assert Score(g, ByAdamicAdar(invLog2), 1, 4) == invLog2(3);
    SmallGraphScores(ByAdamicAdar(invLog2), 1, [], [], [], [Rec(4, invLog2(3))]);
    assert [Rec(4, invLog2(3))][1..] == [];
    assert SortRanked([Rec(4, invLog2(3))]) == [Rec(4, invLog2(3))];
  }

  /** For node 4, nodes 1 and 3 both share node 2 with it: the tie goes to the smaller id, and a
      limit of 1 keeps only that one. */
  lemma CommonNeighboursOfNode4()
    ensures WellFormed(SmallGraph())
    ensures Recommend(SmallGraph(), ByCommonNeighbours, 4, 10) == [Rec(1, 1.0), Rec(3, 1.0)]
    ensures Recommend(SmallGraph(), ByCommonNeighbours, 4, 1) == [Rec(1, 1.0)]
  {
    SmallGraphWellFormed();
    var g := SmallGraph();
    assert CommonNeighbourSet(g, 1, 4) == {2};
    assert CommonNeighbourSet(g, 3, 4) == {2};
    SmallGraphScores(ByCommonNeighbours, 4, [Rec(1, 1.0)], [], [Rec(3, 1.0)], []);
    assert SortRanked([Rec(1, 1.0), Rec(3, 1.0)]) == [Rec(1, 1.0), Rec(3, 1.0)] by {
      assert [Rec(1, 1.0), Rec(3, 1.0)][1..] == [Rec(3, 1.0)];
      assert [Rec(3, 1.0)][1..] == [];
    }
  }

  /** A graph of one node has nothing to recommend to it, whatever the limit. */
  lemma LoneNodeGetsNothing(h: Heuristic, nRec: nat)
    ensures WellFormed(Graph([7], map[7 := {}]))
    ensures Recommend(Graph([7], map[7 := {}]), h, 7, nRec) == []
  {
    var g := Graph([7], map[7 := {}]);
    assert g.adj.Keys == {7};
    assert WellFormed(g);
    assert [7][..0] == [];
    assert ScoreList(g, h, 7, [7]) == [];
  }
}

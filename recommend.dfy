/** The two friend recommenders, `common_neighbours` and `adamic_adar`: filter the candidates of a
    query node, score each, rank them and keep the first `n_rec`. */
module Recommenders {
  import opened Graphs
  import opened Ranking

  /** `invLog2` stands for `d => 1 / math.log(d, 2)`, the weight of a common neighbour of degree `d`;
      real logarithms are outside the model, so it is a parameter. */
  datatype Heuristic =
    | ByCommonNeighbours
    | ByAdamicAdar(invLog2: nat -> real)

  /** What `1 / log2(d)` promises for a degree `d >= 2`: a positive weight no larger than 1. */
  ghost predicate InverseLog2Bounds(invLog2: nat -> real) {
    forall d: nat :: d >= 2 ==> 0.0 < invLog2(d) <= 1.0
  }

  /** One Adamic-Adar term, `1 / math.log(deg, 2)`: defined only where the logarithm is not 0. */
  function Contribution(invLog2: nat -> real, d: nat): real
    requires d >= 2
  {
    invLog2(d)
  }

  /** Every node of `s` is a node of degree at least 2. */
  ghost predicate WeighableNodes(g: Graph, s: set<int>) {
    forall c :: c in s ==> c in g.adj && Degree(g, c) >= 2
  }

  /** A non-empty set has a member to take out. */
  lemma NonEmptyHasMember(s: set<int>)
    requires s != {}
    ensures exists c :: c in s
  {
    if forall c :: c !in s {
      assert false;
    }
  }

  /** The sum of the Adamic-Adar terms of the nodes in `s`, in no particular order. */
  ghost function SumContributions(g: Graph, invLog2: nat -> real, s: set<int>): (r: real)
    requires WeighableNodes(g, s)
    ensures InverseLog2Bounds(invLog2) ==> 0.0 <= r <= |s| as real
    decreases s
  {
    if s == {} then 0.0
    else
      NonEmptyHasMember(s);
      var c :| c in s;
      Contribution(invLog2, Degree(g, c)) + SumContributions(g, invLog2, s - {c})
  }

  /** The score of candidate `x` for query node `q`. */
  ghost function Score(g: Graph, h: Heuristic, q: int, x: int): (r: real)
    requires WellFormed(g) && q in g.adj && x in g.adj && x != q
    ensures h.ByCommonNeighbours? || InverseLog2Bounds(h.invLog2) ==> 0.0 <= r
  {
    match h
    case ByCommonNeighbours => |CommonNeighbourSet(g, x, q)| as real
    case ByAdamicAdar(invLog2) =>
      CommonNeighbourDegrees(g, x, q);
      SumContributions(g, invLog2, CommonNeighbourSet(g, x, q))
  }

  /** The `scores` list the loop over `graph.Nodes()` builds from the nodes `ns`, in their order:
      one `[node, score]` entry per eligible node. */
  ghost function ScoreList(g: Graph, h: Heuristic, q: int, ns: seq<int>): (s: seq<Rec>)
    requires WellFormed(g) && q in g.adj && forall x :: x in ns ==> x in g.adj
    ensures |s| <= |ns|
    ensures forall k :: 0 <= k < |s| ==> s[k].id in ns && Eligible(g, q, s[k].id)
  {
    if ns == [] then []
    else
      var x := ns[|ns| - 1];
      ScoreList(g, h, q, ns[..|ns| - 1]) + if Eligible(g, q, x) then [Rec(x, Score(g, h, q, x))] else []
  }

  /** What a recommender returns for query node `q` and limit `nRec`. */
  ghost function Recommend(g: Graph, h: Heuristic, q: int, nRec: nat): (rs: seq<Rec>)
    requires WellFormed(g) && q in g.adj
    ensures |rs| <= nRec
    ensures forall k :: 0 <= k < |rs| ==> rs[k].id in EligibleNodes(g, q)
  {
    RankedScores(g, h, q);
    Top(SortRanked(ScoreList(g, h, q, g.nodes)), nRec)
  }

  /** `common_neighbours(graph, node_id, n_rec)`. */
  method CommonNeighbours(g: Graph, q: int, nRec: nat) returns (recs: seq<Rec>)
    requires WellFormed(g) && q in g.adj
    ensures recs == Recommend(g, ByCommonNeighbours, q, nRec)
  {
    var scores: seq<Rec> := [];
    for i := 0 to |g.nodes|
      invariant scores == ScoreList(g, ByCommonNeighbours, q, g.nodes[..i])
    {
      var x := g.nodes[i];
      assert g.nodes[..i + 1][..i] == g.nodes[..i];
      if x != q && !IsEdge(g, x, q) {
        scores := scores + [Rec(x, |CommonNeighbourSet(g, x, q)| as real)];
      }
    }
    assert g.nodes[..|g.nodes|] == g.nodes;
    recs := Rank(scores, nRec);
  }

  /** `adamic_adar(graph, node_id, n_rec)`; `invLog2` is `d => 1 / math.log(d, 2)`. */
  method AdamicAdar(g: Graph, invLog2: nat -> real, q: int, nRec: nat) returns (recs: seq<Rec>)
    requires WellFormed(g) && q in g.adj
    ensures recs == Recommend(g, ByAdamicAdar(invLog2), q, nRec)
  {
    var scores: seq<Rec> := [];
    for i := 0 to |g.nodes|
      invariant scores == ScoreList(g, ByAdamicAdar(invLog2), q, g.nodes[..i])
    {
      var sum := 0.0;
      var x := g.nodes[i];
      assert g.nodes[..i + 1][..i] == g.nodes[..i];
      if x != q && !IsEdge(g, x, q) {
        var common := CommonNeighbourSet(g, x, q);
        CommonNeighbourDegrees(g, x, q);
        var rest := common;
        while rest != {}
          invariant rest <= common
          invariant sum + SumContributions(g, invLog2, rest) == SumContributions(g, invLog2, common)
          decreases rest
        {
          NonEmptyHasMember(rest);
          var c :| c in rest;
          SumContributionsRemove(g, invLog2, rest, c);
          sum := sum + Contribution(invLog2, Degree(g, c));
          rest := rest - {c};
        }
        scores := scores + [Rec(x, sum)];
      }
    }
    assert g.nodes[..|g.nodes|] == g.nodes;
    recs := Rank(scores, nRec);
  }

  /** The sum does not depend on which node is taken out first. */
  lemma {:induction false} SumContributionsRemove(g: Graph, invLog2: nat -> real, s: set<int>, c: int)
    requires WeighableNodes(g, s) && c in s
    ensures SumContributions(g, invLog2, s) == Contribution(invLog2, Degree(g, c)) + SumContributions(g, invLog2, s - {c})
    decreases s
  {
    var d :| d in s && SumContributions(g, invLog2, s) == Contribution(invLog2, Degree(g, d)) + SumContributions(g, invLog2, s - {d});
    if d != c {
      SumContributionsRemove(g, invLog2, s - {d}, c);
      SumContributionsRemove(g, invLog2, s - {c}, d);
      assert s - {d} - {c} == s - {c} - {d};
    }
  }

  /** With every term in (0, 1], the sum lies between 0 and the number of terms, and it is 0
      exactly when there are no terms. */
  lemma {:induction false} SumContributionsBounds(g: Graph, invLog2: nat -> real, s: set<int>)
    requires WeighableNodes(g, s) && InverseLog2Bounds(invLog2)
    ensures 0.0 <= SumContributions(g, invLog2, s) <= |s| as real
    ensures SumContributions(g, invLog2, s) == 0.0 <==> s == {}
    decreases s
  {
    if s != {} {
      NonEmptyHasMember(s);
      var c :| c in s;
      SumContributionsRemove(g, invLog2, s, c);
      SumContributionsBounds(g, invLog2, s - {c});
    }
  }

  /** The scores list holds exactly the eligible nodes of `ns`, each with its own score. */
  lemma {:induction false} ScoreListMembers(g: Graph, h: Heuristic, q: int, ns: seq<int>)
    requires WellFormed(g) && q in g.adj && forall x :: x in ns ==> x in g.adj
    ensures forall r :: r in ScoreList(g, h, q, ns) <==>
      r.id in ns && Eligible(g, q, r.id) && r.score == Score(g, h, q, r.id)
  {
    if ns != [] {
      var init := ns[..|ns| - 1];
      ScoreListMembers(g, h, q, init);
      assert ns == init + [ns[|ns| - 1]];
    }
  }

  /** Scoring a list of distinct nodes repeats no node id. */
  lemma {:induction false} ScoreListDistinct(g: Graph, h: Heuristic, q: int, ns: seq<int>)
    requires WellFormed(g) && q in g.adj && forall x :: x in ns ==> x in g.adj
    requires Distinct(ns)
    ensures DistinctIds(ScoreList(g, h, q, ns))
  {
    if ns != [] {
      var init, x := ns[..|ns| - 1], ns[|ns| - 1];
      assert ns == init + [x];
      ScoreListDistinct(g, h, q, init);
      ScoreListMembers(g, h, q, init);
      var before := ScoreList(g, h, q, init);
      forall k | 0 <= k < |before|
        ensures before[k].id != x
      {
        assert before[k] in before;
      }
    }
  }

  /** Scoring a list of distinct nodes gives one entry per eligible node. */
  lemma {:induction false} ScoreListLength(g: Graph, h: Heuristic, q: int, ns: seq<int>)
    requires WellFormed(g) && q in g.adj && forall x :: x in ns ==> x in g.adj
    requires Distinct(ns)
    ensures |ScoreList(g, h, q, ns)| == |set x | x in ns && Eligible(g, q, x)|
  {
    if ns != [] {
      var init, x := ns[..|ns| - 1], ns[|ns| - 1];
      assert ns == init + [x];
      ScoreListLength(g, h, q, init);
      var eligibleBefore := set y | y in init && Eligible(g, q, y);
      assert x !in eligibleBefore;
      if Eligible(g, q, x) {
        assert (set y | y in ns && Eligible(g, q, y)) == eligibleBefore + {x};
      } else {
        assert (set y | y in ns && Eligible(g, q, y)) == eligibleBefore;
      }
    }
  }

  /** Before truncation every eligible node of the graph has exactly one entry, zero scores
      included, and no other node has one: only the self/adjacency filter removes candidates. */
  lemma EveryEligibleScoredOnce(g: Graph, h: Heuristic, q: int)
    requires WellFormed(g) && q in g.adj
    ensures forall r :: r in ScoreList(g, h, q, g.nodes) <==>
      r.id in EligibleNodes(g, q) && r.score == Score(g, h, q, r.id)
    ensures DistinctIds(ScoreList(g, h, q, g.nodes))
    ensures |ScoreList(g, h, q, g.nodes)| == |EligibleNodes(g, q)|
  {
    ScoreListMembers(g, h, q, g.nodes);
    ScoreListDistinct(g, h, q, g.nodes);
    ScoreListLength(g, h, q, g.nodes);
    assert (set x | x in g.nodes && Eligible(g, q, x)) == EligibleNodes(g, q);
  }

  /** The ranked list before truncation: a permutation of the scores list. */
  lemma RankedScores(g: Graph, h: Heuristic, q: int)
    requires WellFormed(g) && q in g.adj
    ensures var full := SortRanked(ScoreList(g, h, q, g.nodes));
      && multiset(full) == multiset(ScoreList(g, h, q, g.nodes))
      && Ranked(full)
      && DistinctIds(full)
      && |full| == |EligibleNodes(g, q)|
      && forall r :: r in full <==> r.id in EligibleNodes(g, q) && r.score == Score(g, h, q, r.id)
  {
    var sl := ScoreList(g, h, q, g.nodes);
    EveryEligibleScoredOnce(g, h, q);
    SortRankedCorrect(sl);
    var full := SortRanked(sl);
    assert |full| == |sl| by { assert |multiset(full)| == |multiset(sl)|; }
    forall r
      ensures r in full <==> r in sl
    {
      assert r in full <==> r in multiset(full);
    }
  }

  /** The sum reads only the adjacency map, not the order in which the graph lists its nodes. */
  lemma {:induction false} SumContributionsSameAdj(g1: Graph, g2: Graph, invLog2: nat -> real, s: set<int>)
    requires g1.adj == g2.adj && WeighableNodes(g1, s)
    ensures WeighableNodes(g2, s)
    ensures SumContributions(g1, invLog2, s) == SumContributions(g2, invLog2, s)
    decreases s
  {
    if s != {} {
      NonEmptyHasMember(s);
      var c :| c in s;
      SumContributionsRemove(g1, invLog2, s, c);
      SumContributionsRemove(g2, invLog2, s, c);
      SumContributionsSameAdj(g1, g2, invLog2, s - {c});
    }
  }

  /** The result does not depend on the order in which `graph.Nodes()` enumerates the nodes: two
      graphs with the same edges give the same recommendations. */
  lemma RecommendOrderIndependent(adj: map<int, set<int>>, ns1: seq<int>, ns2: seq<int>, h: Heuristic, q: int, nRec: nat)
    requires WellFormed(Graph(ns1, adj)) && WellFormed(Graph(ns2, adj)) && q in adj
    ensures Recommend(Graph(ns1, adj), h, q, nRec) == Recommend(Graph(ns2, adj), h, q, nRec)
  {
    var g1, g2 := Graph(ns1, adj), Graph(ns2, adj);
    forall x | x in adj && x != q
      ensures Score(g1, h, q, x) == Score(g2, h, q, x)
    {
      if h.ByAdamicAdar? {
        CommonNeighbourDegrees(g1, x, q);
        SumContributionsSameAdj(g1, g2, h.invLog2, CommonNeighbourSet(g1, x, q));
      }
    }
    RankedScores(g1, h, q);
    RankedScores(g2, h, q);
    var full1, full2 := SortRanked(ScoreList(g1, h, q, ns1)), SortRanked(ScoreList(g2, h, q, ns2));
    assert EligibleNodes(g1, q) == EligibleNodes(g2, q);
    SameEntriesSameMultiset(full1, full2);
    RankedUnique(full1, full2);
  }

  /** No recommendation is the query node itself or a node already adjacent to it, and each
      carries its candidate's score. */
  lemma RecommendEntries(g: Graph, h: Heuristic, q: int, nRec: nat)
    requires WellFormed(g) && q in g.adj
    ensures forall r :: r in Recommend(g, h, q, nRec) ==>
      && r.id in g.adj && r.id != q && !IsEdge(g, r.id, q) && r.id !in g.adj[q]
      && r.score == Score(g, h, q, r.id)
  {
    RankedScores(g, h, q);
  }

  /** The Common Neighbours score of a recommendation is the size of the intersection of its
      neighbour set with the query node's. */
  lemma CommonNeighboursScores(g: Graph, q: int, nRec: nat)
    requires WellFormed(g) && q in g.adj
    ensures forall r :: r in Recommend(g, ByCommonNeighbours, q, nRec) ==>
      r.id in g.adj && r.score == |g.adj[r.id] * g.adj[q]| as real
  {
    RecommendEntries(g, ByCommonNeighbours, q, nRec);
  }

  /** An Adamic-Adar score lies between 0 and the Common Neighbours score of the same pair, and
      it is 0 exactly when the two nodes have no common neighbour. */
  lemma AdamicAdarScoreBounds(g: Graph, invLog2: nat -> real, q: int, x: int)
    requires WellFormed(g) && q in g.adj && x in g.adj && x != q
    requires InverseLog2Bounds(invLog2)
    ensures 0.0 <= Score(g, ByAdamicAdar(invLog2), q, x) <= Score(g, ByCommonNeighbours, q, x)
    ensures Score(g, ByAdamicAdar(invLog2), q, x) == 0.0 <==> CommonNeighbourSet(g, x, q) == {}
  {
    CommonNeighbourDegrees(g, x, q);
    SumContributionsBounds(g, invLog2, CommonNeighbourSet(g, x, q));
  }

  /** The recommendations are ordered by score descending, equal scores by node id ascending. */
  lemma RecommendRanked(g: Graph, h: Heuristic, q: int, nRec: nat)
    requires WellFormed(g) && q in g.adj
    ensures var rs := Recommend(g, h, q, nRec);
      forall i, j :: 0 <= i < j < |rs| ==>
        rs[i].score > rs[j].score || (rs[i].score == rs[j].score && rs[i].id < rs[j].id)
  {
    RankedScores(g, h, q);
  }

  /** `min(n_rec, number of eligible candidates)` entries: all of them, unpadded, when there are
      fewer than `n_rec`. */
  lemma RecommendLength(g: Graph, h: Heuristic, q: int, nRec: nat)
    requires WellFormed(g) && q in g.adj
    ensures |Recommend(g, h, q, nRec)| ==
      if nRec < |EligibleNodes(g, q)| then nRec else |EligibleNodes(g, q)|
  {
    RankedScores(g, h, q);
  }

  /** The result for a limit `n` is a prefix of the result for any larger limit. */
  lemma RecommendPrefix(g: Graph, h: Heuristic, q: int, n: nat, n': nat)
    requires WellFormed(g) && q in g.adj && n <= n'
    ensures Recommend(g, h, q, n) <= Recommend(g, h, q, n')
  {
    TopMonotone(SortRanked(ScoreList(g, h, q, g.nodes)), n, n');
  }

  /** The result is a top list: an eligible node left out ranks no higher than any node returned. */
  lemma RecommendTop(g: Graph, h: Heuristic, q: int, nRec: nat, x: int)
    requires WellFormed(g) && q in g.adj
    requires x in EligibleNodes(g, q)
    requires forall r :: r in Recommend(g, h, q, nRec) ==> r.id != x
    ensures forall r :: r in Recommend(g, h, q, nRec) ==> RanksNoLower(r, Rec(x, Score(g, h, q, x)))
  {
    RankedScores(g, h, q);
    var full := SortRanked(ScoreList(g, h, q, g.nodes));
    var rs := Recommend(g, h, q, nRec);
    var k :| 0 <= k < |full| && full[k] == Rec(x, Score(g, h, q, x));
    assert k >= |rs|;
    forall r | r in rs
      ensures RanksNoLower(r, full[k])
    {
      var i :| 0 <= i < |rs| && rs[i] == r;
      assert full[i] == r;
    }
  }
}

# Friend recommendation by Common Neighbours and Adamic-Adar

This project models the scoring core of a small link-prediction script,
`assignment2.py`. The script recommends friends on an undirected social graph.
It has two recommenders:

- `common_neighbours(graph, node_id, n_rec)` scores every candidate by the number
  of neighbours it shares with the query node.
- `adamic_adar(graph, node_id, n_rec)` scores every candidate by the sum of
  `1 / log2(degree(c))` over the shared neighbours `c`.

Both recommenders work the same way:

1. Walk `graph.Nodes()`. Skip the query node and the nodes already adjacent to
   it. Append one `[node, score]` entry for every other node, including nodes
   whose score is 0.
2. Sort the list by node id, then stably by score with `reverse=True`.
3. Return the first `n_rec` entries.

The model has four modules:

- `Graphs` (`graph.dfy`): the graph as an immutable value. A graph is a
  sequence of distinct node ids plus a symmetric adjacency map with no
  self-loops. SNAP's `IsEdge` is map-and-set membership, `GetCmnNbrs` is set
  intersection and `GetOutDeg` is the size of a neighbour set. This module
  also holds the eligibility filter.
- `Ranking` (`ranking.dfy`): the shared ranking step.
  - `SortById` and `SortByScoreDesc` are two in-place stable insertion sorts
    on an array. They follow the two `list.sort` calls, key by key.
  - `Rank` runs both sorts and truncates the result.
  - `SortRanked` is a functional reference ranking (score descending, ties by
    id ascending). `Rank` is proved equal to it.
- `Recommenders` (`recommend.dfy`): the two scorers.
  - `CommonNeighbours` and `AdamicAdar` are methods that build the `scores`
    list in a loop, as the source does. `AdamicAdar` has an inner loop that
    accumulates `sum`.
  - `Score`, `ScoreList` and `Recommend` specify the scorers. The lemmas state
    what a result satisfies.
- `Scenarios` (`scenarios.dfy`): worked cases on the graph with edges 1-2,
  1-3, 2-3 and 2-4.

The real logarithm is left abstract. `AdamicAdar` takes a parameter
`invLog2: nat -> real`, which stands for `d => 1 / log2(d)`. `Contribution`
may only be applied to a degree `d >= 2`, because the source divides by
`log2(d)` and `log2(1) = 0`. The method discharges that precondition for every
term with `CommonNeighbourDegrees`. The bounds that `1 / log2(d)` satisfies,
`0 < w(d) <= 1` for `d >= 2`, are the predicate `InverseLog2Bounds`. Only the
lemmas that need them assume them.

Three edge cases, as the code handles them:

- The code does not check that the query node exists. `adamic_adar` asks
  `graph.GetNI(node_id)` for it (assignment2.py:33), and both recommenders pass
  it to `snap.GetCmnNbrs`. The model makes `q in g.adj` a precondition of both
  recommenders (see "Left out").
- A common neighbour never has degree 1. On a simple undirected graph a common
  neighbour of two distinct nodes is adjacent to both of them.
  `Graphs.CommonNeighbourDegrees` proves it, so the division by
  `math.log(deg, 2)` at assignment2.py:42 never divides by `log2(1) = 0`.
- `n_rec = 0` gives an empty result. A negative `n_rec` is not an empty result
  in the code: `scores[:n_rec]` then drops entries from the end of the list.
  The model takes `nRec: nat`.

## Model

| member | source | states |
|---|---|---|
| `Graphs.CommonNeighbourDegrees` | assignment2.py:40-42 | every common neighbour of two distinct nodes is a node of degree at least 2, so `math.log(deg, 2)` is never 0 and the division never fails |
| `Graphs.Eligible` | assignment2.py:18 | the filter `node != node_id and not graph.IsEdge(node, node_id)`; on a well-formed graph it keeps a node exactly when it is not the query node and not among the query node's neighbours |
| `Graphs.EdgeSymmetric` | assignment2.py:18 | on a well-formed graph `IsEdge(node, node_id)` holds exactly when `IsEdge(node_id, node)` does |
| `Graphs.UnknownQueryExcludesNothing` | assignment2.py:18 | when the query id is not a node, `IsEdge` is false for every candidate, so the filter keeps every node of the graph |
| `Ranking.SortById` | assignment2.py:23 | `scores.sort(key=lambda x: x[0])` in place: afterwards ids ascend and the array is a permutation of what it held |
| `Ranking.SortByScoreDesc` | assignment2.py:24 | `scores.sort(key=lambda x: x[1], reverse=True)`, stable, in place: applied to an id-ordered array it leaves a permutation ordered by score descending with equal scores by id ascending |
| `Ranking.Rank` | assignment2.py:23-27 | the two sorts followed by `[:n_rec]` return the first `n_rec` entries of the reference ranking of the scores list |
| `Ranking.SortRankedCorrect` | assignment2.py:21-24 | the reference ranking is ordered (score descending, ties by id ascending), is a permutation of its input and repeats no id the input did not repeat |
| `Ranking.RankedUnique` | assignment2.py:23-24 | two ranked lists holding the same entries are equal: the two sorts leave one order whatever order the entries arrived in |
| `Ranking.SameEntriesSameMultiset` | assignment2.py:14-19 | two lists that repeat no node id and hold the same entries are permutations of each other |
| `Ranking.Insert` | assignment2.py:24 | placing one entry into the ranking adds exactly that entry |
| `Ranking.Top` | assignment2.py:27 | `s[:n]` has `min(n, len(s))` entries and is a prefix of `s`, with no padding |
| `Ranking.TopMonotone` | assignment2.py:27 | a smaller limit gives a prefix of the result for a larger limit |
| `Recommenders.SumContributions` | assignment2.py:41-42 | the Adamic-Adar sum over a set of common neighbours; with every term in (0, 1] it lies between 0 and the number of terms |
| `Recommenders.Score` | assignment2.py:19-42 | the score of one candidate: the common-neighbour count (line 19) or the Adamic-Adar sum (lines 40-42); it is never negative when the weights are in (0, 1] |
| `Recommenders.ScoreList` | assignment2.py:13-19 | the `scores` list the loop builds, in enumeration order: no longer than the node list, and every entry is an enumerated node that passes the filter |
| `Recommenders.Recommend` | assignment2.py:12-27 | the result of either recommender: at most `n_rec` entries, each for an eligible node |
| `Recommenders.CommonNeighbours` | assignment2.py:12-27 | `common_neighbours` returns `Recommend` for the Common Neighbours score: the filter-score loop, both sorts and the truncation |
| `Recommenders.AdamicAdar` | assignment2.py:30-46 | `adamic_adar` returns `Recommend` for the Adamic-Adar score. The accumulator is reset for every node, and the inner loop adds one term per common neighbour |
| `Recommenders.SumContributionsRemove` | assignment2.py:41-42 | the accumulated Adamic-Adar sum does not depend on the order in which the common neighbours are visited |
| `Recommenders.SumContributionsBounds` | assignment2.py:41-42 | with every term in (0, 1], the sum lies between 0 and the number of terms, and it is 0 exactly when there are no terms |
| `Recommenders.ScoreListMembers` | assignment2.py:14-19 | an entry is in the scores list exactly when its node is enumerated, is not the query node, is not adjacent to it and carries that node's score |
| `Recommenders.ScoreListDistinct` | assignment2.py:14-19 | the scores list never holds two entries for one node |
| `Recommenders.ScoreListLength` | assignment2.py:14-19 | the scores list has one entry per eligible enumerated node |
| `Recommenders.EveryEligibleScoredOnce` | assignment2.py:13-19 | before sorting, every eligible node of the graph has exactly one entry, zero scores included, and no other node has one |
| `Recommenders.RankedScores` | assignment2.py:23-24 | the sorted list is a permutation of the scores list, is ranked, and holds every eligible node once with its score |
| `Recommenders.RecommendEntries` | assignment2.py:18-19 | no recommendation is the query node or one of its neighbours, and each carries its own candidate's score |
| `Recommenders.CommonNeighboursScores` | assignment2.py:19 | a Common Neighbours score is the size of the intersection of the candidate's neighbour set with the query node's |
| `Recommenders.AdamicAdarScoreBounds` | assignment2.py:39-43 | an Adamic-Adar score is non-negative, at most the Common Neighbours count of the same pair, and 0 exactly when the pair has no common neighbour |
| `Recommenders.RecommendRanked` | assignment2.py:21-24 | results are ordered by score descending, and equal scores by strictly ascending node id |
| `Recommenders.RecommendLength` | assignment2.py:25-27 | the result has `min(n_rec, number of eligible nodes)` entries |
| `Recommenders.RecommendPrefix` | assignment2.py:27 | for a fixed graph and query node, the result for limit `n` is a prefix of the result for any `n' >= n` |
| `Recommenders.RecommendOrderIndependent` | assignment2.py:14-27 | two graphs with the same edges whose `graph.Nodes()` enumerate the nodes in different orders give the same recommendations |
| `Recommenders.RecommendTop` | assignment2.py:23-27 | an eligible node that is left out ranks no higher than any node that is returned |
| `Scenarios.CommonNeighboursOfNode1` | assignment2.py:12-27 | on the edges 1-2, 1-3, 2-3, 2-4, query node 1 gets `[[4, 1]]`: nodes 2 and 3 are already friends |
| `Scenarios.AdamicAdarOfNode1` | assignment2.py:30-46 | on the same graph, query node 1 gets `[[4, 1/log2(3)]]`: the shared neighbour, node 2, has degree 3 |
| `Scenarios.CommonNeighboursOfNode4` | assignment2.py:21-27 | query node 4 gets `[[1, 1], [3, 1]]`: the tie goes to the smaller id, and `n_rec = 1` keeps only `[1, 1]` |
| `Scenarios.LoneNodeGetsNothing` | assignment2.py:12-27 | a one-node graph gives an empty result for every limit |

## Left out

- Graph loading (`snap.LoadEdgeList`) is file I/O through a foreign library. The graph is a given, well-formed, immutable value.
- `_print_result_tables` and the `terminaltables` output are console presentation only.
- The driver loop and the `SETTINGS` globals are glue. The recommenders already take the node and the limit as parameters.
- Floating point is not modelled. Scores are exact reals, and the logarithm is the abstract `invLog2`. In the source, float rounding can make two mathematically equal Adamic-Adar sums differ in their last bits, which can change the order of near-ties. The source's summation order (SNAP's `TIntV` order) can also change those bits. The model sums in any order, which is exact for reals (`SumContributionsRemove`).
- The Common Neighbours score is an integer in the source. The model holds it as the equal real number, so that both recommenders share one entry type and one ranking. The ordering is the same.
- Negative `n_rec` is not modelled. Python's `scores[:n_rec]` would drop entries from the end of the list. The limit is a `nat`.
- A missing query node is not modelled: `q in g.adj` is a precondition of both recommenders. For such an id `IsEdge` is false, so the filter at assignment2.py:18 keeps every node (`Graphs.UnknownQueryExcludesNothing`), and `common_neighbours` would then ask `snap.GetCmnNbrs` about an id that is not a node. `adamic_adar` asks `graph.GetNI` for it at assignment2.py:33. What SNAP does for an unknown id is outside the model.
- `neighbours_b` (assignment2.py:33) is computed and never used. Its only effect is the requirement that the query node exists, which is the precondition above.
- SNAP internals (`GetCmnNbrs`, `IsEdge`, `GetOutDeg`, `TIntV`) are not modelled as code. They are replaced by set intersection, membership and cardinality over the adjacency map.
- Python's `list.sort` (Timsort) is modelled as a stable insertion sort. Both are stable sorts on the same key, so they give the same result.

/** The ranking step both recommenders share: sort the scored candidates by node id, then stably by
    score with `reverse=True`, and keep the first `n_rec` entries. */
module Ranking {

  /** One recommendation: the candidate's node id and its score (the `[node, score]` pair). */
  datatype Rec = Rec(id: int, score: real)

  /** `r` ranks no lower than `s`: a higher score first, and on equal scores the smaller id first.
      This is a total order on recommendations. */
  predicate RanksNoLower(r: Rec, s: Rec) {
    r.score > s.score || (r.score == s.score && r.id <= s.id)
  }

  /** Ordered by score descending, ties by node id ascending. */
  predicate Ranked(s: seq<Rec>) {
    forall i, j :: 0 <= i < j < |s| ==> RanksNoLower(s[i], s[j])
  }

  /** Ordered by node id ascending: what the first sort (`key=lambda x: x[0]`) leaves. */
  predicate IdsAscending(s: seq<Rec>) {
    forall i, j :: 0 <= i < j < |s| ==> s[i].id <= s[j].id
  }

  /** No node id occurs twice. */
  predicate DistinctIds(s: seq<Rec>) {
    forall i, j :: 0 <= i < j < |s| ==> s[i].id != s[j].id
  }

  /** Puts `r` into a list at the place a ranked list wants it. */
  function Insert(r: Rec, s: seq<Rec>): (t: seq<Rec>)
    ensures multiset(t) == multiset(s) + multiset{r}
  {
    if s == [] || RanksNoLower(r, s[0]) then
      [r] + s
    else
      assert s == [s[0]] + s[1..];
      [s[0]] + Insert(r, s[1..])
  }

  /** Inserting into a ranked list keeps it ranked. */
  lemma {:induction false} InsertRanked(r: Rec, s: seq<Rec>)
    requires Ranked(s)
    ensures Ranked(Insert(r, s))
  {
    if s != [] && !RanksNoLower(r, s[0]) {
      var t' := Insert(r, s[1..]);
      InsertRanked(r, s[1..]);
      forall k | 0 <= k < |t'|
        ensures RanksNoLower(s[0], t'[k])
      {
        assert t'[k] in multiset(t');
        if t'[k] != r {
          assert t'[k] in s[1..];
        }
      }
    }
  }

  /** Inserting an entry whose id is new into a list without repeated ids repeats no id. */
  lemma {:induction false} InsertDistinct(r: Rec, s: seq<Rec>)
    requires DistinctIds(s)
    requires forall k :: 0 <= k < |s| ==> s[k].id != r.id
    ensures DistinctIds(Insert(r, s))
  {
    if s != [] && !RanksNoLower(r, s[0]) {
      var t' := Insert(r, s[1..]);
      InsertDistinct(r, s[1..]);
      forall k | 0 <= k < |t'|
        ensures t'[k].id != s[0].id
      {
        assert t'[k] in multiset(t');
        if t'[k] != r {
          assert t'[k] in s[1..];
        }
      }
    }
  }

  /** The reference ranking: the scored list put in order by insertion, one entry at a time. */
  function SortRanked(s: seq<Rec>): (t: seq<Rec>)
    ensures multiset(t) == multiset(s)
  {
    if s == [] then
      []
    else
      assert s == [s[0]] + s[1..];
      Insert(s[0], SortRanked(s[1..]))
  }

  /** The reference ranking is ordered by score descending, ties by id ascending, holds exactly
      the entries it was given, and repeats no id that the input did not repeat. */
  lemma {:induction false} SortRankedCorrect(s: seq<Rec>)
    ensures Ranked(SortRanked(s))
    ensures multiset(SortRanked(s)) == multiset(s)
    ensures DistinctIds(s) ==> DistinctIds(SortRanked(s))
  {
    if s != [] {
      var t' := SortRanked(s[1..]);
      SortRankedCorrect(s[1..]);
      InsertRanked(s[0], t');
      if DistinctIds(s) {
        forall k | 0 <= k < |t'|
          ensures t'[k].id != s[0].id
        {
          assert t'[k] in multiset(s[1..]);
          assert t'[k] in s[1..];
        }
        InsertDistinct(s[0], t');
      }
    }
  }

  /** Python's `s[:n]` for `n >= 0`: the first `n` entries, or all of them when there are fewer. */
  function Top(s: seq<Rec>, n: nat): (t: seq<Rec>)
    ensures |t| == if n < |s| then n else |s|
    ensures t <= s
  {
    if n < |s| then s[..n] else s
  }

  /** Asking for more entries only extends the answer: the shorter result is a prefix of the longer. */
  lemma TopMonotone(s: seq<Rec>, n: nat, n': nat)
    requires n <= n'
    ensures Top(s, n) <= Top(s, n')
  {
  }

  /** The head of a ranked list ranks no lower than any of its entries. */
  lemma RankedHead(a: seq<Rec>, x: Rec)
    requires Ranked(a) && x in multiset(a)
    ensures RanksNoLower(a[0], x)
  {
    var j :| 0 <= j < |a| && a[j] == x;
  }

  /** Two ranked lists holding the same entries are the same list: the order is total, so the
      ranking of a list does not depend on the order its entries arrived in. */
  lemma {:induction false} RankedUnique(a: seq<Rec>, b: seq<Rec>)
    requires Ranked(a) && Ranked(b) && multiset(a) == multiset(b)
    ensures a == b
  {
    if a != [] {
      assert |b| == |a| by { assert |multiset(b)| == |multiset(a)|; }
      RankedHead(a, b[0]);
      RankedHead(b, a[0]);
      assert a[0] == b[0];
      assert a == [a[0]] + a[1..] && b == [b[0]] + b[1..];
      calc {
        multiset(a[1..]);
        multiset(a) - multiset{a[0]};
        multiset(b) - multiset{b[0]};
        multiset(b[1..]);
      }
      RankedUnique(a[1..], b[1..]);
    }
  }

  /** Taking entry `k` out of a list that repeats no id leaves the other entries, once each. */
  lemma RemoveEntry(b: seq<Rec>, k: nat, b': seq<Rec>)
    requires DistinctIds(b) && k < |b| && b' == b[..k] + b[k + 1..]
    ensures DistinctIds(b')
    ensures multiset(b) == multiset(b') + multiset{b[k]}
    ensures forall r :: r in b' <==> r in b && r != b[k]
  {
    assert b == b[..k] + [b[k]] + b[k + 1..];
    forall i, j | 0 <= i < j < |b'|
      ensures b'[i].id != b'[j].id
    {
      var i', j' := if i < k then i else i + 1, if j < k then j else j + 1;
      assert b'[i] == b[i'] && b'[j] == b[j'];
    }
    forall r
      ensures r in b' <==> r in b && r != b[k]
    {
      if r in b' {
        var m :| 0 <= m < |b'| && b'[m] == r;
        assert b[if m < k then m else m + 1] == r;
      }
      if r in b && r != b[k] {
        var p :| 0 <= p < |b| && b[p] == r;
        assert b'[if p < k then p else p - 1] == r;
      }
    }
  }

  /** A non-empty list holds its first entry. */
  lemma HeadIsEntry(b: seq<Rec>)
    requires b != []
    ensures b[0] in b
  {
  }

  /** Two lists that repeat no id and hold the same entries hold them equally often: they are
      permutations of each other. */
  lemma {:induction false} SameEntriesSameMultiset(a: seq<Rec>, b: seq<Rec>)
    requires DistinctIds(a) && DistinctIds(b)
    requires forall r :: r in a <==> r in b
    ensures multiset(a) == multiset(b)
    decreases |a|
  {
    if a == [] {
      if b != [] {
        HeadIsEntry(b);
        assert false;
      }
    } else {
      var x := a[0];
      assert x in b;
      var k :| 0 <= k < |b| && b[k] == x;
      var a', b' := a[1..], b[..k] + b[k + 1..];
      assert a' == a[..0] + a[1..];
      RemoveEntry(a, 0, a');
      RemoveEntry(b, k, b');
      assert forall r :: r in a' <==> r in b';
      SameEntriesSameMultiset(a', b');
      assert multiset(a) == multiset(a') + multiset{x};
    }
  }

  /** Exchanges two entries of the list. */
  method Swap(a: array<Rec>, i: int, j: int)
    requires 0 <= i < a.Length && 0 <= j < a.Length
    modifies a
    ensures a[i] == old(a[j]) && a[j] == old(a[i])
    ensures forall k :: 0 <= k < a.Length && k != i && k != j ==> a[k] == old(a[k])
    ensures multiset(a[..]) == old(multiset(a[..]))
  {
    a[i], a[j] := a[j], a[i];
  }

  /** `scores.sort(key=lambda x: x[0])`: a stable in-place insertion sort by node id ascending. */
  method SortById(a: array<Rec>)
    modifies a
    ensures IdsAscending(a[..])
    ensures multiset(a[..]) == old(multiset(a[..]))
  {
    var i := 0;
    while i < a.Length
      invariant 0 <= i <= a.Length
      invariant forall k, l :: 0 <= k < l < i ==> a[k].id <= a[l].id
      invariant multiset(a[..]) == old(multiset(a[..]))
    {
      var j := i;
      while j > 0 && a[j - 1].id > a[j].id
        invariant 0 <= j <= i
        invariant forall k, l :: 0 <= k < l <= i && k != j && l != j ==> a[k].id <= a[l].id
        invariant forall l :: j < l <= i ==> a[j].id < a[l].id
        invariant multiset(a[..]) == old(multiset(a[..]))
      {
        Swap(a, j - 1, j);
        j := j - 1;
      }
      i := i + 1;
    }
  }

  /** `scores.sort(key=lambda x: x[1], reverse=True)`: a stable in-place insertion sort by score
      descending, which moves an entry only past entries of strictly smaller score. Run on a list
      already ordered by id, it leaves equal scores in id order, so the result is ranked. */
  method SortByScoreDesc(a: array<Rec>)
    requires IdsAscending(a[..])
    modifies a
    ensures Ranked(a[..])
    ensures multiset(a[..]) == old(multiset(a[..]))
  {
    var i := 0;
    while i < a.Length
      invariant 0 <= i <= a.Length
      invariant forall k, l :: 0 <= k < l < i ==> RanksNoLower(a[k], a[l])
      invariant forall k, l :: 0 <= k < l < a.Length && i <= l ==> a[k].id <= a[l].id
      invariant multiset(a[..]) == old(multiset(a[..]))
    {
      var j := i;
      while j > 0 && a[j - 1].score < a[j].score
        invariant 0 <= j <= i
        invariant forall k, l :: 0 <= k < l <= i && k != j && l != j ==> RanksNoLower(a[k], a[l])
        invariant forall l :: j < l <= i ==> a[j].score > a[l].score
        invariant forall k :: 0 <= k <= i && k != j ==> a[k].id <= a[j].id
        invariant forall k, l :: 0 <= k < l < a.Length && i < l ==> a[k].id <= a[l].id
        invariant multiset(a[..]) == old(multiset(a[..]))
      {
        Swap(a, j - 1, j);
        j := j - 1;
      }
      i := i + 1;
    }
  }

  /** The shared ranking step: both sorts, then the first `nRec` entries. The result is the
      reference ranking of `scores`, truncated. */
  method Rank(scores: seq<Rec>, nRec: nat) returns (recs: seq<Rec>)
    ensures recs == Top(SortRanked(scores), nRec)
  {
    var a := new Rec[|scores|](i requires 0 <= i < |scores| => scores[i]);
    assert a[..] == scores;
    SortById(a);
    SortByScoreDesc(a);
    SortRankedCorrect(scores);
    RankedUnique(a[..], SortRanked(scores));
    recs := Top(a[..], nRec);
  }
}

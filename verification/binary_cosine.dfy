/**
 The binary cosine model (`BinaryCosine`): the query is the set of its known
 term ids, a document's weight for a term is 1 when it has a posting for it,
 and the similarity of a document matching `c` of the `n` query terms is
 `c / (sqrt(c) * sqrt(n))`.
 */
module BinaryCosine {
  import opened Seqs
  import opened Numerics
  import opened Tally
  import opened Groups
  import opened Sorting
  import opened IndexStore

  // ---------------------------------------------------------------------------
  // Query vector (BinaryCosine.java:79-92)

  /** `computeVector`: each term id once, in order of first occurrence. */
  function BinaryVector(terms: seq<string>, vocabulary: map<string, TermInfo>): (v: seq<nat>)
    requires AllKnown(terms, vocabulary)
    ensures Distinct(v)
    ensures forall id :: id in v <==> id in TermIds(terms, vocabulary)
    ensures |v| <= |terms|
  {
    if |terms| == 0 then []
    else
      var init := terms[..|terms| - 1];
      var v := BinaryVector(init, vocabulary);
      var id := vocabulary[terms[|terms| - 1]].id;
      assert TermIds(terms, vocabulary) == TermIds(init, vocabulary) + [id];
      if id in v then v
      else
        DistinctCons(id, []);
        assert Distinct(v + [id]) by {
          forall i, j | 0 <= i < j < |v| + 1
            ensures (v + [id])[i] != (v + [id])[j]
          {
            if j == |v| {
              assert (v + [id])[i] == v[i];
            }
          }
        }
        v + [id]
  }

  /** The vector is the de-duplication of the term ids. */
  lemma {:induction false} BinaryVectorIsDedup(terms: seq<string>, vocabulary: map<string, TermInfo>)
    requires AllKnown(terms, vocabulary)
    ensures BinaryVector(terms, vocabulary) == Dedup(TermIds(terms, vocabulary))
  {
    if |terms| > 0 {
      var init := terms[..|terms| - 1];
      var id := vocabulary[terms[|terms| - 1]].id;
      BinaryVectorIsDedup(init, vocabulary);
      assert TermIds(terms, vocabulary) == TermIds(init, vocabulary) + [id];
      AppendNewConcat([], TermIds(init, vocabulary), [id]);
      assert [id][1..] == [];
    }
  }

  /** Ids of known terms name existing posting lists. */
  lemma BinaryVectorInRange(terms: seq<string>, ix: Index)
    requires AllKnown(terms, ix.vocabulary) && TermIdsInRange(ix)
    ensures VectorInRange(BinaryVector(terms, ix.vocabulary), ix.invertedIndex)
  {
    var v := BinaryVector(terms, ix.vocabulary);
    forall i | 0 <= i < |v|
      ensures v[i] < |ix.invertedIndex|
    {
      var ids := TermIds(terms, ix.vocabulary);
      assert v[i] in v;
      var k :| 0 <= k < |ids| && ids[k] == v[i];
      assert terms[k] in ix.vocabulary;
    }
  }

  // ---------------------------------------------------------------------------
  // Grouping by document (BinaryCosine.java:39-50)

  /** The value the binary model records for a posting: the query term id. */
  function TermOf(t: nat, p: Posting): nat
  {
    t
  }

  /** The term ids recorded for document `d`: one per posting naming it. */
  function Matches(q: seq<nat>, inv: seq<seq<Posting>>, d: nat): seq<nat>
    requires VectorInRange(q, inv)
  {
    Select(Visits(q, inv, TermOf), d)
  }

  /** The query terms whose posting list names `d`, in query order. */
  function TermsContaining(q: seq<nat>, inv: seq<seq<Posting>>, d: nat): (ts: seq<nat>)
    requires VectorInRange(q, inv)
    ensures |ts| <= |q|
    ensures forall i | 0 <= i < |ts| :: ts[i] in q && d in PostingIds(inv[ts[i]])
  {
    if |q| == 0 then []
    else (if d in PostingIds(inv[q[0]]) then [q[0]] else []) + TermsContaining(q[1..], inv, d)
  }

  /** When every posting list of the query names each document at most
      once, the terms recorded for a document are exactly the query terms
      whose list names it, so there are at most as many as query terms. */
  lemma {:induction false} MatchesAreContainingTerms(q: seq<nat>, inv: seq<seq<Posting>>, d: nat)
    requires VectorInRange(q, inv)
    requires forall i | 0 <= i < |q| :: StrictlyIncreasing(PostingIds(inv[q[i]]))
    ensures Matches(q, inv, d) == TermsContaining(q, inv, d)
    ensures |Matches(q, inv, d)| <= |q|
  {
    if |q| > 0 {
      var head := ListVisits(inv[q[0]], q[0], TermOf);
      MatchesAreContainingTerms(q[1..], inv, d);
      SelectAppend(head, Visits(q[1..], inv, TermOf), d);
      ListVisitsSelect(inv[q[0]], q[0], d);
    }
  }

  lemma {:induction false} ListVisitsSelect(ps: seq<Posting>, t: nat, d: nat)
    requires StrictlyIncreasing(PostingIds(ps))
    ensures Select(ListVisits(ps, t, TermOf), d) == if d in PostingIds(ps) then [t] else []
  {
    HitsAtMostOne(ps, d);
    SelectHits(ps, t, d);
  }

  /** Grouping the visits of one list records `t` once per posting of `d`. */
  lemma {:induction false} SelectHits(ps: seq<Posting>, t: nat, d: nat)
    ensures |Select(ListVisits(ps, t, TermOf), d)| == |Hits(ps, d)|
    ensures forall j | 0 <= j < |Select(ListVisits(ps, t, TermOf), d)| :: Select(ListVisits(ps, t, TermOf), d)[j] == t
  {
    if |ps| > 0 {
      assert ListVisits(ps, t, TermOf)[1..] == ListVisits(ps[1..], t, TermOf);
      SelectHits(ps[1..], t, d);
    }
  }

  // ---------------------------------------------------------------------------
  // Similarity and ranking (BinaryCosine.java:52-70)

  /** `doc.size() / (Math.sqrt(doc.size()) * Math.sqrt(queryVector.size()))`. */
  function Similarity(matches: nat, n: nat, m: Math): real
    requires matches > 0 && n > 0 && SqrtPositiveOnPositive(m)
  {
    assert m.sqrt(matches as real) > 0.0 && m.sqrt(n as real) > 0.0;
    MulPositive(m.sqrt(matches as real), m.sqrt(n as real));
    matches as real / (m.sqrt(matches as real) * m.sqrt(n as real))
  }

  function Similarities(gs: seq<Group<nat>>, n: nat, m: Math): (r: seq<Entry<nat>>)
    requires forall i | 0 <= i < |gs| :: |gs[i].values| > 0
    requires |gs| == 0 || n > 0
    requires SqrtPositiveOnPositive(m)
    ensures |r| == |gs| && Keys(r) == GroupKeys(gs)
    ensures forall i | 0 <= i < |gs| :: r[i].amount == Similarity(|gs[i].values|, n, m)
  {
    seq(|gs|, i requires 0 <= i < |gs| => Entry(gs[i].key, Similarity(|gs[i].values|, n, m)))
  }

  /** `computeScores`: every document with a posting for some query term,
      once, ranked by its similarity. */
  function ComputeScores(q: seq<nat>, ix: Index, m: Math): (r: seq<Entry<nat>>)
    requires VectorInRange(q, ix.invertedIndex) && SqrtPositiveOnPositive(m)
    ensures SortedByScore(r)
    ensures Distinct(Keys(r))
    ensures forall d :: d in Keys(r) <==> d in ItemKeys(Visits(q, ix.invertedIndex, TermOf))
    ensures q == [] ==> r == []
  {
    var visits := Visits(q, ix.invertedIndex, TermOf);
    var gs := PutAll([], visits);
    GroupedVisits(q, ix.invertedIndex, TermOf);
    var scored := Similarities(gs, |q|, m);
    SortKeepsKeys(scored);
    assert forall d :: d in Keys(SortByScore(scored)) <==> d in Elems(Keys(SortByScore(scored)));
    assert forall d :: d in Keys(scored) <==> d in Elems(Keys(scored));
    SortByScore(scored)
  }

  /** Each ranked document scores its similarity for the number of query
      terms recorded for it. */
  lemma ScoreOfDocument(q: seq<nat>, ix: Index, m: Math, i: nat)
    requires VectorInRange(q, ix.invertedIndex) && SqrtPositiveOnPositive(m)
    requires i < |ComputeScores(q, ix, m)|
    ensures var e := ComputeScores(q, ix, m)[i];
      && |q| > 0
      && |Matches(q, ix.invertedIndex, e.key)| > 0
      && e.amount == Similarity(|Matches(q, ix.invertedIndex, e.key)|, |q|, m)
  {
    var visits := Visits(q, ix.invertedIndex, TermOf);
    var gs := PutAll([], visits);
    GroupedVisits(q, ix.invertedIndex, TermOf);
    var scored := Similarities(gs, |q|, m);
    var r := ComputeScores(q, ix, m);
    assert r == SortByScore(scored);
    assert r[i] in multiset(scored) by {
      assert r[i] in multiset(r);
    }
    var j :| 0 <= j < |scored| && scored[j] == r[i];
    assert Keys(scored)[j] == gs[j].key;
  }

  // ---------------------------------------------------------------------------
  // The similarity formula

  /** With an exact square root the similarity is `sqrt(c) / sqrt(n)`: it is
      positive, grows with the number of matching terms, and is 1 for a
      document matching every query term. */
  lemma SimilarityIsRatio(c: nat, n: nat, m: Math)
    requires c > 0 && n > 0 && SqrtExact(m)
    ensures SqrtPositiveOnPositive(m)
    ensures Similarity(c, n, m) == m.sqrt(c as real) / m.sqrt(n as real)
    ensures Similarity(c, n, m) > 0.0
  {
    ExactSqrtPositive(m);
    var a, b := m.sqrt(c as real), m.sqrt(n as real);
    assert a * a == c as real;
    assert a > 0.0 && b > 0.0;
    CancelCommon(a, b, a);
  }

  lemma SimilarityGrows(c1: nat, c2: nat, n: nat, m: Math)
    requires 0 < c1 <= c2 && n > 0 && SqrtExact(m)
    ensures SqrtPositiveOnPositive(m)
    ensures Similarity(c1, n, m) <= Similarity(c2, n, m)
  {
    SimilarityIsRatio(c1, n, m);
    SimilarityIsRatio(c2, n, m);
    SqrtMonotone(m, c1 as real, c2 as real);
    DivideMonotone(m.sqrt(c1 as real), m.sqrt(c2 as real), m.sqrt(n as real));
  }

  lemma DivideMonotone(x: real, y: real, z: real)
    requires x <= y && z > 0.0
    ensures x / z <= y / z
  {
  }

  /** More matching terms score strictly higher. */
  lemma SimilarityGrowsStrictly(c1: nat, c2: nat, n: nat, m: Math)
    requires 0 < c1 < c2 && n > 0 && SqrtExact(m)
    ensures SqrtPositiveOnPositive(m)
    ensures Similarity(c1, n, m) < Similarity(c2, n, m)
  {
    SimilarityIsRatio(c1, n, m);
    SimilarityIsRatio(c2, n, m);
    var a, b := m.sqrt(c1 as real), m.sqrt(c2 as real);
    assert a * a == c1 as real && b * b == c2 as real;
    SquaresGrow(a, b);
    SqrtPositive(m, n as real);
    DivideStrictlyMonotone(a, b, m.sqrt(n as real));
  }

  lemma DivideStrictlyMonotone(x: real, y: real, z: real)
    requires x < y && z > 0.0
    ensures x / z < y / z
  {
    assert (x / z) * z == x && (y / z) * z == y;
  }

  lemma SimilarityAtMostOne(c: nat, n: nat, m: Math)
    requires 0 < c <= n && SqrtExact(m)
    ensures SqrtPositiveOnPositive(m)
    ensures Similarity(c, n, m) <= 1.0
    ensures c == n ==> Similarity(c, n, m) == 1.0
  {
    SimilarityGrows(c, n, n, m);
    SimilarityIsRatio(n, n, m);
    SqrtPositive(m, n as real);
    var s := m.sqrt(n as real);
    assert s / s == 1.0;
    assert Similarity(n, n, m) == 1.0;
  }

  // ---------------------------------------------------------------------------
  // The query (BinaryCosine.java:11-22)

  /** `runQuery` on the processed query terms. */
  function RunQuery(terms: seq<string>, ix: Index, m: Math): (r: seq<Entry<nat>>)
    requires AllKnown(terms, ix.vocabulary) && TermIdsInRange(ix) && SqrtPositiveOnPositive(m)
    ensures SortedByScore(r)
    ensures Distinct(Keys(r))
    ensures terms == [] ==> r == []
  {
    BinaryVectorInRange(terms, ix);
    ComputeScores(BinaryVector(terms, ix.vocabulary), ix, m)
  }

  /** A document is ranked exactly when the posting list of some query term
      names it. */
  lemma RunQueryRanksMatchingDocuments(terms: seq<string>, ix: Index, m: Math, d: nat)
    requires AllKnown(terms, ix.vocabulary) && TermIdsInRange(ix) && SqrtPositiveOnPositive(m)
    ensures d in Keys(RunQuery(terms, ix, m)) <==>
      exists i | 0 <= i < |terms| :: d in PostingIds(ix.invertedIndex[ix.vocabulary[terms[i]].id])
  {
    var v := BinaryVector(terms, ix.vocabulary);
    var ids := TermIds(terms, ix.vocabulary);
    BinaryVectorInRange(terms, ix);
    VisitedDocuments(v, ix.invertedIndex, TermOf, d);
    if exists i | 0 <= i < |terms| :: d in PostingIds(ix.invertedIndex[ix.vocabulary[terms[i]].id]) {
      var i :| 0 <= i < |terms| && d in PostingIds(ix.invertedIndex[ix.vocabulary[terms[i]].id]);
      assert ids[i] in v;
      var k :| 0 <= k < |v| && v[k] == ids[i];
    }
    if exists k | 0 <= k < |v| :: d in PostingIds(ix.invertedIndex[v[k]]) {
      var k :| 0 <= k < |v| && d in PostingIds(ix.invertedIndex[v[k]]);
      assert v[k] in ids;
      var i :| 0 <= i < |ids| && ids[i] == v[k];
    }
  }

  /** A document matching more query terms is ranked strictly before one
      matching fewer, whatever the order among equal scores. */
  lemma MoreMatchesRankFirst(terms: seq<string>, ix: Index, m: Math, i: nat, j: nat)
    requires AllKnown(terms, ix.vocabulary) && TermIdsInRange(ix) && SqrtExact(m)
    ensures SqrtPositiveOnPositive(m)
    ensures VectorInRange(BinaryVector(terms, ix.vocabulary), ix.invertedIndex)
    ensures var r := RunQuery(terms, ix, m);
      var v := BinaryVector(terms, ix.vocabulary);
      i < |r| && j < |r|
      && |Matches(v, ix.invertedIndex, r[i].key)| > |Matches(v, ix.invertedIndex, r[j].key)|
      ==> i < j
  {
    ExactSqrtPositive(m);
    BinaryVectorInRange(terms, ix);
    var v := BinaryVector(terms, ix.vocabulary);
    assert RunQuery(terms, ix, m) == ComputeScores(v, ix, m);
    ScoresFollowMatches(v, ix, m, i, j);
  }

  /** The same for the ranking of any query vector. */
  lemma ScoresFollowMatches(q: seq<nat>, ix: Index, m: Math, i: nat, j: nat)
    requires VectorInRange(q, ix.invertedIndex) && SqrtExact(m) && SqrtPositiveOnPositive(m)
    ensures var r := ComputeScores(q, ix, m);
      i < |r| && j < |r|
      && |Matches(q, ix.invertedIndex, r[i].key)| > |Matches(q, ix.invertedIndex, r[j].key)|
      ==> i < j
  {
    var r := ComputeScores(q, ix, m);
    if i < |r| && j < |r| {
      ScoreOfDocument(q, ix, m, i);
      ScoreOfDocument(q, ix, m, j);
      var ci, cj := |Matches(q, ix.invertedIndex, r[i].key)|, |Matches(q, ix.invertedIndex, r[j].key)|;
      if ci > cj {
        SimilarityGrowsStrictly(cj, ci, |q|, m);
        assert r[j].amount < r[i].amount;
      }
    }
  }
}

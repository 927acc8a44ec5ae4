/**
 Pseudo-relevance feedback on top of the cosine model (`CosineWithFeedback`):
 the top-k cut of the initial ranking and the Rocchio merge of the query
 vector with the feedback results.

 The merge is modelled as written: the feedback results are (document id,
 score) pairs, and they are merged into the term-id-keyed query vector as if
 their document ids were term ids. The gamma (negative feedback) path is
 commented out in the source, so nothing is ever subtracted.
 */
module Feedback {
  import opened Seqs
  import opened Numerics
  import opened Tally
  import opened Sorting
  import opened IndexStore
  import opened Cosine

  // ---------------------------------------------------------------------------
  // Top-k cut (CosineWithFeedback.java:50-58)

  /** All results when there are at most `depth`, otherwise the first `depth`
      (none for a negative depth, as the copying loop never runs). */
  function TopK(scores: seq<Entry<nat>>, depth: int): (k: seq<Entry<nat>>)
    ensures k <= scores
    ensures |scores| <= depth ==> k == scores
    ensures |scores| > depth ==> |k| == (if depth < 0 then 0 else depth)
  {
    if |scores| <= depth then scores
    else scores[..if depth < 0 then 0 else depth]
  }

  /** On a ranking, the cut keeps the best results: nothing dropped scores
      above anything kept, and the kept part is still ranked. */
  lemma TopKKeepsBest(scores: seq<Entry<nat>>, depth: int)
    requires SortedByScore(scores)
    ensures SortedByScore(TopK(scores, depth))
    ensures forall i, j | 0 <= i < |TopK(scores, depth)| <= j < |scores| ::
      TopK(scores, depth)[i].amount >= scores[j].amount
  {
  }

  // ---------------------------------------------------------------------------
  // Rocchio merge (CosineWithFeedback.java:78-142)

  /** The alpha part: the query vector with every weight scaled by alpha. */
  function AlphaPart(q: seq<Entry<nat>>, alpha: real): seq<Entry<nat>>
  {
    Scale(q, alpha)
  }

  /** The beta part: one entry per distinct result id, summing its scores,
      then scaled by beta. */
  function BetaPart(results: seq<Entry<nat>>, beta: real): seq<Entry<nat>>
  {
    Scale(AddAll([], results), beta)
  }

  /** `computeFeedbackVector`: the beta part merged into the alpha part. */
  function FeedbackVector(q: seq<Entry<nat>>, results: seq<Entry<nat>>, alpha: real, beta: real): seq<Entry<nat>>
  {
    AddAll(AlphaPart(q, alpha), BetaPart(results, beta))
  }

  /** The beta part has one entry per distinct result id, in order of first
      occurrence (`BetaPartKeys`), holding beta times the sum of that id's
      scores (`BetaPartWeight`). */
  lemma BetaPartKeys(results: seq<Entry<nat>>, beta: real)
    ensures Keys(BetaPart(results, beta)) == Dedup(Keys(results))
    ensures Distinct(Keys(BetaPart(results, beta)))
    ensures Elems(Keys(BetaPart(results, beta))) == Elems(Keys(results))
  {
    AddAllSpec([], results);
    AppendNewSpec([], Keys(results));
  }

  lemma BetaPartWeight(results: seq<Entry<nat>>, beta: real, k: nat)
    ensures AmountOf(BetaPart(results, beta), k) == ScaledTotal(results, k, beta)
  {
    var sums := AddAll([], results);
    assert AmountOf(sums, k) == Total(results, k) by {
      AddAllSpec([], results);
    }
    AmountOfScale(sums, beta, k);
  }

  /** The original entries keep their positions and ids, and the result has
      one more entry per distinct result id not already in the query. */
  lemma FeedbackVectorShape(q: seq<Entry<nat>>, results: seq<Entry<nat>>, alpha: real, beta: real)
    requires Distinct(Keys(q))
    ensures var r := FeedbackVector(q, results, alpha, beta);
      && Distinct(Keys(r))
      && |r| == |q| + |Elems(Keys(results)) - Elems(Keys(q))|
      && forall i | 0 <= i < |q| :: r[i].key == q[i].key
  {
    var b := BetaPart(results, beta);
    BetaPartKeys(results, beta);
    AddAllShape(AlphaPart(q, alpha), b);
  }

  /** Every id's weight is alpha times its query weight plus beta times the
      sum of its scores among the results. */
  lemma FeedbackVectorWeight(q: seq<Entry<nat>>, results: seq<Entry<nat>>, alpha: real, beta: real, k: nat)
    requires Distinct(Keys(q))
    ensures AmountOf(FeedbackVector(q, results, alpha, beta), k)
         == AmountOf(q, k) * alpha + ScaledTotal(results, k, beta)
  {
    var u := AlphaPart(q, alpha);
    var w := BetaPart(results, beta);
    assert AmountOf(FeedbackVector(q, results, alpha, beta), k) == AmountOf(u, k) + AmountOf(w, k) by {
      BetaPartKeys(results, beta);
      AddAllMerge(u, w, k);
    }
    assert AmountOf(u, k) == AmountOf(q, k) * alpha by {
      AmountOfScale(q, alpha, k);
    }
    assert AmountOf(w, k) == ScaledTotal(results, k, beta) by {
      BetaPartWeight(results, beta, k);
    }
  }

  /** Nothing is subtracted: with non-negative beta and scores, no id ends
      below alpha times its query weight. */
  lemma FeedbackNeverSubtracts(q: seq<Entry<nat>>, results: seq<Entry<nat>>, alpha: real, beta: real, k: nat)
    requires Distinct(Keys(q)) && beta >= 0.0
    requires forall i | 0 <= i < |results| :: results[i].amount >= 0.0
    ensures AmountOf(FeedbackVector(q, results, alpha, beta), k) >= AmountOf(q, k) * alpha
  {
    FeedbackVectorWeight(q, results, alpha, beta, k);
    TotalNonNegative(results, k);
    MulNonNegative(Total(results, k), beta);
  }

  lemma MulNonNegative(u: real, v: real)
    requires u >= 0.0 && v >= 0.0
    ensures u * v >= 0.0
  {
  }

  /** With alpha 1 and beta 0 the query vector comes back unchanged, followed
      by a zero-weight entry for every result id not already in it. */
  lemma FeedbackNeutral(q: seq<Entry<nat>>, results: seq<Entry<nat>>)
    ensures var r := FeedbackVector(q, results, 1.0, 0.0);
      && |r| >= |q|
      && r[..|q|] == q
      && forall i | |q| <= i < |r| :: r[i].amount == 0.0
  {
    assert AlphaPart(q, 1.0) == q;
    var b := BetaPart(results, 0.0);
    AddAllZero(q, b, |q|);
    assert q[..|q|] == q;
  }

  // ---------------------------------------------------------------------------
  // The feedback query (CosineWithFeedback.java:38-68)

  /** The rescored query: the initial ranking, its top `depth` results merged
      into the query vector, and the merged vector scored again. */
  function FeedbackQuery(terms: seq<string>, ix: Index, m: Math, depth: int, alpha: real, beta: real): (r: seq<Entry<nat>>)
    requires Scorable(QueryVector(terms, ix.vocabulary, m), ix, m)
    requires Scorable(FeedbackVector(QueryVector(terms, ix.vocabulary, m),
                                     TopK(ComputeScores(QueryVector(terms, ix.vocabulary, m), ix, m), depth),
                                     alpha, beta), ix, m)
    ensures SortedByScore(r)
    ensures forall i | 0 <= i < |r| ::
      r[i].key in Candidates(FeedbackVector(QueryVector(terms, ix.vocabulary, m),
                                            TopK(ComputeScores(QueryVector(terms, ix.vocabulary, m), ix, m), depth),
                                            alpha, beta), ix.invertedIndex)
  {
    var q := QueryVector(terms, ix.vocabulary, m);
    var feedback := TopK(ComputeScores(q, ix, m), depth);
    ComputeScores(FeedbackVector(q, feedback, alpha, beta), ix, m)
  }

  /** With alpha 1 and beta 0 feedback changes nothing: the rescored ranking
      is the cosine ranking. The merge appends a zero-weight entry for every
      top result id not already in the query; read as a term id, each such
      id finds the result it came from in the accumulation and adds zero to
      it, and the zeros leave `qNorm` as it was. The lookup relies on the
      value equality of `Integer` ids the model admits for `==`. */
  lemma NeutralFeedbackIsCosine(terms: seq<string>, ix: Index, m: Math, depth: int)
    requires Scorable(QueryVector(terms, ix.vocabulary, m), ix, m)
    requires Scorable(FeedbackVector(QueryVector(terms, ix.vocabulary, m),
                                     TopK(ComputeScores(QueryVector(terms, ix.vocabulary, m), ix, m), depth),
                                     1.0, 0.0), ix, m)
    ensures FeedbackQuery(terms, ix, m, depth, 1.0, 0.0) == RunQuery(terms, ix, m)
  {
    var q := QueryVector(terms, ix.vocabulary, m);
    var top := TopK(ComputeScores(q, ix, m), depth);
    var v := FeedbackVector(q, top, 1.0, 0.0);
    var acc := AccumulateAll([], q, ix.invertedIndex);
    QueryVectorKeys(terms, ix.vocabulary, m);
    NeutralMergeAppendsZeros(q, top);
    TopIdsAreAccumulated(q, ix, m, depth);
    var z := v[|q|..];
    forall i | 0 <= i < |z|
      ensures z[i].amount == 0.0 && z[i].key in Keys(acc)
    {
      assert z[i] == v[|q| + i];
    }
    ZeroEntriesKeepScores(q, z, ix, m);
    assert FeedbackQuery(terms, ix, m, depth, 1.0, 0.0) == ComputeScores(v, ix, m);
    assert RunQuery(terms, ix, m) == ComputeScores(q, ix, m);
  }

  /** With alpha 1 and beta 0 the merge is the query vector followed by
      zero-weight entries carrying ids of the feedback results. */
  lemma NeutralMergeAppendsZeros(q: seq<Entry<nat>>, top: seq<Entry<nat>>)
    requires Distinct(Keys(q))
    ensures var v := FeedbackVector(q, top, 1.0, 0.0);
      && |q| <= |v| && v == q + v[|q|..]
      && forall i | |q| <= i < |v| :: v[i].amount == 0.0 && v[i].key in Keys(top)
  {
    var v := FeedbackVector(q, top, 1.0, 0.0);
    FeedbackNeutral(q, top);
    assert v == v[..|q|] + v[|q|..];
    var b := BetaPart(top, 0.0);
    assert AlphaPart(q, 1.0) == q;
    AddAllSpec(q, b);
    AppendNewSpec(Keys(q), Keys(b));
    BetaPartKeys(top, 0.0);
    forall i | |q| <= i < |v|
      ensures v[i].key in Keys(top)
    {
      assert v[i].key == Keys(v)[i];
      assert v[i].key in Elems(Keys(top));
    }
  }

  /** Every top result's id keys a result of the accumulation it was ranked
      from. */
  lemma TopIdsAreAccumulated(q: seq<Entry<nat>>, ix: Index, m: Math, depth: int)
    requires Scorable(q, ix, m)
    ensures forall id | id in Keys(TopK(ComputeScores(q, ix, m), depth)) ::
      id in Keys(AccumulateAll([], q, ix.invertedIndex))
  {
    var scores := ComputeScores(q, ix, m);
    var top := TopK(scores, depth);
    var acc := AccumulateAll([], q, ix.invertedIndex);
    ComputeScoresPermutes(q, ix, m);
    var n := Normalise(acc, QueryNorm(q, m), ix.documents);
    forall id | id in Keys(top)
      ensures id in Keys(acc)
    {
      var j :| 0 <= j < |top| && Keys(top)[j] == id;
      assert top[j] == scores[j];
      assert scores[j] in multiset(n);
      var k :| 0 <= k < |n| && n[k] == scores[j];
      assert Keys(n)[k] == Keys(acc)[k];
    }
  }

  /** Zero-weight entries whose ids key accumulated results leave the
      ranking as it was. */
  lemma ZeroEntriesKeepScores(q: seq<Entry<nat>>, z: seq<Entry<nat>>, ix: Index, m: Math)
    requires Scorable(q, ix, m) && Scorable(q + z, ix, m)
    requires forall i | 0 <= i < |z| ::
      z[i].amount == 0.0 && z[i].key in Keys(AccumulateAll([], q, ix.invertedIndex))
    ensures ComputeScores(q + z, ix, m) == ComputeScores(q, ix, m)
  {
    var inv := ix.invertedIndex;
    var acc := AccumulateAll([], q, inv);
    AccumulateAllAppend([], q, z, inv);
    AccumulateAllZero(acc, z, inv);
    assert Amounts(q + z) == Amounts(q) + Amounts(z);
    SumAppend(Amounts(q), Amounts(z));
    ZeroAmountsSum(z);
    assert QueryNorm(q + z, m) == QueryNorm(q, m);
  }

  lemma {:induction false} ZeroAmountsSum(z: seq<Entry<nat>>)
    requires forall i | 0 <= i < |z| :: z[i].amount == 0.0
    ensures Sum(Amounts(z)) == 0.0
    decreases |z|
  {
    if |z| > 0 {
      assert Amounts(z)[1..] == Amounts(z[1..]);
      ZeroAmountsSum(z[1..]);
    }
  }
}

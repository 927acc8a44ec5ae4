/**
 The second pass of the indexer (`Indexer.secondPass`): store each term's
 idf, multiply its postings by it, add the squares of the new weights to the
 documents' norm accumulators, build the direct index as the transpose of the
 inverted index, and take square roots of the accumulators.

 The source visits terms in the vocabulary's hash order for the first loop;
 the model visits posting lists by term id. The model is stated for an
 index with dense ids (one term per id, one id per list), which every first
 pass produces (`WellFormedIsReady`): then every posting list is visited
 exactly once either way, and the only order-dependent result, each
 document's sum of squares, is a sum of the same terms.
 */
module SecondPass {
  import opened Seqs
  import opened Numerics
  import opened IndexStore

  /** The idf of a term listed by `df` of `n` documents: ln(1 + n/df). */
  function Idf(n: nat, df: nat, m: Math): real
    requires df > 0
  {
    m.ln(1.0 + n as real / df as real)
  }

  /** What the second pass needs of its index: one term per id and one id
      per posting list (the source reweighs a list once per vocabulary term
      that carries its id, so only then is every list reweighed exactly
      once), ids that address documents and direct slots, and no empty
      posting list (an empty one would divide by a zero document frequency). */
  ghost predicate Ready(ix: Index)
  {
    && DenseVocabulary(ix)
    && Addressable(ix)
    && |ix.directIndex| == |ix.documents|
    && forall i | 0 <= i < |ix.invertedIndex| :: |ix.invertedIndex[i]| > 0
  }

  lemma WellFormedIsReady(ix: Index)
    requires WellFormed(ix)
    ensures Ready(ix)
  {
  }

  /** Every weight of `ps` multiplied by `factor`, ids kept. */
  function Reweigh(ps: seq<Posting>, factor: real): (r: seq<Posting>)
    ensures |r| == |ps| && PostingIds(r) == PostingIds(ps)
  {
    seq(|ps|, j requires 0 <= j < |ps| => Posting(ps[j].id, ps[j].weight * factor))
  }

  function ListIdf(ix: Index, i: nat, m: Math): real
    requires i < |ix.invertedIndex| && |ix.invertedIndex[i]| > 0
  {
    Idf(|ix.documents|, |ix.invertedIndex[i]|, m)
  }

  /** The inverted index with every list multiplied by its term's idf. */
  function Reweighted(ix: Index, m: Math): (lists: seq<seq<Posting>>)
    requires Ready(ix)
    ensures |lists| == |ix.invertedIndex|
  {
    seq(|ix.invertedIndex|, i requires 0 <= i < |ix.invertedIndex| =>
      Reweigh(ix.invertedIndex[i], ListIdf(ix, i, m)))
  }

  // ---------------------------------------------------------------------------
  // The transpose (Indexer.java:146-150)

  function Tag(t: nat, ws: seq<real>): (r: seq<Posting>)
    ensures |r| == |ws|
  {
    seq(|ws|, k requires 0 <= k < |ws| => Posting(t, ws[k]))
  }

  /** Row `d` of the transpose of `lists`: (t, w) for every posting (d, w) of
      list t, by increasing t. The reference for the direct index. */
  function Transposed(lists: seq<seq<Posting>>, d: nat): seq<Posting>
    decreases |lists|
  {
    if |lists| == 0 then []
    else Transposed(lists[..|lists| - 1], d) + Tag(|lists| - 1, Hits(lists[|lists| - 1], d))
  }

  /** The inner loop for list `t`: each posting (d, w) appends (t, w) to row d. */
  function Scatter(rows: seq<seq<Posting>>, t: nat, ps: seq<Posting>): (r: seq<seq<Posting>>)
    requires forall j | 0 <= j < |ps| :: ps[j].id < |rows|
    ensures |r| == |rows|
    decreases |ps|
  {
    if |ps| == 0 then rows
    else Scatter(rows[ps[0].id := rows[ps[0].id] + [Posting(t, ps[0].weight)]], t, ps[1..])
  }

  /** The outer loop over list ids 0, 1, ... */
  function BuildDirect(rows: seq<seq<Posting>>, lists: seq<seq<Posting>>): (r: seq<seq<Posting>>)
    requires forall t, j | 0 <= t < |lists| && 0 <= j < |lists[t]| :: lists[t][j].id < |rows|
    ensures |r| == |rows|
    decreases |lists|
  {
    if |lists| == 0 then rows
    else Scatter(BuildDirect(rows, lists[..|lists| - 1]), |lists| - 1, lists[|lists| - 1])
  }

  // ---------------------------------------------------------------------------
  // Norm accumulation (Indexer.java:136-139)

  function SquareSum(ws: seq<real>): (r: real)
    ensures r >= 0.0
  {
    if |ws| == 0 then 0.0 else ws[0] * ws[0] + SquareSum(ws[1..])
  }

  function Weights(ps: seq<Posting>): (ws: seq<real>)
    ensures |ws| == |ps|
    ensures forall k | 0 <= k < |ps| :: ws[k] == ps[k].weight
  {
    seq(|ps|, k requires 0 <= k < |ps| => ps[k].weight)
  }

  /** Each posting (d, w) adds w^2 to accumulator d. */
  function AddSquares(acc: seq<real>, ps: seq<Posting>): (r: seq<real>)
    requires forall j | 0 <= j < |ps| :: ps[j].id < |acc|
    ensures |r| == |acc|
    decreases |ps|
  {
    if |ps| == 0 then acc
    else AddSquares(acc[ps[0].id := acc[ps[0].id] + ps[0].weight * ps[0].weight], ps[1..])
  }

  function AccumulateNorms(acc: seq<real>, lists: seq<seq<Posting>>): (r: seq<real>)
    requires forall t, j | 0 <= t < |lists| && 0 <= j < |lists[t]| :: lists[t][j].id < |acc|
    ensures |r| == |acc|
    decreases |lists|
  {
    if |lists| == 0 then acc
    else AddSquares(AccumulateNorms(acc, lists[..|lists| - 1]), lists[|lists| - 1])
  }

  function Norms(docs: seq<Document>): (ns: seq<real>)
    ensures |ns| == |docs|
    ensures forall d | 0 <= d < |docs| :: ns[d] == docs[d].norm
  {
    seq(|docs|, d requires 0 <= d < |docs| => docs[d].norm)
  }

  // ---------------------------------------------------------------------------
  // The pass

  function SecondPass(ix: Index, m: Math): (r: Index)
    requires Ready(ix)
  {
    var n := |ix.documents|;
    var lists := Reweighted(ix, m);
    var acc := AccumulateNorms(Norms(ix.documents), lists);
    Index(
      map t | t in ix.vocabulary :: TermInfo(ix.vocabulary[t].id, ListIdf(ix, ix.vocabulary[t].id, m)),
      lists,
      BuildDirect(ix.directIndex, lists),
      seq(n, d requires 0 <= d < n => Document(ix.documents[d].name, m.sqrt(acc[d]))),
      ix.cache)
  }

  // ---------------------------------------------------------------------------
  // Properties

  /** Every stored idf is ln(1 + N/df) of the term's own list, term ids are
      kept, and under ln(x) > 0 for x > 1 every idf is positive. */
  lemma SecondPassIdf(ix: Index, m: Math, t: string)
    requires Ready(ix) && t in ix.vocabulary
    ensures t in SecondPass(ix, m).vocabulary
    ensures SecondPass(ix, m).vocabulary[t].id == ix.vocabulary[t].id
    ensures SecondPass(ix, m).vocabulary[t].idf
      == Idf(|ix.documents|, |ix.invertedIndex[ix.vocabulary[t].id]|, m)
    ensures LnPositiveAbove1(m) ==> SecondPass(ix, m).vocabulary[t].idf > 0.0
  {
    var i := ix.vocabulary[t].id;
    var ps := ix.invertedIndex[i];
    assert ps[0].id < |ix.documents|;
    var x := |ix.documents| as real / |ps| as real;
    assert x > 0.0;
  }

  /** Every posting keeps its document and has its weight multiplied by the
      idf stored for its term. */
  lemma SecondPassReweighs(ix: Index, m: Math, t: string, j: nat)
    requires Ready(ix) && t in ix.vocabulary && j < |ix.invertedIndex[ix.vocabulary[t].id]|
    ensures var i := ix.vocabulary[t].id;
      var r := SecondPass(ix, m);
      && |r.invertedIndex| == |ix.invertedIndex| && |r.invertedIndex[i]| == |ix.invertedIndex[i]|
      && r.invertedIndex[i][j] == Posting(ix.invertedIndex[i][j].id, ix.invertedIndex[i][j].weight * r.vocabulary[t].idf)
  {
    var i := ix.vocabulary[t].id;
    SecondPassLists(ix, m);
    ReweighedPosting(ix, m, SecondPass(ix, m).invertedIndex, i, j, SecondPass(ix, m).vocabulary[t].idf);
  }

  /** The lists and idfs the pass stores. */
  lemma SecondPassLists(ix: Index, m: Math)
    requires Ready(ix)
    ensures SecondPass(ix, m).invertedIndex == Reweighted(ix, m)
    ensures forall t | t in ix.vocabulary ::
      t in SecondPass(ix, m).vocabulary && SecondPass(ix, m).vocabulary[t] == TermInfo(ix.vocabulary[t].id, ListIdf(ix, ix.vocabulary[t].id, m))
  {
  }

  lemma ReweighedPosting(ix: Index, m: Math, lists: seq<seq<Posting>>, i: nat, j: nat, idf: real)
    requires Ready(ix) && i < |ix.invertedIndex| && j < |ix.invertedIndex[i]|
    requires lists == Reweighted(ix, m) && idf == ListIdf(ix, i, m)
    ensures |lists[i]| == |ix.invertedIndex[i]|
    ensures lists[i][j] == Posting(ix.invertedIndex[i][j].id, ix.invertedIndex[i][j].weight * idf)
  {
    assert lists[i] == Reweigh(ix.invertedIndex[i], idf);
  }

  lemma TagAppend(t: nat, a: seq<real>, b: seq<real>)
    ensures Tag(t, a + b) == Tag(t, a) + Tag(t, b)
  {
  }

  lemma {:induction false} ScatterRow(rows: seq<seq<Posting>>, t: nat, ps: seq<Posting>, d: nat)
    requires forall j | 0 <= j < |ps| :: ps[j].id < |rows|
    requires d < |rows|
    ensures Scatter(rows, t, ps)[d] == rows[d] + Tag(t, Hits(ps, d))
    decreases |ps|
  {
    if |ps| == 0 {
      assert Tag(t, []) == [];
    } else {
      var rows1 := rows[ps[0].id := rows[ps[0].id] + [Posting(t, ps[0].weight)]];
      ScatterRow(rows1, t, ps[1..], d);
      var head: seq<real> := if ps[0].id == d then [ps[0].weight] else [];
      assert Hits(ps, d) == head + Hits(ps[1..], d);
      TagAppend(t, head, Hits(ps[1..], d));
      assert rows1[d] == rows[d] + Tag(t, head);
    }
  }

  /** Row by row, the built direct index is the prior row followed by the
      transpose of the lists. */
  lemma {:induction false} BuildDirectRow(rows: seq<seq<Posting>>, lists: seq<seq<Posting>>, d: nat)
    requires forall t, j | 0 <= t < |lists| && 0 <= j < |lists[t]| :: lists[t][j].id < |rows|
    requires d < |rows|
    ensures BuildDirect(rows, lists)[d] == rows[d] + Transposed(lists, d)
    decreases |lists|
  {
    if |lists| > 0 {
      var init := lists[..|lists| - 1];
      BuildDirectRow(rows, init, d);
      ScatterRow(BuildDirect(rows, init), |lists| - 1, lists[|lists| - 1], d);
    }
  }

  /** (t, w) is in row d of the transpose exactly when (d, w) is in list t. */
  lemma {:induction false} TransposedMember(lists: seq<seq<Posting>>, d: nat, t: nat, w: real)
    ensures Posting(t, w) in Transposed(lists, d) <==> t < |lists| && Posting(d, w) in lists[t]
    decreases |lists|
  {
    if |lists| > 0 {
      var n := |lists| - 1;
      var init := lists[..n];
      TransposedMember(init, d, t, w);
      HitsMember(lists[n], d, w);
      var tail := Tag(n, Hits(lists[n], d));
      assert Posting(t, w) in tail <==> t == n && w in Hits(lists[n], d) by {
        if Posting(t, w) in tail {
          var k :| 0 <= k < |tail| && tail[k] == Posting(t, w);
          assert Hits(lists[n], d)[k] == w;
        }
        if t == n && w in Hits(lists[n], d) {
          var k :| 0 <= k < |Hits(lists[n], d)| && Hits(lists[n], d)[k] == w;
          assert tail[k] == Posting(t, w);
        }
      }
      if t < n {
        assert init[t] == lists[t];
      }
    }
  }

  lemma {:induction false} TransposedIdsBelow(lists: seq<seq<Posting>>, d: nat)
    ensures forall k | 0 <= k < |Transposed(lists, d)| :: Transposed(lists, d)[k].id < |lists|
    decreases |lists|
  {
    if |lists| > 0 {
      TransposedIdsBelow(lists[..|lists| - 1], d);
    }
  }

  /** When no list names `d` twice, the transposed row lists term ids in
      strictly increasing order. */
  lemma {:induction false} TransposedIncreasing(lists: seq<seq<Posting>>, d: nat)
    requires forall t | 0 <= t < |lists| :: |Hits(lists[t], d)| <= 1
    ensures StrictlyIncreasing(PostingIds(Transposed(lists, d)))
    decreases |lists|
  {
    if |lists| > 0 {
      var n := |lists| - 1;
      var init := lists[..n];
      var a := Transposed(init, d);
      var b := Tag(n, Hits(lists[n], d));
      assert forall t | 0 <= t < |init| :: init[t] == lists[t];
      TransposedIncreasing(init, d);
      TransposedIdsBelow(init, d);
      var ids := PostingIds(a + b);
      forall j, k | 0 <= j < k < |ids|
        ensures ids[j] < ids[k]
      {
        if k < |a| {
          assert ids[j] == PostingIds(a)[j] && ids[k] == PostingIds(a)[k];
        } else {
          assert |b| <= 1 && k == |a|;
          assert ids[k] == n;
          assert ids[j] == a[j].id;
        }
      }
    }
  }

  lemma {:induction false} SquareSumAppend(a: seq<real>, b: seq<real>)
    ensures SquareSum(a + b) == SquareSum(a) + SquareSum(b)
  {
    if |a| == 0 {
      assert a + b == b;
    } else {
      assert (a + b)[1..] == a[1..] + b;
      SquareSumAppend(a[1..], b);
    }
  }

  lemma {:induction false} AddSquaresAt(acc: seq<real>, ps: seq<Posting>, d: nat)
    requires forall j | 0 <= j < |ps| :: ps[j].id < |acc|
    requires d < |acc|
    ensures AddSquares(acc, ps)[d] == acc[d] + SquareSum(Hits(ps, d))
    decreases |ps|
  {
    if |ps| > 0 {
      var acc1 := acc[ps[0].id := acc[ps[0].id] + ps[0].weight * ps[0].weight];
      AddSquaresAt(acc1, ps[1..], d);
      var head: seq<real> := if ps[0].id == d then [ps[0].weight] else [];
      assert Hits(ps, d) == head + Hits(ps[1..], d);
      SquareSumAppend(head, Hits(ps[1..], d));
    }
  }

  /** Each accumulator ends as its prior value plus the sum of the squares of
      the weights in the document's transposed row. */
  lemma {:induction false} AccumulateNormsAt(acc: seq<real>, lists: seq<seq<Posting>>, d: nat)
    requires forall t, j | 0 <= t < |lists| && 0 <= j < |lists[t]| :: lists[t][j].id < |acc|
    requires d < |acc|
    ensures AccumulateNorms(acc, lists)[d] == acc[d] + SquareSum(Weights(Transposed(lists, d)))
    decreases |lists|
  {
    if |lists| > 0 {
      var n := |lists| - 1;
      var init := lists[..n];
      var prev := AccumulateNorms(acc, init);
      var hs := Hits(lists[n], d);
      assert AccumulateNorms(acc, lists) == AddSquares(prev, lists[n]);
      assert prev[d] == acc[d] + SquareSum(Weights(Transposed(init, d))) by {
        AccumulateNormsAt(acc, init, d);
      }
      assert AddSquares(prev, lists[n])[d] == prev[d] + SquareSum(hs) by {
        AddSquaresAt(prev, lists[n], d);
      }
      assert SquareSum(Weights(Transposed(lists, d))) == SquareSum(Weights(Transposed(init, d))) + SquareSum(hs) by {
        assert Weights(Transposed(lists, d)) == Weights(Transposed(init, d)) + hs;
        SquareSumAppend(Weights(Transposed(init, d)), hs);
      }
    }
  }

  /** The direct index is the transpose of the reweighed inverted index:
      (t, w) is in a document's new direct postings exactly when (d, w) is in
      the new posting list of t, and they come by increasing term id. */
  lemma SecondPassTranspose(ix: Index, m: Math, d: nat, t: nat, w: real)
    requires Ready(ix) && OrderedPostings(ix) && d < |ix.directIndex|
    ensures var r := SecondPass(ix, m);
      && |r.directIndex| == |ix.directIndex|
      && r.directIndex[d] == ix.directIndex[d] + Transposed(r.invertedIndex, d)
      && (Posting(t, w) in Transposed(r.invertedIndex, d)
          <==> t < |r.invertedIndex| && Posting(d, w) in r.invertedIndex[t])
      && StrictlyIncreasing(PostingIds(Transposed(r.invertedIndex, d)))
  {
    var r := SecondPass(ix, m);
    var lists := r.invertedIndex;
    BuildDirectRow(ix.directIndex, lists, d);
    TransposedMember(lists, d, t, w);
    forall i | 0 <= i < |lists|
      ensures |Hits(lists[i], d)| <= 1
    {
      assert PostingIds(lists[i]) == PostingIds(ix.invertedIndex[i]);
      HitsAtMostOne(lists[i], d);
    }
    TransposedIncreasing(lists, d);
  }

  /** A document's norm is the square root of its prior accumulator plus the
      sum of squares of its new direct-index weights; under a non-negative
      square root and a non-negative prior it is non-negative. */
  lemma SecondPassNorm(ix: Index, m: Math, d: nat)
    requires Ready(ix) && d < |ix.documents|
    ensures var r := SecondPass(ix, m);
      && |r.documents| == |ix.documents|
      && r.documents[d].name == ix.documents[d].name
      && r.documents[d].norm == m.sqrt(ix.documents[d].norm + SquareSum(Weights(Transposed(r.invertedIndex, d))))
      && (SqrtNonNegative(m) && ix.documents[d].norm >= 0.0 ==> r.documents[d].norm >= 0.0)
  {
    var r := SecondPass(ix, m);
    AccumulateNormsAt(Norms(ix.documents), r.invertedIndex, d);
  }

  /** Starting from the first pass's empty direct index and zero
      accumulators, every direct row is exactly the transposed row and every
      norm is the square root of the sum of the squares of that row's
      weights. */
  lemma SecondPassFromFirstPass(ix: Index, m: Math, d: nat)
    requires WellFormed(ix) && FirstPassShape(ix) && d < |ix.documents|
    ensures var r := SecondPass(ix, m);
      && r.directIndex[d] == Transposed(r.invertedIndex, d)
      && r.documents[d].norm == m.sqrt(SquareSum(Weights(r.directIndex[d])))
  {
    var r := SecondPass(ix, m);
    SecondPassTranspose(ix, m, d, 0, 0.0);
    SecondPassNorm(ix, m, d);
    assert ix.directIndex[d] == [];
    assert ix.directIndex[d] + Transposed(r.invertedIndex, d) == Transposed(r.invertedIndex, d);
  }
}

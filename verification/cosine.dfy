/**
 The TF-IDF cosine model (`Cosine`): the query vector, the accumulation of
 candidate scores over the posting lists of the query terms, normalisation
 and the descending sort.

 The accumulation is modelled as written. Looking for an existing result, it
 compares each result's document id with the current *term* id, so a
 document's contributions from different terms normally land in separate
 entries, and a contribution can be added to an unrelated document that
 happens to carry the term's id.
 */
module Cosine {
  import opened Seqs
  import opened Numerics
  import opened Tally
  import opened Sorting
  import opened IndexStore

  // ---------------------------------------------------------------------------
  // Query vector (Cosine.java:86-119)

  /** The term ids of the query terms found in the vocabulary, in order. */
  function KnownIds(terms: seq<string>, vocabulary: map<string, TermInfo>): seq<nat>
    decreases |terms|
  {
    if |terms| == 0 then []
    else
      var t := terms[|terms| - 1];
      KnownIds(terms[..|terms| - 1], vocabulary) + (if t in vocabulary then [vocabulary[t].id] else [])
  }

  /** The idf of the first known query term with term id `id`. */
  function IdfOf(terms: seq<string>, vocabulary: map<string, TermInfo>, id: nat): real
  {
    if |terms| == 0 then 0.0
    else if terms[0] in vocabulary && vocabulary[terms[0]].id == id then vocabulary[terms[0]].idf
    else IdfOf(terms[1..], vocabulary, id)
  }

  /** The first loop of `computeVector`: raw frequencies by term id, and the
      idf of each id in a parallel list filled when the id first appears. */
  function CountTerms(terms: seq<string>, vocabulary: map<string, TermInfo>): (r: (seq<Entry<nat>>, seq<real>))
    ensures |r.1| == |r.0|
    decreases |terms|
  {
    if |terms| == 0 then ([], [])
    else
      var (vec, idfs) := CountTerms(terms[..|terms| - 1], vocabulary);
      var t := terms[|terms| - 1];
      if t !in vocabulary then (vec, idfs)
      else
        var info := vocabulary[t];
        (Add(vec, Entry(info.id, 1.0)), if info.id in Keys(vec) then idfs else idfs + [info.idf])
  }

  /** `computeVector`: one (term id, (1 + ln(tf)) * idf) entry per distinct
      known term. */
  function QueryVector(terms: seq<string>, vocabulary: map<string, TermInfo>, m: Math): seq<Entry<nat>>
  {
    var (vec, idfs) := CountTerms(terms, vocabulary);
    seq(|vec|, i requires 0 <= i < |vec| => Entry(vec[i].key, TermFrequencyWeight(vec[i].amount, m) * idfs[i]))
  }

  /** The counting loop is the keyed tally of the known ids, one unit per
      occurrence. */
  lemma {:induction false} CountTermsVector(terms: seq<string>, vocabulary: map<string, TermInfo>)
    ensures CountTerms(terms, vocabulary).0 == AddAll([], Contributions(KnownIds(terms, vocabulary), 1.0))
    decreases |terms|
  {
    if |terms| > 0 {
      var init := terms[..|terms| - 1];
      var t := terms[|terms| - 1];
      CountTermsVector(init, vocabulary);
      var ks0 := KnownIds(init, vocabulary);
      if t in vocabulary {
        var e := Entry(vocabulary[t].id, 1.0);
        assert Contributions(ks0 + [e.key], 1.0) == Contributions(ks0, 1.0) + [e];
        AddAllSnoc([], Contributions(ks0, 1.0), e);
      } else {
        assert KnownIds(terms, vocabulary) == ks0;
      }
    }
  }

  lemma CountTermsKeys(terms: seq<string>, vocabulary: map<string, TermInfo>)
    ensures var vec := CountTerms(terms, vocabulary).0;
      && Keys(vec) == Dedup(KnownIds(terms, vocabulary))
      && Distinct(Keys(vec))
      && (forall x :: x in Keys(vec) <==> x in KnownIds(terms, vocabulary))
  {
    var ks := KnownIds(terms, vocabulary);
    CountTermsVector(terms, vocabulary);
    AddAllSpec([], Contributions(ks, 1.0));
    AppendNewSpec([], ks);
  }

  lemma CountTermsAmounts(terms: seq<string>, vocabulary: map<string, TermInfo>, id: nat)
    ensures AmountOf(CountTerms(terms, vocabulary).0, id) == Count(KnownIds(terms, vocabulary), id) as real
  {
    var ks := KnownIds(terms, vocabulary);
    CountTermsVector(terms, vocabulary);
    AddAllSpec([], Contributions(ks, 1.0));
    ContributionsTotal(ks, 1.0, id);
  }

  /** The idf list stays aligned with the vector: entry i holds the idf of
      the first query term carrying the i-th id. */
  lemma {:induction false} CountTermsIdfs(terms: seq<string>, vocabulary: map<string, TermInfo>)
    ensures var (vec, idfs) := CountTerms(terms, vocabulary);
      forall i | 0 <= i < |vec| :: idfs[i] == IdfOf(terms, vocabulary, vec[i].key)
    decreases |terms|
  {
    if |terms| > 0 {
      var init := terms[..|terms| - 1];
      var t := terms[|terms| - 1];
      CountTermsIdfs(init, vocabulary);
      CountTermsKeys(init, vocabulary);
      var (vec0, idfs0) := CountTerms(init, vocabulary);
      var (vec, idfs) := CountTerms(terms, vocabulary);
      assert terms == init + [t];
      if t in vocabulary {
        var e := Entry(vocabulary[t].id, 1.0);
        assert vec == Add(vec0, e);
        AddKeys(vec0, e);
        forall i | 0 <= i < |vec|
          ensures idfs[i] == IdfOf(terms, vocabulary, vec[i].key)
        {
          if i < |vec0| {
            assert Keys(vec)[i] == Keys(vec0)[i];
            IdfOfExtend(init, t, vocabulary, vec0[i].key);
          } else {
            assert vec[i].key == e.key;
            IdfOfFirst(init, t, vocabulary);
          }
        }
      } else {
        forall i | 0 <= i < |vec|
          ensures idfs[i] == IdfOf(terms, vocabulary, vec[i].key)
        {
          IdfOfExtend(init, t, vocabulary, vec[i].key);
        }
      }
    }
  }

  /** A term appended after a known id does not change that id's idf, and an
      unknown term changes none. */
  lemma {:induction false} IdfOfExtend(init: seq<string>, t: string, vocabulary: map<string, TermInfo>, id: nat)
    requires id in KnownIds(init, vocabulary) || t !in vocabulary
    ensures IdfOf(init + [t], vocabulary, id) == IdfOf(init, vocabulary, id)
    decreases |init|
  {
    if |init| == 0 {
      assert KnownIds(init, vocabulary) == [];
    } else {
      assert (init + [t])[1..] == init[1..] + [t];
      if !(init[0] in vocabulary && vocabulary[init[0]].id == id) {
        if t in vocabulary {
          KnownIdsHead(init, vocabulary);
        }
        IdfOfExtend(init[1..], t, vocabulary, id);
      }
    }
  }

  /** A known term whose id has not occurred yet sets that id's idf. */
  lemma {:induction false} IdfOfFirst(init: seq<string>, t: string, vocabulary: map<string, TermInfo>)
    requires t in vocabulary && vocabulary[t].id !in KnownIds(init, vocabulary)
    ensures IdfOf(init + [t], vocabulary, vocabulary[t].id) == vocabulary[t].idf
    decreases |init|
  {
    if |init| > 0 {
      assert (init + [t])[1..] == init[1..] + [t];
      KnownIdsHead(init, vocabulary);
      IdfOfFirst(init[1..], t, vocabulary);
    }
  }

  lemma {:induction false} KnownIdsHead(terms: seq<string>, vocabulary: map<string, TermInfo>)
    requires |terms| > 0
    ensures KnownIds(terms, vocabulary)
      == (if terms[0] in vocabulary then [vocabulary[terms[0]].id] else []) + KnownIds(terms[1..], vocabulary)
    decreases |terms|
  {
    if |terms| > 1 {
      var init := terms[..|terms| - 1];
      KnownIdsHead(init, vocabulary);
      assert init[1..] == terms[1..][..|terms[1..]| - 1];
      assert init[0] == terms[0];
    }
  }

  /** The query vector holds one entry per distinct known term id, in order of
      first occurrence; unknown terms are skipped. */
  lemma QueryVectorKeys(terms: seq<string>, vocabulary: map<string, TermInfo>, m: Math)
    ensures Keys(QueryVector(terms, vocabulary, m)) == Dedup(KnownIds(terms, vocabulary))
    ensures Distinct(Keys(QueryVector(terms, vocabulary, m)))
    ensures forall id :: id in Keys(QueryVector(terms, vocabulary, m)) <==> id in KnownIds(terms, vocabulary)
  {
    CountTermsKeys(terms, vocabulary);
    assert Keys(QueryVector(terms, vocabulary, m)) == Keys(CountTerms(terms, vocabulary).0);
  }

  /** Entry i is weighted (1 + ln(tf)) * idf, with tf the number of
      occurrences of its id and idf that of the first query term carrying
      the id. */
  lemma QueryVectorEntry(terms: seq<string>, vocabulary: map<string, TermInfo>, m: Math, i: nat)
    requires i < |QueryVector(terms, vocabulary, m)|
    ensures var e := QueryVector(terms, vocabulary, m)[i];
      e.amount == TermFrequencyWeight(Count(KnownIds(terms, vocabulary), e.key) as real, m)
                  * IdfOf(terms, vocabulary, e.key)
  {
    var (vec, idfs) := CountTerms(terms, vocabulary);
    var e := QueryVector(terms, vocabulary, m)[i];
    assert e == Entry(vec[i].key, TermFrequencyWeight(vec[i].amount, m) * idfs[i]);
    CountTermsKeys(terms, vocabulary);
    CountTermsIdfs(terms, vocabulary);
    AmountOfAt(vec, i);
    CountTermsAmounts(terms, vocabulary, vec[i].key);
    assert vec[i].amount == Count(KnownIds(terms, vocabulary), e.key) as real;
    assert idfs[i] == IdfOf(terms, vocabulary, e.key);
  }

  /** With one term per id, an id occurs as often as its term, and its idf
      is the one the vocabulary stores for that term. */
  lemma {:induction false} KnownIdsOfTerm(terms: seq<string>, ix: Index, t: string)
    requires DenseVocabulary(ix) && t in ix.vocabulary
    ensures Count(KnownIds(terms, ix.vocabulary), ix.vocabulary[t].id) == Count(terms, t)
    ensures t in terms ==> IdfOf(terms, ix.vocabulary, ix.vocabulary[t].id) == ix.vocabulary[t].idf
    decreases |terms|
  {
    if |terms| > 0 {
      KnownIdsHead(terms, ix.vocabulary);
      KnownIdsOfTerm(terms[1..], ix, t);
      var head := if terms[0] in ix.vocabulary then [ix.vocabulary[terms[0]].id] else [];
      CountAppend(head, KnownIds(terms[1..], ix.vocabulary), ix.vocabulary[t].id);
      assert t in terms <==> terms[0] == t || t in terms[1..];
    }
  }

  /** For an index with dense ids: each known query term gets weight
      (1 + ln(its occurrences)) * its stored idf. */
  lemma QueryVectorWeight(terms: seq<string>, ix: Index, m: Math, t: string)
    requires DenseVocabulary(ix) && t in terms && t in ix.vocabulary
    ensures ix.vocabulary[t].id in Keys(QueryVector(terms, ix.vocabulary, m))
    ensures AmountOf(QueryVector(terms, ix.vocabulary, m), ix.vocabulary[t].id)
         == TermFrequencyWeight(Count(terms, t) as real, m) * ix.vocabulary[t].idf
  {
    var q := QueryVector(terms, ix.vocabulary, m);
    var id := ix.vocabulary[t].id;
    KnownIdsOfTerm(terms, ix, t);
    CountPositive(terms, t);
    CountPositive(KnownIds(terms, ix.vocabulary), id);
    QueryVectorKeys(terms, ix.vocabulary, m);
    var i := IndexOf(Keys(q), id);
    AmountOfAt(q, i);
    QueryVectorEntry(terms, ix.vocabulary, m, i);
  }

  /** Terms outside the vocabulary are skipped: the query vector of the
      known terms alone is the same. */
  lemma {:induction false} QueryVectorSkipsUnknown(terms: seq<string>, vocabulary: map<string, TermInfo>, m: Math)
    ensures QueryVector(terms, vocabulary, m) == QueryVector(Known(terms, vocabulary), vocabulary, m)
  {
    KnownIdsOfKnown(terms, vocabulary);
    CountTermsKnown(terms, vocabulary);
  }

  function Known(terms: seq<string>, vocabulary: map<string, TermInfo>): (r: seq<string>)
    ensures forall t | t in r :: t in vocabulary
    decreases |terms|
  {
    if |terms| == 0 then []
    else
      var t := terms[|terms| - 1];
      Known(terms[..|terms| - 1], vocabulary) + (if t in vocabulary then [t] else [])
  }

  lemma {:induction false} KnownIdsOfKnown(terms: seq<string>, vocabulary: map<string, TermInfo>)
    ensures KnownIds(Known(terms, vocabulary), vocabulary) == KnownIds(terms, vocabulary)
    decreases |terms|
  {
    if |terms| > 0 {
      var init := terms[..|terms| - 1];
      var t := terms[|terms| - 1];
      KnownIdsOfKnown(init, vocabulary);
      var k := Known(terms, vocabulary);
      if t in vocabulary {
        assert k[..|k| - 1] == Known(init, vocabulary);
      } else {
        assert k == Known(init, vocabulary);
      }
    }
  }

  lemma {:induction false} CountTermsKnown(terms: seq<string>, vocabulary: map<string, TermInfo>)
    ensures CountTerms(Known(terms, vocabulary), vocabulary) == CountTerms(terms, vocabulary)
    decreases |terms|
  {
    if |terms| > 0 {
      var init := terms[..|terms| - 1];
      var t := terms[|terms| - 1];
      CountTermsKnown(init, vocabulary);
      var k := Known(terms, vocabulary);
      if t in vocabulary {
        assert k[..|k| - 1] == Known(init, vocabulary);
      } else {
        assert k == Known(init, vocabulary);
      }
    }
  }

  // ---------------------------------------------------------------------------
  // Accumulation (Cosine.java:44-61)

  /** One posting of the current query term. The existing result looked for
      is the one whose document id equals the *term* id; without one, a new
      (posting document id, contribution) result is appended. Either way the
      existing results keep their document ids and positions, at most one
      result is added, keyed by the posting's document, and the total score
      grows by exactly the contribution. When some result is keyed by the
      term id, the first such result takes the contribution, whatever
      document the posting names, and nothing else changes; otherwise a
      result for the posting's document is appended. */
  function Accumulate(results: seq<Entry<nat>>, termId: nat, qw: real, p: Posting): (r: seq<Entry<nat>>)
    ensures |results| <= |r| <= |results| + 1 && |r| > 0
    ensures Keys(r)[..|results|] == Keys(results)
    ensures |r| > |results| ==> r[|results|].key == p.id
    ensures Sum(Amounts(r)) == Sum(Amounts(results)) + p.weight * qw
    ensures termId in Keys(results) ==>
      var i := IndexOf(Keys(results), termId);
      && |r| == |results|
      && r[i] == Entry(termId, results[i].amount + p.weight * qw)
      && forall k | 0 <= k < |results| && k != i :: r[k] == results[k]
    ensures termId !in Keys(results) ==> r == results + [Entry(p.id, p.weight * qw)]
  {
    match Find(Keys(results), termId)
    case Some(i) =>
      var x := results[i].amount + p.weight * qw;
      var r := results[i := Entry(results[i].key, x)];
      assert Amounts(r) == Amounts(results)[i := x];
      SumUpdate(Amounts(results), i, x);
      r
    case None =>
      var r := results + [Entry(p.id, p.weight * qw)];
      assert Amounts(r) == Amounts(results) + [p.weight * qw];
      SumAppend(Amounts(results), [p.weight * qw]);
      r
  }

  /** The inner loop over the posting list of one query term. */
  function AccumulateList(results: seq<Entry<nat>>, termId: nat, qw: real, ps: seq<Posting>): seq<Entry<nat>>
    decreases |ps|
  {
    if |ps| == 0 then results
    else AccumulateList(Accumulate(results, termId, qw, ps[0]), termId, qw, ps[1..])
  }

  /** Once a result is keyed by the term id, every posting of the term's
      list lands on that one result, whatever document it names: the result
      grows by the list's whole contribution and nothing else changes. */
  lemma {:induction false} AccumulateListHitsOneResult(results: seq<Entry<nat>>, termId: nat, qw: real, ps: seq<Posting>)
    requires termId in Keys(results)
    ensures var i := IndexOf(Keys(results), termId);
      AccumulateList(results, termId, qw, ps)
        == results[i := Entry(termId, results[i].amount + ListContribution(ps, qw))]
    decreases |ps|
  {
    var i := IndexOf(Keys(results), termId);
    if |ps| == 0 {
      assert results[i := Entry(termId, results[i].amount + 0.0)] == results;
    } else {
      var s := Accumulate(results, termId, qw, ps[0]);
      var c, rest := ps[0].weight * qw, ListContribution(ps[1..], qw);
      AccumulateHit(results, termId, qw, ps[0]);
      assert s == results[i := Entry(termId, results[i].amount + c)];
      AccumulateListHitsOneResult(s, termId, qw, ps[1..]);
      assert AccumulateList(results, termId, qw, ps) == s[i := Entry(termId, s[i].amount + rest)];
      assert ListContribution(ps, qw) == c + rest;
    }
  }

  /** One posting of a term whose id keys a result: the keys stay, so the
      same result is found next time. */
  lemma AccumulateHit(results: seq<Entry<nat>>, termId: nat, qw: real, p: Posting)
    requires termId in Keys(results)
    ensures var i := IndexOf(Keys(results), termId);
      && Accumulate(results, termId, qw, p) == results[i := Entry(termId, results[i].amount + p.weight * qw)]
      && Keys(Accumulate(results, termId, qw, p)) == Keys(results)
  {
    var i := IndexOf(Keys(results), termId);
    var s := Accumulate(results, termId, qw, p);
    var u := results[i := Entry(termId, results[i].amount + p.weight * qw)];
    assert |s| == |u|;
    forall k | 0 <= k < |s|
      ensures s[k] == u[k] && Keys(s)[k] == Keys(results)[k]
    {
      assert Keys(results)[i] == termId;
    }
  }

  /** Every query term id names a posting list. */
  ghost predicate IdsInRange(q: seq<Entry<nat>>, inv: seq<seq<Posting>>)
  {
    forall i | 0 <= i < |q| :: q[i].key < |inv|
  }

  /** The outer loop over the query vector. */
  function AccumulateAll(results: seq<Entry<nat>>, q: seq<Entry<nat>>, inv: seq<seq<Posting>>): seq<Entry<nat>>
    requires IdsInRange(q, inv)
    decreases |q|
  {
    if |q| == 0 then results
    else AccumulateAll(AccumulateList(results, q[0].key, q[0].amount, inv[q[0].key]), q[1..], inv)
  }

  /** The documents with a posting in the list of some query term, list by
      list. */
  function Candidates(q: seq<Entry<nat>>, inv: seq<seq<Posting>>): seq<nat>
    requires IdsInRange(q, inv)
  {
    if |q| == 0 then [] else PostingIds(inv[q[0].key]) + Candidates(q[1..], inv)
  }

  /** Sum of the weights in a posting list. */
  function PostingMass(ps: seq<Posting>): real
  {
    if |ps| == 0 then 0.0 else ps[0].weight + PostingMass(ps[1..])
  }

  /** What the postings of one term contribute: weight times query weight,
      summed over the list. */
  function ListContribution(ps: seq<Posting>, qw: real): real
  {
    if |ps| == 0 then 0.0 else ps[0].weight * qw + ListContribution(ps[1..], qw)
  }

  lemma {:induction false} ListContributionScales(ps: seq<Posting>, qw: real)
    ensures ListContribution(ps, qw) == qw * PostingMass(ps)
    decreases |ps|
  {
    if |ps| > 0 {
      ListContributionScales(ps[1..], qw);
      var m := PostingMass(ps[1..]);
      assert qw * (ps[0].weight + m) == ps[0].weight * qw + qw * m;
    }
  }

  /** The score mass the query sends through the postings: for each term,
      its weight times the total weight of its posting list
      (`ListContributionScales`). */
  function QueryMass(q: seq<Entry<nat>>, inv: seq<seq<Posting>>): real
    requires IdsInRange(q, inv)
  {
    if |q| == 0 then 0.0 else ListContribution(inv[q[0].key], q[0].amount) + QueryMass(q[1..], inv)
  }

  lemma {:induction false} AccumulateListShape(results: seq<Entry<nat>>, termId: nat, qw: real, ps: seq<Posting>)
    ensures var r := AccumulateList(results, termId, qw, ps);
      && |results| <= |r| <= |results| + |ps|
      && (|ps| > 0 ==> |r| > 0)
      && Keys(r)[..|results|] == Keys(results)
      && (forall k | |results| <= k < |r| :: r[k].key in PostingIds(ps))
    decreases |ps|
  {
    if |ps| > 0 {
      var s := Accumulate(results, termId, qw, ps[0]);
      AccumulateListShape(s, termId, qw, ps[1..]);
      var r := AccumulateList(results, termId, qw, ps);
      assert r == AccumulateList(s, termId, qw, ps[1..]);
      assert Keys(r)[..|results|] == Keys(r)[..|s|][..|results|];
      assert PostingIds(ps) == [ps[0].id] + PostingIds(ps[1..]);
      forall k | |results| <= k < |r|
        ensures r[k].key in PostingIds(ps)
      {
        if k < |s| {
          assert Keys(r)[..|s|][k] == Keys(s)[k];
        }
      }
    }
  }

  lemma {:induction false} AccumulateListMass(results: seq<Entry<nat>>, termId: nat, qw: real, ps: seq<Posting>)
    ensures Sum(Amounts(AccumulateList(results, termId, qw, ps))) == Sum(Amounts(results)) + ListContribution(ps, qw)
    decreases |ps|
  {
    if |ps| > 0 {
      AccumulateListMass(Accumulate(results, termId, qw, ps[0]), termId, qw, ps[1..]);
    }
  }

  /** The whole accumulation: existing results keep their document ids and
      positions; every new result is keyed by a candidate document; at most
      one result per posting is created, and one exists as soon as any
      posting does. */
  lemma {:induction false} AccumulateAllShape(results: seq<Entry<nat>>, q: seq<Entry<nat>>, inv: seq<seq<Posting>>)
    requires IdsInRange(q, inv)
    ensures var r := AccumulateAll(results, q, inv);
      && |results| <= |r| <= |results| + |Candidates(q, inv)|
      && (|Candidates(q, inv)| > 0 ==> |r| > 0)
      && Keys(r)[..|results|] == Keys(results)
      && (forall k | |results| <= k < |r| :: r[k].key in Candidates(q, inv))
    decreases |q|
  {
    if |q| > 0 {
      var ps := inv[q[0].key];
      var s := AccumulateList(results, q[0].key, q[0].amount, ps);
      AccumulateListShape(results, q[0].key, q[0].amount, ps);
      assert IdsInRange(q[1..], inv);
      AccumulateAllShape(s, q[1..], inv);
      var r := AccumulateAll(results, q, inv);
      assert r == AccumulateAll(s, q[1..], inv);
      assert Keys(r)[..|results|] == Keys(r)[..|s|][..|results|];
      assert Candidates(q, inv) == PostingIds(ps) + Candidates(q[1..], inv);
      forall k | |results| <= k < |r|
        ensures r[k].key in Candidates(q, inv)
      {
        if k < |s| {
          assert Keys(r)[..|s|][k] == Keys(s)[k];
        }
      }
    }
  }

  /** The total score grows by exactly the query mass: nothing is lost or
      invented, wherever the lookup puts it. */
  lemma {:induction false} AccumulateAllMass(results: seq<Entry<nat>>, q: seq<Entry<nat>>, inv: seq<seq<Posting>>)
    requires IdsInRange(q, inv)
    ensures Sum(Amounts(AccumulateAll(results, q, inv))) == Sum(Amounts(results)) + QueryMass(q, inv)
    decreases |q|
  {
    if |q| > 0 {
      var s := AccumulateList(results, q[0].key, q[0].amount, inv[q[0].key]);
      AccumulateListMass(results, q[0].key, q[0].amount, inv[q[0].key]);
      assert IdsInRange(q[1..], inv);
      AccumulateAllMass(s, q[1..], inv);
    }
  }

  /** Running the outer loop over `a + b` is running it over `a`, then over
      `b` from where it stopped. */
  lemma {:induction false} AccumulateAllAppend(results: seq<Entry<nat>>, a: seq<Entry<nat>>, b: seq<Entry<nat>>, inv: seq<seq<Posting>>)
    requires IdsInRange(a + b, inv)
    ensures IdsInRange(a, inv) && IdsInRange(b, inv)
    ensures AccumulateAll(results, a + b, inv) == AccumulateAll(AccumulateAll(results, a, inv), b, inv)
    decreases |a|
  {
    assert forall i | 0 <= i < |a| :: a[i] == (a + b)[i];
    assert forall i | 0 <= i < |b| :: b[i] == (a + b)[|a| + i];
    if |a| == 0 {
      assert a + b == b;
    } else {
      assert (a + b)[1..] == a[1..] + b;
      AccumulateAllAppend(AccumulateList(results, a[0].key, a[0].amount, inv[a[0].key]), a[1..], b, inv);
    }
  }

  /** A query entry of weight zero whose term id already keys a result
      changes nothing: every posting of its list finds that result and adds
      zero to it. */
  lemma {:induction false} AccumulateListZero(results: seq<Entry<nat>>, termId: nat, ps: seq<Posting>)
    requires termId in Keys(results)
    ensures AccumulateList(results, termId, 0.0, ps) == results
    decreases |ps|
  {
    if |ps| > 0 {
      var i := Find(Keys(results), termId).value;
      assert results[i := Entry(results[i].key, results[i].amount + ps[0].weight * 0.0)] == results;
      AccumulateListZero(results, termId, ps[1..]);
    }
  }

  lemma {:induction false} AccumulateAllZero(results: seq<Entry<nat>>, z: seq<Entry<nat>>, inv: seq<seq<Posting>>)
    requires IdsInRange(z, inv)
    requires forall i | 0 <= i < |z| :: z[i].amount == 0.0 && z[i].key in Keys(results)
    ensures AccumulateAll(results, z, inv) == results
    decreases |z|
  {
    if |z| > 0 {
      AccumulateListZero(results, z[0].key, inv[z[0].key]);
      assert IdsInRange(z[1..], inv);
      AccumulateAllZero(results, z[1..], inv);
    }
  }

  /** The lookup by term id splits a document over several results: two
      query terms whose lists hold only document 3 yield two results for
      document 3. */
  lemma AccumulateSplitsDocument()
    ensures AccumulateAll([], [Entry(0, 1.0), Entry(1, 1.0)], [[Posting(3, 0.5)], [Posting(3, 0.5)]])
         == [Entry(3, 0.5), Entry(3, 0.5)]
  {
    var inv := [[Posting(3, 0.5)], [Posting(3, 0.5)]];
    var r0 := AccumulateList([], 0, 1.0, inv[0]);
    assert r0 == [Entry(3, 0.5)];
    assert Keys(r0) == [3];
    assert AccumulateList(r0, 1, 1.0, inv[1]) == [Entry(3, 0.5), Entry(3, 0.5)];
  }

  /** The lookup by term id also credits one document with another's score:
      when the result for document 1 exists, every posting of term 1 adds to
      it, so document 5 never gets a result of its own. */
  lemma AccumulateMisattributes()
    ensures AccumulateAll([], [Entry(0, 1.0), Entry(1, 1.0)], [[Posting(1, 1.0)], [Posting(5, 2.0)]])
         == [Entry(1, 3.0)]
  {
    var inv := [[Posting(1, 1.0)], [Posting(5, 2.0)]];
    var r0 := AccumulateList([], 0, 1.0, inv[0]);
    assert r0 == [Entry(1, 1.0)];
    assert Keys(r0) == [1];
    assert Find(Keys(r0), 1) == Some(0);
    assert AccumulateList(r0, 1, 1.0, inv[1]) == [Entry(1, 3.0)];
  }

  // ---------------------------------------------------------------------------
  // Normalisation and ranking (Cosine.java:39-77)

  /** `qNorm`: the square root of the plain sum of the query weights, not of
      their squares. */
  function QueryNorm(q: seq<Entry<nat>>, m: Math): real
  {
    m.sqrt(Sum(Amounts(q)))
  }

  /** `qNorm` is not the Euclidean norm of the query vector: for a one-term
      query of weight `w` (neither 0 nor 1) and an exact square root, it is
      sqrt(w), whose square is `w`, and not sqrt(w * w); for weight 2, say,
      qNorm squared is 2 where the Euclidean norm squared is 4. */
  lemma QueryNormIsNotEuclidean(t: nat, w: real, m: Math)
    requires SqrtExact(m) && w > 0.0 && w != 1.0
    ensures QueryNorm([Entry(t, w)], m) * QueryNorm([Entry(t, w)], m) == w
    ensures QueryNorm([Entry(t, w)], m) != m.sqrt(w * w)
  {
    assert Amounts([Entry(t, w)]) == [w];
    assert Sum([w]) == w + Sum([]);
    assert QueryNorm([Entry(t, w)], m) == m.sqrt(w);
    ProductNonZero(w, w - 1.0);
    assert w * w - w == w * (w - 1.0);
    MulPositive(w, w);
    SqrtInjective(m, w, w * w);
  }

  /** An exact square root tells non-negative numbers apart. */
  lemma SqrtInjective(m: Math, x: real, y: real)
    requires SqrtExact(m) && x >= 0.0 && y >= 0.0 && x != y
    ensures m.sqrt(x) * m.sqrt(x) == x
    ensures m.sqrt(x) != m.sqrt(y)
  {
    assert m.sqrt(x) * m.sqrt(x) == x;
    assert m.sqrt(y) * m.sqrt(y) == y;
  }

  lemma ProductNonZero(u: real, v: real)
    requires u != 0.0 && v != 0.0
    ensures u * v != 0.0
  {
  }

  /** Every result names a document, and the divisor `qNorm` times its norm
      is nonzero (Java would otherwise throw, or produce an infinite or
      undefined score). */
  ghost predicate Divisible(results: seq<Entry<nat>>, qNorm: real, documents: seq<Document>)
  {
    && (forall i | 0 <= i < |results| :: results[i].key < |documents|)
    && (forall i | 0 <= i < |results| && results[i].key < |documents| ::
          qNorm * documents[results[i].key].norm != 0.0)
  }

  /** Each score divided by `qNorm` times its document's norm. */
  function Normalise(results: seq<Entry<nat>>, qNorm: real, documents: seq<Document>): (r: seq<Entry<nat>>)
    requires Divisible(results, qNorm, documents)
    ensures Keys(r) == Keys(results)
    ensures forall i | 0 <= i < |r| :: r[i].amount * (qNorm * documents[r[i].key].norm) == results[i].amount
  {
    seq(|results|, i requires 0 <= i < |results| =>
      Entry(results[i].key, results[i].amount / (qNorm * documents[results[i].key].norm)))
  }

  /** What scoring needs of the index: the query's term ids name posting
      lists, and every candidate document exists with a nonzero divisor. */
  ghost predicate Scorable(q: seq<Entry<nat>>, ix: Index, m: Math)
  {
    && IdsInRange(q, ix.invertedIndex)
    && forall d: nat | d in Candidates(q, ix.invertedIndex) ::
         d < |ix.documents| && QueryNorm(q, m) * ix.documents[d].norm != 0.0
  }

  /** Every accumulated result is a candidate, so it can be normalised. */
  lemma AccumulationDivisible(q: seq<Entry<nat>>, ix: Index, m: Math)
    requires Scorable(q, ix, m)
    ensures Divisible(AccumulateAll([], q, ix.invertedIndex), QueryNorm(q, m), ix.documents)
  {
    var acc := AccumulateAll([], q, ix.invertedIndex);
    AccumulateAllShape([], q, ix.invertedIndex);
    forall i | 0 <= i < |acc|
      ensures acc[i].key < |ix.documents|
    {
      assert acc[i].key in Candidates(q, ix.invertedIndex);
    }
    forall i | 0 <= i < |acc| && acc[i].key < |ix.documents|
      ensures QueryNorm(q, m) * ix.documents[acc[i].key].norm != 0.0
    {
      assert acc[i].key in Candidates(q, ix.invertedIndex);
    }
  }

  /** `computeScores`: accumulate, normalise, sort. The ranking is sorted by
      non-increasing score, names only candidate documents, holds at most
      one result per posting, and is empty exactly when no query term has a
      posting (in particular for an empty query vector). */
  function ComputeScores(q: seq<Entry<nat>>, ix: Index, m: Math): (r: seq<Entry<nat>>)
    requires Scorable(q, ix, m)
    ensures SortedByScore(r)
    ensures forall i | 0 <= i < |r| :: r[i].key in Candidates(q, ix.invertedIndex)
    ensures |r| <= |Candidates(q, ix.invertedIndex)|
    ensures r == [] <==> Candidates(q, ix.invertedIndex) == []
  {
    var acc := AccumulateAll([], q, ix.invertedIndex);
    AccumulateAllShape([], q, ix.invertedIndex);
    AccumulationDivisible(q, ix, m);
    var n := Normalise(acc, QueryNorm(q, m), ix.documents);
    var r := SortByScore(n);
    assert forall i | 0 <= i < |r| :: r[i].key in Candidates(q, ix.invertedIndex) by {
      forall i | 0 <= i < |r|
        ensures r[i].key in Candidates(q, ix.invertedIndex)
      {
        SortKeepsEntries(n, r[i]);
        var j :| 0 <= j < |n| && n[j] == r[i];
        assert Keys(n)[j] == acc[j].key;
      }
    }
    r
  }

  /** The ranking is a permutation of the normalised accumulation: each
      accumulated result appears once, with its score divided by the query
      norm times its document's norm. */
  lemma ComputeScoresPermutes(q: seq<Entry<nat>>, ix: Index, m: Math)
    requires Scorable(q, ix, m)
    ensures var acc := AccumulateAll([], q, ix.invertedIndex);
      && Divisible(acc, QueryNorm(q, m), ix.documents)
      && multiset(ComputeScores(q, ix, m)) == multiset(Normalise(acc, QueryNorm(q, m), ix.documents))
  {
    var acc := AccumulateAll([], q, ix.invertedIndex);
    AccumulationDivisible(q, ix, m);
    assert ComputeScores(q, ix, m) == SortByScore(Normalise(acc, QueryNorm(q, m), ix.documents));
  }

  /** A query vector's ids name posting lists when the vocabulary's do. */
  lemma QueryVectorInRange(terms: seq<string>, ix: Index, m: Math)
    requires TermIdsInRange(ix)
    ensures IdsInRange(QueryVector(terms, ix.vocabulary, m), ix.invertedIndex)
  {
    QueryVectorKeys(terms, ix.vocabulary, m);
    var q := QueryVector(terms, ix.vocabulary, m);
    forall i | 0 <= i < |q|
      ensures q[i].key < |ix.invertedIndex|
    {
      assert q[i].key in Keys(q);
      KnownIdsInRange(terms, ix, q[i].key);
    }
  }

  lemma {:induction false} KnownIdsInRange(terms: seq<string>, ix: Index, id: nat)
    requires TermIdsInRange(ix) && id in KnownIds(terms, ix.vocabulary)
    ensures id < |ix.invertedIndex|
    decreases |terms|
  {
    var t := terms[|terms| - 1];
    if !(t in ix.vocabulary && ix.vocabulary[t].id == id) {
      KnownIdsInRange(terms[..|terms| - 1], ix, id);
    }
  }

  /** `runQuery` on already processed query terms: score the query vector. */
  function RunQuery(terms: seq<string>, ix: Index, m: Math): (r: seq<Entry<nat>>)
    requires Scorable(QueryVector(terms, ix.vocabulary, m), ix, m)
    ensures SortedByScore(r)
    ensures (forall t | t in terms :: t !in ix.vocabulary) ==> r == []
  {
    var q := QueryVector(terms, ix.vocabulary, m);
    assert (forall t | t in terms :: t !in ix.vocabulary) ==> q == [] by {
      QueryVectorKeys(terms, ix.vocabulary, m);
      if forall t | t in terms :: t !in ix.vocabulary {
        NoKnownIds(terms, ix.vocabulary);
      }
    }
    ComputeScores(q, ix, m)
  }

  lemma {:induction false} NoKnownIds(terms: seq<string>, vocabulary: map<string, TermInfo>)
    requires forall t | t in terms :: t !in vocabulary
    ensures KnownIds(terms, vocabulary) == []
    decreases |terms|
  {
    if |terms| > 0 {
      assert terms[|terms| - 1] in terms;
      NoKnownIds(terms[..|terms| - 1], vocabulary);
    }
  }
}

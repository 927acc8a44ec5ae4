/**
 The index the engine builds and queries. `Index.java` is not part of this
 model; its shape is the one the indexer and the ranking models use:

 - `vocabulary`: term to (term id, idf);
 - `invertedIndex`: one posting list of (document id, weight) per term id;
 - `directIndex`: one list of (term id, weight) per document id;
 - `documents`: (name, norm) per document id;
 - `cache`: document id to its parsed (title, body).
 */
module IndexStore {
  import opened Seqs

  /** A (document id, weight) pair in the inverted index, or a (term id,
      weight) pair in the direct index. */
  datatype Posting = Posting(id: nat, weight: real)

  datatype TermInfo = TermInfo(id: nat, idf: real)

  datatype Document = Document(name: string, norm: real)

  datatype Content = Content(title: string, body: string)

  datatype Index = Index(
    vocabulary: map<string, TermInfo>,
    invertedIndex: seq<seq<Posting>>,
    directIndex: seq<seq<Posting>>,
    documents: seq<Document>,
    cache: map<nat, Content>)

  const EmptyIndex := Index(map[], [], [], [], map[])

  function PostingIds(ps: seq<Posting>): (ids: seq<nat>)
    ensures |ids| == |ps|
    ensures forall j | 0 <= j < |ps| :: ids[j] == ps[j].id
  {
    seq(|ps|, j requires 0 <= j < |ps| => ps[j].id)
  }

  ghost predicate StrictlyIncreasing(ids: seq<nat>)
  {
    forall j, k | 0 <= j < k < |ids| :: ids[j] < ids[k]
  }

  /** The weights `ps` records for `d`, in order. */
  function Hits(ps: seq<Posting>, d: nat): seq<real>
  {
    if |ps| == 0 then []
    else (if ps[0].id == d then [ps[0].weight] else []) + Hits(ps[1..], d)
  }

  /** A list with strictly increasing ids holds each id at most once. */
  lemma {:induction false} HitsAtMostOne(ps: seq<Posting>, d: nat)
    requires StrictlyIncreasing(PostingIds(ps))
    ensures |Hits(ps, d)| <= 1
    ensures |Hits(ps, d)| == 1 <==> d in PostingIds(ps)
  {
    if |ps| > 0 {
      assert StrictlyIncreasing(PostingIds(ps[1..])) by {
        assert forall j | 0 <= j < |ps| - 1 :: PostingIds(ps[1..])[j] == PostingIds(ps)[j + 1];
      }
      HitsAtMostOne(ps[1..], d);
      assert PostingIds(ps) == [ps[0].id] + PostingIds(ps[1..]);
      if ps[0].id == d {
        HitsNone(ps[1..], d);
      }
    }
  }

  lemma {:induction false} HitsNone(ps: seq<Posting>, d: nat)
    requires forall j | 0 <= j < |ps| :: ps[j].id > d
    ensures Hits(ps, d) == []
  {
    if |ps| > 0 {
      HitsNone(ps[1..], d);
    }
  }

  lemma {:induction false} HitsMember(ps: seq<Posting>, d: nat, w: real)
    ensures w in Hits(ps, d) <==> Posting(d, w) in ps
  {
    if |ps| > 0 {
      HitsMember(ps[1..], d, w);
      assert Posting(d, w) in ps <==> ps[0] == Posting(d, w) || Posting(d, w) in ps[1..];
    }
  }

  // ---------------------------------------------------------------------------
  // Invariants of a built index

  /** Every vocabulary entry names an existing posting list. */
  ghost predicate TermIdsInRange(ix: Index)
  {
    forall t | t in ix.vocabulary :: ix.vocabulary[t].id < |ix.invertedIndex|
  }

  /** Term ids are dense: one distinct id per term, covering exactly the
      posting lists. */
  ghost predicate DenseVocabulary(ix: Index)
  {
    && TermIdsInRange(ix)
    && |ix.vocabulary| == |ix.invertedIndex|
    && (forall t, u | t in ix.vocabulary && u in ix.vocabulary && t != u ::
          ix.vocabulary[t].id != ix.vocabulary[u].id)
    && (forall i | 0 <= i < |ix.invertedIndex| :: HasTermId(ix.vocabulary, i))
  }

  ghost predicate HasTermId(vocabulary: map<string, TermInfo>, i: nat)
  {
    exists t | t in vocabulary :: vocabulary[t].id == i
  }

  /** Every query term is in the vocabulary: the binary and Okapi models read
      `vocabulary.get(s).item1`, which dereferences null for an unknown term. */
  ghost predicate AllKnown(terms: seq<string>, vocabulary: map<string, TermInfo>)
  {
    forall i | 0 <= i < |terms| :: terms[i] in vocabulary
  }

  /** The id of every query term, repetitions included. */
  function TermIds(terms: seq<string>, vocabulary: map<string, TermInfo>): (ids: seq<nat>)
    requires AllKnown(terms, vocabulary)
    ensures |ids| == |terms|
    ensures forall i | 0 <= i < |terms| :: ids[i] == vocabulary[terms[i]].id
  {
    seq(|terms|, i requires 0 <= i < |terms| => vocabulary[terms[i]].id)
  }

  /** The posting list of term `t`; none for a term outside the vocabulary. */
  function PostingsOf(ix: Index, t: string): seq<Posting>
    requires TermIdsInRange(ix)
  {
    if t in ix.vocabulary then ix.invertedIndex[ix.vocabulary[t].id] else []
  }

  /** Every posting names an existing document. */
  ghost predicate Addressable(ix: Index)
  {
    forall i, j | 0 <= i < |ix.invertedIndex| && 0 <= j < |ix.invertedIndex[i]| ::
      ix.invertedIndex[i][j].id < |ix.documents|
  }

  /** No posting list is empty, and each lists its documents in strictly
      increasing order (so each at most once). */
  ghost predicate OrderedPostings(ix: Index)
  {
    forall i | 0 <= i < |ix.invertedIndex| ::
      |ix.invertedIndex[i]| > 0 && StrictlyIncreasing(PostingIds(ix.invertedIndex[i]))
  }

  /** The cache holds exactly the registered documents. */
  ghost predicate CacheComplete(ix: Index)
  {
    forall d: nat :: d in ix.cache <==> d < |ix.documents|
  }

  /** What the first pass maintains. */
  ghost predicate WellFormed(ix: Index)
  {
    && DenseVocabulary(ix)
    && Addressable(ix)
    && OrderedPostings(ix)
    && |ix.directIndex| == |ix.documents|
    && CacheComplete(ix)
  }

  /** Before the second pass: no direct postings and all norm accumulators 0. */
  ghost predicate FirstPassShape(ix: Index)
  {
    && (forall d | 0 <= d < |ix.directIndex| :: ix.directIndex[d] == [])
    && (forall d | 0 <= d < |ix.documents| :: ix.documents[d].norm == 0.0)
  }

  lemma EmptyIndexWellFormed()
    ensures WellFormed(EmptyIndex) && FirstPassShape(EmptyIndex)
  {
  }
}

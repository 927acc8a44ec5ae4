/**
 The first pass of the indexer on one document (`Indexer.processDocument`
 once the file is read and its title and body have been turned into terms):
 weigh the terms, register the document, and append one posting per distinct
 term.
 */
module Indexer {
  import opened Seqs
  import opened Numerics
  import opened Tally
  import opened JavaStrings
  import opened IndexStore

  // ---------------------------------------------------------------------------
  // Term weighting (Indexer.java:199-230)

  /** The raw per-document counts: 2 per title occurrence, then 1 per body
      occurrence, accumulated by linear search in one list. */
  function WeighTerms(title: seq<string>, body: seq<string>): seq<Entry<string>>
  {
    AddAll(AddAll([], Contributions(title, 2.0)), Contributions(body, 1.0))
  }

  /** The weighted list has one entry per distinct term, title terms first and
      otherwise in order of first occurrence. */
  lemma WeighTermsKeys(title: seq<string>, body: seq<string>)
    ensures Keys(WeighTerms(title, body)) == Dedup(title + body)
    ensures Distinct(Keys(WeighTerms(title, body)))
  {
    var v0 := AddAll([], Contributions(title, 2.0));
    AddAllSpec([], Contributions(title, 2.0));
    AddAllShape([], Contributions(title, 2.0));
    AddAllSpec(v0, Contributions(body, 1.0));
    AddAllShape(v0, Contributions(body, 1.0));
    AppendNewConcat([], title, body);
  }

  /** Each term's count is twice its title occurrences plus its body
      occurrences. */
  lemma WeighTermsCounts(title: seq<string>, body: seq<string>, t: string)
    ensures AmountOf(WeighTerms(title, body), t) == 2.0 * Count(title, t) as real + Count(body, t) as real
  {
    var v0 := AddAll([], Contributions(title, 2.0));
    AddAllSpec([], Contributions(title, 2.0));
    AddAllShape([], Contributions(title, 2.0));
    AddAllSpec(v0, Contributions(body, 1.0));
    ContributionsTotal(title, 2.0, t);
    ContributionsTotal(body, 1.0, t);
  }

  /** Every listed term occurs, so every count is at least 1. */
  lemma WeighTermsPositive(title: seq<string>, body: seq<string>)
    ensures forall i | 0 <= i < |WeighTerms(title, body)| :: WeighTerms(title, body)[i].amount >= 1.0
  {
    var v := WeighTerms(title, body);
    WeighTermsKeys(title, body);
    AppendNewSpec([], title + body);
    forall i | 0 <= i < |v|
      ensures v[i].amount >= 1.0
    {
      var t := v[i].key;
      AmountOfAt(v, i);
      WeighTermsCounts(title, body, t);
      assert Keys(v)[i] == t;
      CountAppend(title, body, t);
      CountPositive(title + body, t);
    }
  }

  // ---------------------------------------------------------------------------
  // Document name (Indexer.java:233-235)

  /** `fileName.split("\\.")[0]`. The split removes trailing empty pieces, so
      a non-empty name made only of dots yields no piece at all and the
      indexing fails with an out-of-bounds access. */
  predicate IsDot(c: char)
  {
    c == '.'
  }

  function DocumentName(fileName: string): Option<string>
  {
    var pieces := JavaSplit(fileName, IsDot, false);
    if |pieces| == 0 then None else Some(pieces[0])
  }

  /** The name fails exactly for a non-empty all-dot file name; otherwise it
      is the part of the file name before its first dot. */
  lemma DocumentNameSpec(fileName: string)
    ensures DocumentName(fileName).None? <==>
      |fileName| > 0 && forall i | 0 <= i < |fileName| :: fileName[i] == '.'
    ensures DocumentName(fileName).Some? ==>
      var name := DocumentName(fileName).value;
      && name <= fileName
      && (forall i | 0 <= i < |name| :: name[i] != '.')
      && (|name| < |fileName| ==> fileName[|name|] == '.')
  {
    var dot := IsDot;
    if NoneOf(fileName, dot) {
      if |fileName| > 0 {
        assert fileName[0] != '.';
      }
    } else {
      var fs := Fields(fileName, dot);
      var r := DropTrailingEmpty(fs);
      FieldsContent(fileName, dot);
      FirstFieldIsPrefix(fileName, dot);
      FlattenEmpty(fs);
      KeptEmpty(fileName, dot);
      if |r| == 0 {
        assert forall k | 0 <= k < |fs| :: fs[k] == "";
      } else {
        assert r[0] == fs[0];
        assert exists k | 0 <= k < |fs| :: fs[k] != "" by {
          assert fs[|r| - 1] == r[|r| - 1];
        }
      }
    }
  }

  /** The first field is the prefix of `s` before its first separator. */
  lemma {:induction false} FirstFieldIsPrefix(s: string, sep: char -> bool)
    ensures var f := Fields(s, sep)[0];
      f <= s && NoneOf(f, sep) && (|f| < |s| ==> sep(s[|f|]))
    decreases |s|
  {
    if |s| > 0 && !sep(s[0]) {
      FirstFieldIsPrefix(s[1..], sep);
      var f := Fields(s, sep)[0];
      assert f == [s[0]] + Fields(s[1..], sep)[0];
    }
  }

  lemma {:induction false} FlattenEmpty(fs: seq<string>)
    ensures Flatten(fs) == [] <==> forall k | 0 <= k < |fs| :: fs[k] == ""
  {
    if |fs| > 0 {
      FlattenEmpty(fs[1..]);
      assert forall k | 1 <= k < |fs| :: fs[k] == fs[1..][k - 1];
    }
  }

  lemma {:induction false} KeptEmpty(s: string, sep: char -> bool)
    ensures Kept(s, sep) == [] <==> forall i | 0 <= i < |s| :: sep(s[i])
  {
    if |s| > 0 {
      KeptEmpty(s[1..], sep);
      assert forall i | 1 <= i < |s| :: s[i] == s[1..][i - 1];
    }
  }

  // ---------------------------------------------------------------------------
  // Registration (Indexer.java:237-248)

  /** One step of the registration loop: a term not yet in the vocabulary gets
      a new, empty posting list whose position is its id, and the term's list
      receives (docId, 1 + ln(count)). */
  function Register(ix: Index, docId: nat, e: Entry<string>, m: Math): (r: Index)
    requires TermIdsInRange(ix)
    ensures TermIdsInRange(r)
  {
    var p := Posting(docId, TermFrequencyWeight(e.amount, m));
    if e.key in ix.vocabulary then
      var id := ix.vocabulary[e.key].id;
      ix.(invertedIndex := ix.invertedIndex[id := ix.invertedIndex[id] + [p]])
    else
      ix.(vocabulary := ix.vocabulary[e.key := TermInfo(|ix.invertedIndex|, 0.0)],
          invertedIndex := ix.invertedIndex + [[p]])
  }

  function RegisterAll(ix: Index, docId: nat, v: seq<Entry<string>>, m: Math): (r: Index)
    requires TermIdsInRange(ix)
    ensures TermIdsInRange(r)
    decreases |v|
  {
    if |v| == 0 then ix else RegisterAll(Register(ix, docId, v[0], m), docId, v[1..], m)
  }

  /** The posting the registration of `v` appends for term `t`, if any. */
  function Appended(v: seq<Entry<string>>, t: string, docId: nat, m: Math): seq<Posting>
  {
    if t in Keys(v) then [Posting(docId, TermFrequencyWeight(AmountOf(v, t), m))] else []
  }

  /** One registration step keeps the ids dense, keeps every known term's
      entry and gives a new term the next id. */
  lemma RegisterVocabulary(ix: Index, docId: nat, e: Entry<string>, m: Math)
    requires DenseVocabulary(ix)
    ensures var r := Register(ix, docId, e, m);
      && DenseVocabulary(r)
      && r.vocabulary.Keys == ix.vocabulary.Keys + {e.key}
      && (forall t | t in ix.vocabulary :: r.vocabulary[t] == ix.vocabulary[t])
      && (e.key !in ix.vocabulary ==> r.vocabulary[e.key] == TermInfo(|ix.invertedIndex|, 0.0))
      && r.documents == ix.documents && r.directIndex == ix.directIndex && r.cache == ix.cache
  {
    RegisterDense(ix, docId, e, m);
  }

  lemma RegisterDense(ix: Index, docId: nat, e: Entry<string>, m: Math)
    requires DenseVocabulary(ix)
    ensures DenseVocabulary(Register(ix, docId, e, m))
  {
    if e.key !in ix.vocabulary {
      RegisterNewTermDense(ix, docId, e, m);
    } else {
      var r := Register(ix, docId, e, m);
      assert r.vocabulary == ix.vocabulary && |r.invertedIndex| == |ix.invertedIndex|;
    }
  }

  lemma RegisterNewTermDense(ix: Index, docId: nat, e: Entry<string>, m: Math)
    requires DenseVocabulary(ix) && e.key !in ix.vocabulary
    ensures DenseVocabulary(Register(ix, docId, e, m))
  {
    var r := Register(ix, docId, e, m);
    var n := |ix.invertedIndex|;
    assert r.vocabulary == ix.vocabulary[e.key := TermInfo(n, 0.0)];
    assert |r.invertedIndex| == n + 1;
    assert |r.vocabulary| == |ix.vocabulary| + 1;
    forall i | 0 <= i < n + 1
      ensures HasTermId(r.vocabulary, i)
    {
      if i < n {
        assert HasTermId(ix.vocabulary, i);
        var t :| t in ix.vocabulary && ix.vocabulary[t].id == i;
        assert r.vocabulary[t].id == i;
      } else {
        assert r.vocabulary[e.key].id == i;
      }
    }
  }

  /** One registration step appends the posting to the list of `e.key` and
      to no other list. */
  lemma RegisterPostings(ix: Index, docId: nat, e: Entry<string>, m: Math, t: string)
    requires DenseVocabulary(ix)
    ensures PostingsOf(Register(ix, docId, e, m), t) == PostingsOf(ix, t)
      + (if t == e.key then [Posting(docId, TermFrequencyWeight(e.amount, m))] else [])
  {
    RegisterVocabulary(ix, docId, e, m);
  }

  lemma KeysTail(v: seq<Entry<string>>)
    requires |v| > 0 && Distinct(Keys(v))
    ensures Keys(v) == [v[0].key] + Keys(v[1..])
    ensures Distinct(Keys(v[1..])) && v[0].key !in Keys(v[1..])
  {
    assert Keys(v) == [v[0].key] + Keys(v[1..]);
  }

  /** Registration keeps the term ids dense and touches only the vocabulary
      and the inverted index. */
  lemma {:induction false} RegisterAllDense(ix: Index, docId: nat, v: seq<Entry<string>>, m: Math)
    requires DenseVocabulary(ix)
    ensures var r := RegisterAll(ix, docId, v, m);
      && DenseVocabulary(r)
      && r.documents == ix.documents && r.directIndex == ix.directIndex && r.cache == ix.cache
    decreases |v|
  {
    if |v| > 0 {
      RegisterVocabulary(ix, docId, v[0], m);
      RegisterAllDense(Register(ix, docId, v[0], m), docId, v[1..], m);
    }
  }

  /** Registration touches only the vocabulary and the inverted index. */
  lemma {:induction false} RegisterAllKeepsDocuments(ix: Index, docId: nat, v: seq<Entry<string>>, m: Math)
    requires TermIdsInRange(ix)
    ensures var r := RegisterAll(ix, docId, v, m);
      r.documents == ix.documents && r.directIndex == ix.directIndex && r.cache == ix.cache
    decreases |v|
  {
    if |v| > 0 {
      RegisterAllKeepsDocuments(Register(ix, docId, v[0], m), docId, v[1..], m);
    }
  }

  /** Registering the weighted terms `v` of a document: the vocabulary gains
      exactly the terms of `v` it did not have, and known terms keep their
      entries. */
  lemma {:induction false} RegisterAllVocabulary(ix: Index, docId: nat, v: seq<Entry<string>>, m: Math)
    requires TermIdsInRange(ix)
    ensures var r := RegisterAll(ix, docId, v, m);
      && r.vocabulary.Keys == ix.vocabulary.Keys + Elems(Keys(v))
      && (forall t | t in ix.vocabulary :: r.vocabulary[t] == ix.vocabulary[t])
    decreases |v|
  {
    if |v| > 0 {
      var ix1 := Register(ix, docId, v[0], m);
      assert ix1.vocabulary.Keys == ix.vocabulary.Keys + {v[0].key};
      assert forall t | t in ix.vocabulary :: ix1.vocabulary[t] == ix.vocabulary[t];
      RegisterAllVocabulary(ix1, docId, v[1..], m);
      assert Keys(v) == [v[0].key] + Keys(v[1..]);
      assert Elems(Keys(v)) == {v[0].key} + Elems(Keys(v[1..]));
    }
  }

  /** A term the registration adds gets an id beyond all existing ones and
      idf 0 until the second pass. */
  lemma {:induction false} RegisterAllNewTerms(ix: Index, docId: nat, v: seq<Entry<string>>, m: Math, t: string)
    requires DenseVocabulary(ix)
    requires t in RegisterAll(ix, docId, v, m).vocabulary && t !in ix.vocabulary
    ensures RegisterAll(ix, docId, v, m).vocabulary[t].id >= |ix.invertedIndex|
    ensures RegisterAll(ix, docId, v, m).vocabulary[t].idf == 0.0
    decreases |v|
  {
    var ix1 := Register(ix, docId, v[0], m);
    RegisterVocabulary(ix, docId, v[0], m);
    RegisterAllVocabulary(ix1, docId, v[1..], m);
    RegisterAllDense(ix1, docId, v[1..], m);
    if t in ix1.vocabulary {
      assert t == v[0].key;
    } else {
      RegisterAllNewTerms(ix1, docId, v[1..], m, t);
    }
  }

  /** Every term's posting list gains exactly one posting (docId, 1 +
      ln(count)) if the term is among the distinct terms `v`, and nothing
      otherwise. */
  lemma {:induction false} RegisterAllPostings(ix: Index, docId: nat, v: seq<Entry<string>>, m: Math, t: string)
    requires DenseVocabulary(ix) && Distinct(Keys(v))
    ensures PostingsOf(RegisterAll(ix, docId, v, m), t) == PostingsOf(ix, t) + Appended(v, t, docId, m)
    decreases |v|
  {
    if |v| > 0 {
      var ix1 := Register(ix, docId, v[0], m);
      var p := if t == v[0].key then [Posting(docId, TermFrequencyWeight(v[0].amount, m))] else [];
      assert DenseVocabulary(ix1) by {
        RegisterVocabulary(ix, docId, v[0], m);
      }
      assert PostingsOf(ix1, t) == PostingsOf(ix, t) + p by {
        RegisterPostings(ix, docId, v[0], m, t);
      }
      assert Distinct(Keys(v[1..])) by {
        KeysTail(v);
      }
      RegisterAllPostings(ix1, docId, v[1..], m, t);
      assert Appended(v, t, docId, m) == p + Appended(v[1..], t, docId, m) by {
        AppendedStep(v, t, docId, m);
      }
      ConcatAssoc(PostingsOf(ix, t), p, Appended(v[1..], t, docId, m));
    }
  }

  lemma AppendedStep(v: seq<Entry<string>>, t: string, docId: nat, m: Math)
    requires |v| > 0 && Distinct(Keys(v))
    ensures Appended(v, t, docId, m)
      == (if t == v[0].key then [Posting(docId, TermFrequencyWeight(v[0].amount, m))] else [])
         + Appended(v[1..], t, docId, m)
  {
    KeysTail(v);
    if t == v[0].key {
      assert Find(Keys(v), t) == Some(0);
    } else {
      assert Keys(v)[0] != t;
      AmountOfTail(v, t);
    }
  }

  /** Appending a posting for a document beyond all listed ones keeps a list
      strictly increasing. */
  lemma AppendKeepsIncreasing(ps: seq<Posting>, p: Posting)
    requires StrictlyIncreasing(PostingIds(ps))
    requires forall j | 0 <= j < |ps| :: ps[j].id < p.id
    ensures StrictlyIncreasing(PostingIds(ps + [p]))
  {
    assert forall j | 0 <= j < |ps| :: PostingIds(ps + [p])[j] == ps[j].id;
  }

  // ---------------------------------------------------------------------------
  // One document (Indexer.java:195-248)

  /** `processDocument` after the file read: `doc` is the parsed (title,
      body), `titleTerms` and `bodyTerms` what the document processor made of
      them. Fails when the file name has no name part. */
  function ProcessDocument(ix: Index, doc: Content, titleTerms: seq<string>, bodyTerms: seq<string>,
                           fileName: string, m: Math): (r: Option<Index>)
    requires TermIdsInRange(ix)
    ensures r.Some? ==> TermIdsInRange(r.value)
  {
    match DocumentName(fileName)
    case None => None
    case Some(name) =>
      Some(RegisterAll(AddDocument(ix, name, doc), |ix.documents|, WeighTerms(titleTerms, bodyTerms), m))
  }

  /** The document registration: (name, 0) appended to the documents, an
      empty direct slot, and the content cached under the new id. */
  function AddDocument(ix: Index, name: string, doc: Content): (r: Index)
    ensures TermIdsInRange(ix) ==> TermIdsInRange(r)
  {
    ix.(documents := ix.documents + [Document(name, 0.0)],
        directIndex := ix.directIndex + [[]],
        cache := ix.cache[|ix.documents| := doc])
  }

  /** The new document takes the next id, with norm accumulator 0, an empty
      direct slot and its content cached; the vocabulary gains exactly the
      document's new terms and known terms keep their ids. */
  lemma ProcessDocumentRegisters(ix: Index, doc: Content, titleTerms: seq<string>, bodyTerms: seq<string>,
                                 fileName: string, m: Math)
    requires DenseVocabulary(ix)
    ensures ProcessDocument(ix, doc, titleTerms, bodyTerms, fileName, m).None?
      <==> DocumentName(fileName).None?
    ensures ProcessDocument(ix, doc, titleTerms, bodyTerms, fileName, m).Some? ==>
      var r := ProcessDocument(ix, doc, titleTerms, bodyTerms, fileName, m).value;
      && r.documents == ix.documents + [Document(DocumentName(fileName).value, 0.0)]
      && r.directIndex == ix.directIndex + [[]]
      && r.cache == ix.cache[|ix.documents| := doc]
      && DenseVocabulary(r)
      && r.vocabulary.Keys == ix.vocabulary.Keys + Elems(titleTerms + bodyTerms)
      && (forall t | t in ix.vocabulary :: r.vocabulary[t] == ix.vocabulary[t])
  {
    if DocumentName(fileName).Some? {
      var name := DocumentName(fileName).value;
      var v := WeighTerms(titleTerms, bodyTerms);
      var r := RegisterAll(AddDocument(ix, name, doc), |ix.documents|, v, m);
      assert ProcessDocument(ix, doc, titleTerms, bodyTerms, fileName, m) == Some(r);
      AddThenRegister(ix, name, doc, v, m);
      WeighTermsElems(titleTerms, bodyTerms);
    }
  }

  lemma WeighTermsElems(title: seq<string>, body: seq<string>)
    ensures Elems(Keys(WeighTerms(title, body))) == Elems(title + body)
  {
    WeighTermsKeys(title, body);
    AppendNewSpec([], title + body);
  }

  /** Registering the document, then its weighted terms `v`. */
  lemma AddThenRegister(ix: Index, name: string, doc: Content, v: seq<Entry<string>>, m: Math)
    requires DenseVocabulary(ix)
    ensures var r := RegisterAll(AddDocument(ix, name, doc), |ix.documents|, v, m);
      && r.documents == ix.documents + [Document(name, 0.0)]
      && r.directIndex == ix.directIndex + [[]]
      && r.cache == ix.cache[|ix.documents| := doc]
      && DenseVocabulary(r)
      && r.vocabulary.Keys == ix.vocabulary.Keys + Elems(Keys(v))
      && (forall t | t in ix.vocabulary :: r.vocabulary[t] == ix.vocabulary[t])
  {
    var a := AddDocument(ix, name, doc);
    assert DenseVocabulary(a);
    RegisterAllDense(a, |ix.documents|, v, m);
    RegisterAllVocabulary(a, |ix.documents|, v, m);
  }

  /** Each distinct term of the document gains exactly one posting (new
      document id, 1 + ln(2 * title occurrences + body occurrences)) at the
      end of its list; every other list is unchanged. */
  lemma ProcessDocumentPostings(ix: Index, doc: Content, titleTerms: seq<string>, bodyTerms: seq<string>,
                                fileName: string, m: Math, t: string)
    requires DenseVocabulary(ix)
    requires ProcessDocument(ix, doc, titleTerms, bodyTerms, fileName, m).Some?
    ensures var r := ProcessDocument(ix, doc, titleTerms, bodyTerms, fileName, m).value;
      PostingsOf(r, t) == PostingsOf(ix, t) + DocumentPosting(titleTerms, bodyTerms, t, |ix.documents|, m)
  {
    var docId := |ix.documents|;
    var a := AddDocument(ix, DocumentName(fileName).value, doc);
    var v := WeighTerms(titleTerms, bodyTerms);
    var r := RegisterAll(a, docId, v, m);
    assert ProcessDocument(ix, doc, titleTerms, bodyTerms, fileName, m) == Some(r);
    assert PostingsOf(a, t) == PostingsOf(ix, t);
    assert PostingsOf(r, t) == PostingsOf(a, t) + Appended(v, t, docId, m) by {
      WeighTermsKeys(titleTerms, bodyTerms);
      RegisterAllPostings(a, docId, v, m, t);
    }
    AppendedWeighTerms(titleTerms, bodyTerms, t, docId, m);
  }

  /** The posting a document contributes to the list of term `t`: (docId,
      1 + ln(2 * title occurrences + body occurrences)) if `t` occurs. */
  function DocumentPosting(titleTerms: seq<string>, bodyTerms: seq<string>, t: string, docId: nat, m: Math): seq<Posting>
  {
    if t in titleTerms + bodyTerms
    then [Posting(docId, TermFrequencyWeight(2.0 * Count(titleTerms, t) as real + Count(bodyTerms, t) as real, m))]
    else []
  }

  lemma AppendedWeighTerms(titleTerms: seq<string>, bodyTerms: seq<string>, t: string, docId: nat, m: Math)
    ensures Appended(WeighTerms(titleTerms, bodyTerms), t, docId, m) == DocumentPosting(titleTerms, bodyTerms, t, docId, m)
  {
    WeighTermsKeys(titleTerms, bodyTerms);
    WeighTermsCounts(titleTerms, bodyTerms, t);
    AppendNewSpec([], titleTerms + bodyTerms);
  }

  /** With ln non-negative from 1 on, every first-pass posting weight is at
      least 1, since every occurring term is counted at least once. */
  lemma DocumentPostingAtLeastOne(titleTerms: seq<string>, bodyTerms: seq<string>, t: string, docId: nat, m: Math)
    requires LnNonNegativeFrom1(m)
    ensures forall p | p in DocumentPosting(titleTerms, bodyTerms, t, docId, m) :: p.weight >= 1.0
  {
    if t in titleTerms + bodyTerms {
      CountAppend(titleTerms, bodyTerms, t);
      CountPositive(titleTerms + bodyTerms, t);
      assert 2.0 * Count(titleTerms, t) as real + Count(bodyTerms, t) as real >= 1.0;
    }
  }

  /** Registering distinct terms for a document `docId` beyond every listed
      one keeps each posting list non-empty and strictly increasing, with ids
      up to `docId`. */
  lemma RegisterAllOrdered(ix: Index, docId: nat, v: seq<Entry<string>>, m: Math, i: nat)
    requires DenseVocabulary(ix) && OrderedPostings(ix) && Distinct(Keys(v))
    requires forall k, j | 0 <= k < |ix.invertedIndex| && 0 <= j < |ix.invertedIndex[k]| ::
      ix.invertedIndex[k][j].id < docId
    requires i < |RegisterAll(ix, docId, v, m).invertedIndex|
    ensures var list := RegisterAll(ix, docId, v, m).invertedIndex[i];
      && |list| > 0
      && StrictlyIncreasing(PostingIds(list))
      && forall j | 0 <= j < |list| :: list[j].id <= docId
  {
    var r := RegisterAll(ix, docId, v, m);
    assert HasTermId(r.vocabulary, i) by {
      RegisterAllDense(ix, docId, v, m);
    }
    var t :| t in r.vocabulary && r.vocabulary[t].id == i;
    var before := PostingsOf(ix, t);
    var added := Appended(v, t, docId, m);
    assert r.invertedIndex[i] == before + added by {
      RegisterAllPostings(ix, docId, v, m, t);
    }
    assert |before| > 0 || t in Keys(v) by {
      RegisterAllVocabulary(ix, docId, v, m);
    }
    assert StrictlyIncreasing(PostingIds(before)) && forall j | 0 <= j < |before| :: before[j].id < docId;
    ExtendedList(before, added, docId);
  }

  lemma ExtendedList(before: seq<Posting>, added: seq<Posting>, docId: nat)
    requires StrictlyIncreasing(PostingIds(before))
    requires forall j | 0 <= j < |before| :: before[j].id < docId
    requires |added| <= 1 && forall j | 0 <= j < |added| :: added[j].id == docId
    ensures StrictlyIncreasing(PostingIds(before + added))
    ensures forall j | 0 <= j < |before + added| :: (before + added)[j].id <= docId
  {
    if |added| > 0 {
      assert added == [added[0]];
      AppendKeepsIncreasing(before, added[0]);
    } else {
      assert before + added == before;
    }
  }

  /** Indexing a document keeps the index well formed: dense ids, postings
      naming existing documents, non-empty lists with strictly increasing
      document ids, one direct slot and one cache entry per document. */
  lemma ProcessDocumentWellFormed(ix: Index, doc: Content, titleTerms: seq<string>, bodyTerms: seq<string>,
                                  fileName: string, m: Math)
    requires WellFormed(ix)
    ensures ProcessDocument(ix, doc, titleTerms, bodyTerms, fileName, m).Some? ==>
      WellFormed(ProcessDocument(ix, doc, titleTerms, bodyTerms, fileName, m).value)
  {
    if DocumentName(fileName).Some? {
      var name := DocumentName(fileName).value;
      var v := WeighTerms(titleTerms, bodyTerms);
      var r := RegisterAll(AddDocument(ix, name, doc), |ix.documents|, v, m);
      assert ProcessDocument(ix, doc, titleTerms, bodyTerms, fileName, m) == Some(r);
      WeighTermsKeys(titleTerms, bodyTerms);
      AddThenRegisterWellFormed(ix, name, doc, v, m);
    }
  }

  lemma AddThenRegisterWellFormed(ix: Index, name: string, doc: Content, v: seq<Entry<string>>, m: Math)
    requires WellFormed(ix) && Distinct(Keys(v))
    ensures WellFormed(RegisterAll(AddDocument(ix, name, doc), |ix.documents|, v, m))
  {
    var docId := |ix.documents|;
    var a := AddDocument(ix, name, doc);
    var r := RegisterAll(a, docId, v, m);
    AddThenRegister(ix, name, doc, v, m);
    assert |r.documents| == docId + 1 && |r.directIndex| == docId + 1;
    assert OrderedPostings(r) && Addressable(r) by {
      RegisterAllOrderedAll(a, docId, v, m);
    }
    assert CacheComplete(r) by {
      CacheGrows(ix, r);
    }
  }

  /** Caching one more document under the next id keeps the cache complete. */
  lemma CacheGrows(ix: Index, r: Index)
    requires CacheComplete(ix)
    requires |ix.documents| in r.cache && r.cache == ix.cache[|ix.documents| := r.cache[|ix.documents|]]
    requires |r.documents| == |ix.documents| + 1
    ensures CacheComplete(r)
  {
    forall d: nat
      ensures d in r.cache <==> d < |r.documents|
    {
      if d != |ix.documents| {
        assert d in r.cache <==> d in ix.cache;
      }
    }
  }

  lemma RegisterAllOrderedAll(ix: Index, docId: nat, v: seq<Entry<string>>, m: Math)
    requires DenseVocabulary(ix) && OrderedPostings(ix) && Distinct(Keys(v))
    requires forall k, j | 0 <= k < |ix.invertedIndex| && 0 <= j < |ix.invertedIndex[k]| ::
      ix.invertedIndex[k][j].id < docId
    ensures var r := RegisterAll(ix, docId, v, m);
      forall i | 0 <= i < |r.invertedIndex| ::
        && |r.invertedIndex[i]| > 0
        && StrictlyIncreasing(PostingIds(r.invertedIndex[i]))
        && forall j | 0 <= j < |r.invertedIndex[i]| :: r.invertedIndex[i][j].id <= docId
  {
    var r := RegisterAll(ix, docId, v, m);
    forall i | 0 <= i < |r.invertedIndex|
      ensures |r.invertedIndex[i]| > 0 && StrictlyIncreasing(PostingIds(r.invertedIndex[i]))
      ensures forall j | 0 <= j < |r.invertedIndex[i]| :: r.invertedIndex[i][j].id <= docId
    {
      RegisterAllOrdered(ix, docId, v, m, i);
    }
  }

  /** Indexing a document keeps the first-pass shape: no direct postings yet
      and every norm accumulator 0. */
  lemma ProcessDocumentShape(ix: Index, doc: Content, titleTerms: seq<string>, bodyTerms: seq<string>,
                             fileName: string, m: Math)
    requires WellFormed(ix) && FirstPassShape(ix)
    ensures ProcessDocument(ix, doc, titleTerms, bodyTerms, fileName, m).Some? ==>
      FirstPassShape(ProcessDocument(ix, doc, titleTerms, bodyTerms, fileName, m).value)
  {
    ProcessDocumentRegisters(ix, doc, titleTerms, bodyTerms, fileName, m);
  }

  // ---------------------------------------------------------------------------
  // The first pass over a collection (Indexer.java:77-96, without the I/O)

  /** A document file once read and processed: its parsed content, the terms
      of its title and body, and its file name. */
  datatype ParsedFile = ParsedFile(content: Content, titleTerms: seq<string>, bodyTerms: seq<string>, fileName: string)

  /** The documents indexed one after another. A file name without a name
      part aborts the whole pass: the exception it raises is not the
      `IOException` the loop catches. */
  function IndexAll(ix: Index, files: seq<ParsedFile>, m: Math): Option<Index>
    requires TermIdsInRange(ix)
    decreases |files|
  {
    if |files| == 0 then Some(ix)
    else
      var f := files[0];
      match ProcessDocument(ix, f.content, f.titleTerms, f.bodyTerms, f.fileName, m)
      case None => None
      case Some(ix1) => IndexAll(ix1, files[1..], m)
  }

  /** The first pass succeeds exactly when every file name has a name part. */
  lemma IndexAllSucceeds(ix: Index, files: seq<ParsedFile>, m: Math)
    requires TermIdsInRange(ix)
    ensures IndexAll(ix, files, m).Some? <==>
      forall k | 0 <= k < |files| :: DocumentName(files[k].fileName).Some?
  {
    IndexAllReachesEnd(ix, files, m);
    FileDocumentsComplete(files);
  }

  lemma {:induction false} IndexAllReachesEnd(ix: Index, files: seq<ParsedFile>, m: Math)
    requires TermIdsInRange(ix)
    ensures IndexAll(ix, files, m).Some? <==> |FileDocuments(files)| == |files|
    decreases |files|
  {
    if |files| > 0 {
      var f := files[0];
      var s := ProcessDocument(ix, f.content, f.titleTerms, f.bodyTerms, f.fileName, m);
      if DocumentName(f.fileName).Some? {
        var name := DocumentName(f.fileName).value;
        var r := RegisterAll(AddDocument(ix, name, f.content), |ix.documents|, WeighTerms(f.titleTerms, f.bodyTerms), m);
        assert s == Some(r);
        IndexAllReachesEnd(r, files[1..], m);
        assert FileDocuments(files) == [Document(name, 0.0)] + FileDocuments(files[1..]);
      } else {
        assert s == None;
      }
    }
  }

  lemma {:induction false} FileDocumentsComplete(files: seq<ParsedFile>)
    ensures |FileDocuments(files)| == |files| <==>
      forall k | 0 <= k < |files| :: DocumentName(files[k].fileName).Some?
  {
    if |files| > 0 {
      FileDocumentsComplete(files[1..]);
      if DocumentName(files[0].fileName).Some? {
        assert forall k | 1 <= k < |files| :: files[k] == files[1..][k - 1];
        if |FileDocuments(files)| == |files| {
          assert forall k | 0 <= k < |files| :: DocumentName(files[k].fileName).Some? by {
            forall k | 0 <= k < |files|
              ensures DocumentName(files[k].fileName).Some?
            {
              if k > 0 {
                assert files[k] == files[1..][k - 1];
              }
            }
          }
        }
      }
    }
  }

  /** A successful first pass leaves a well-formed index in first-pass
      shape. */
  lemma {:induction false} IndexAllWellFormed(ix: Index, files: seq<ParsedFile>, m: Math)
    requires WellFormed(ix) && FirstPassShape(ix)
    ensures IndexAll(ix, files, m).Some? ==>
      WellFormed(IndexAll(ix, files, m).value) && FirstPassShape(IndexAll(ix, files, m).value)
    decreases |files|
  {
    if |files| > 0 && IndexAll(ix, files, m).Some? {
      var f := files[0];
      var ix1 := IndexAllStep(ix, files, m);
      ProcessDocumentWellFormed(ix, f.content, f.titleTerms, f.bodyTerms, f.fileName, m);
      ProcessDocumentShape(ix, f.content, f.titleTerms, f.bodyTerms, f.fileName, m);
      IndexAllWellFormed(ix1, files[1..], m);
    }
  }

  /** The documents a pass over `files` appends: one per file, named after
      it, with norm accumulator 0, up to the first file without a name part. */
  function FileDocuments(files: seq<ParsedFile>): (ds: seq<Document>)
    ensures |ds| <= |files|
  {
    if |files| == 0 then []
    else match DocumentName(files[0].fileName)
      case None => []
      case Some(name) => [Document(name, 0.0)] + FileDocuments(files[1..])
  }

  lemma {:induction false} FileDocumentsAt(files: seq<ParsedFile>, k: nat)
    requires k < |FileDocuments(files)|
    ensures DocumentName(files[k].fileName).Some?
    ensures FileDocuments(files)[k] == Document(DocumentName(files[k].fileName).value, 0.0)
  {
    if k > 0 {
      FileDocumentsAt(files[1..], k - 1);
    }
  }

  /** The cache after a pass over `files` from document id `n`: each file's
      content is put under its document id. */
  function CacheAfter(c: map<nat, Content>, n: nat, files: seq<ParsedFile>): map<nat, Content>
    decreases |files|
  {
    if |files| == 0 then c else CacheAfter(c[n := files[0].content], n + 1, files[1..])
  }

  lemma {:induction false} CacheAfterKeeps(c: map<nat, Content>, n: nat, files: seq<ParsedFile>, d: nat)
    requires d < n
    ensures d in CacheAfter(c, n, files) <==> d in c
    ensures d in c ==> CacheAfter(c, n, files)[d] == c[d]
    decreases |files|
  {
    if |files| > 0 {
      CacheAfterKeeps(c[n := files[0].content], n + 1, files[1..], d);
    }
  }

  lemma {:induction false} CacheAfterAt(c: map<nat, Content>, n: nat, files: seq<ParsedFile>, k: nat)
    requires k < |files|
    ensures n + k in CacheAfter(c, n, files) && CacheAfter(c, n, files)[n + k] == files[k].content
    decreases k
  {
    var c1 := c[n := files[0].content];
    if k == 0 {
      CacheAfterKeeps(c1, n + 1, files[1..], n);
    } else {
      CacheAfterAt(c1, n + 1, files[1..], k - 1);
      assert files[1..][k - 1] == files[k];
    }
  }

  /** A successful pass appends exactly one document per file and puts each
      file's content in the cache under its document id. */
  lemma {:induction false} IndexAllExtends(ix: Index, files: seq<ParsedFile>, m: Math)
    requires TermIdsInRange(ix)
    requires IndexAll(ix, files, m).Some?
    ensures |FileDocuments(files)| == |files|
    ensures var r := IndexAll(ix, files, m).value;
      && r.documents == ix.documents + FileDocuments(files)
      && r.cache == CacheAfter(ix.cache, |ix.documents|, files)
    decreases |files|
  {
    if |files| > 0 {
      var ix1 := IndexAllStep(ix, files, m);
      IndexAllExtends(ix1, files[1..], m);
      var d := Document(DocumentName(files[0].fileName).value, 0.0);
      assert FileDocuments(files) == [d] + FileDocuments(files[1..]);
      ConcatAssoc(ix.documents, [d], FileDocuments(files[1..]));
    }
  }

  /** The k-th file becomes document |documents| + k, named after its file,
      with its content cached. */
  lemma IndexAllDocument(ix: Index, files: seq<ParsedFile>, m: Math, k: nat)
    requires TermIdsInRange(ix)
    requires IndexAll(ix, files, m).Some? && k < |files|
    ensures var r := IndexAll(ix, files, m).value;
      && |ix.documents| + k < |r.documents|
      && DocumentName(files[k].fileName) == Some(r.documents[|ix.documents| + k].name)
      && |ix.documents| + k in r.cache && r.cache[|ix.documents| + k] == files[k].content
  {
    IndexAllExtends(ix, files, m);
    PassDocumentAt(ix, IndexAll(ix, files, m).value, files, k);
  }

  lemma {:induction false} PassDocumentAt(ix: Index, r: Index, files: seq<ParsedFile>, k: nat)
    requires k < |files| && |FileDocuments(files)| == |files|
    requires r.documents == ix.documents + FileDocuments(files)
    requires r.cache == CacheAfter(ix.cache, |ix.documents|, files)
    ensures |ix.documents| + k < |r.documents|
    ensures DocumentName(files[k].fileName) == Some(r.documents[|ix.documents| + k].name)
    ensures |ix.documents| + k in r.cache && r.cache[|ix.documents| + k] == files[k].content
  {
    var n := |ix.documents|;
    FileDocumentsAt(files, k);
    CacheAfterAt(ix.cache, n, files, k);
  }

  /** The documents already indexed keep their cache entries. */
  lemma IndexAllKeepsCache(ix: Index, files: seq<ParsedFile>, m: Math, d: nat)
    requires TermIdsInRange(ix) && CacheComplete(ix)
    requires IndexAll(ix, files, m).Some? && d in ix.cache
    ensures var r := IndexAll(ix, files, m).value;
      d in r.cache && r.cache[d] == ix.cache[d]
  {
    IndexAllExtends(ix, files, m);
    CacheAfterKeeps(ix.cache, |ix.documents|, files, d);
  }

  /** One step of the first pass: the first file is indexed into `next`, and
      the rest of the pass starts from there. */
  lemma IndexAllStep(ix: Index, files: seq<ParsedFile>, m: Math) returns (next: Index)
    requires TermIdsInRange(ix)
    requires IndexAll(ix, files, m).Some? && |files| > 0
    ensures TermIdsInRange(next)
    ensures DocumentName(files[0].fileName).Some?
    ensures next.documents == ix.documents + [Document(DocumentName(files[0].fileName).value, 0.0)]
    ensures next.cache == ix.cache[|ix.documents| := files[0].content]
    ensures ProcessDocument(ix, files[0].content, files[0].titleTerms, files[0].bodyTerms, files[0].fileName, m) == Some(next)
    ensures IndexAll(ix, files, m) == IndexAll(next, files[1..], m)
  {
    var f := files[0];
    var name := DocumentName(f.fileName).value;
    var v := WeighTerms(f.titleTerms, f.bodyTerms);
    next := RegisterAll(AddDocument(ix, name, f.content), |ix.documents|, v, m);
    assert ProcessDocument(ix, f.content, f.titleTerms, f.bodyTerms, f.fileName, m) == Some(next);
    RegisterAllKeepsDocuments(AddDocument(ix, name, f.content), |ix.documents|, v, m);
  }
}

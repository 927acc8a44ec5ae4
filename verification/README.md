# A Dafny model of a small TF-IDF search engine

This project models the indexing and retrieval core of a small Java search
engine (package `ti`):

- the two-pass indexer: per-document term weighting, document and term
  registration, the second pass (idf, reweighing, document norms, direct
  index);
- the three ranking models: TF-IDF cosine (with and without Rocchio
  pseudo-relevance feedback), binary cosine and an Okapi BM25 variant;
- the two document processors;
- the snippet extractor;
- the paging loop of the interactive console.

The index is an immutable record (`IndexStore.Index`) holding:

- a vocabulary (term to term id and idf);
- the inverted index (one posting list of document id and weight per term id);
- the direct index;
- the documents (name and norm);
- a cache of parsed documents.

Every operation is a pure function over it.

Weights are `real`. `Math.log`, `Math.log10` and `Math.sqrt` are function
values carried in a `Numerics.Math` record. Each property that needs a fact
about them (for example `ln(x) > 0` for `x > 1`) states that fact as a
precondition.

The model keeps the source's behaviour as written, including its quirks.
Each of these is stated and proved:

- **Cosine accumulation lookup.** When accumulating scores, the cosine model
  looks up an existing result whose *document* id equals the current *term*
  id. A document is therefore split over several results, or credited with
  another document's score.
- **Rocchio merge of document ids.** The Rocchio merge adds the feedback
  results' document ids into the term-id-keyed query vector.
- **Okapi query vector.** Okapi's query vector keeps every term occurrence,
  because its duplicate test compares a bare id with tuples. Its idf is not
  clamped, so it is negative for a term in more than half the documents.
- **All-ASCII bodies.** The snippet extractor turns an all-ASCII body into the
  single sentence `" ."`.
- **Closing `[...]`.** The snippet always ends with `[...]`.
- **Leading `[...] `.** It can carry a leading `[...] ` although nothing is
  left out. It can also lack one although a word is left out.
- **Last page.** When the result count is a multiple of ten, the console's
  last page prints nothing.

Modules, one per file:

| file | module | models |
|---|---|---|
| seqs.dfy | `Seqs` | sequence helpers: `Option`, distinctness, de-duplication, filtering, flattening |
| numerics.dfy | `Numerics` | `Math` (ln, log10, sqrt) and the facts about it that properties assume |
| java_strings.dfy | `JavaStrings` | `String.split` by a character class or a run of one, `replaceAll` with a literal, `length()` in UTF-16 units |
| tally.dfy | `Tally` | the "scan for the key, add or append" lists of (key, weight) tuples |
| groups.dfy | `Groups` | the `HashMap<Integer, ArrayList<...>>` grouping by document id |
| sorting.dfy | `Sorting` | the descending `Collections.sort` by score |
| index_store.dfy | `IndexStore` | the index record and its invariants |
| indexer.dfy | `Indexer` | `Indexer.processDocument` after the file read, and the first pass over a collection |
| second_pass.dfy | `SecondPass` | `Indexer.secondPass` |
| cosine.dfy | `Cosine` | `Cosine` |
| feedback.dfy | `Feedback` | `CosineWithFeedback` |
| binary_cosine.dfy | `BinaryCosine` | `BinaryCosine` |
| okapi.dfy | `Okapi` | `Okapi` |
| processors.dfy | `Processors` | `SimpleProcessor` and `HtmlProcessor` |
| snippet.dfy | `Snippet` | `SnippetProcessor` |
| interactive.dfy | `Interactive` | the paging loop and result window of `Interactive` |

## Model

| member | source | states |
|---|---|---|
| IndexStore.EmptyIndexWellFormed | src/ti/Indexer.java:42 | A freshly created index satisfies every first-pass invariant: dense term ids, addressable postings, ordered lists, a complete cache, no direct postings. |
| Indexer.WeighTermsKeys | src/ti/Indexer.java:199-230 | The per-document term list has one entry per distinct term, with no duplicates. Title terms come first, then body-only terms, each in order of first occurrence. |
| Indexer.WeighTermsCounts | src/ti/Indexer.java:202-230 | A term's raw count is 2 per title occurrence plus 1 per body occurrence, accumulated across both fields. |
| Indexer.WeighTermsPositive | src/ti/Indexer.java:210-228 | Every listed term has a count of at least 1. |
| Indexer.DocumentNameSpec | src/ti/Indexer.java:233-235 | The document name is the file name up to its first '.'. The name fails (the `[0]` access is out of bounds) exactly for a non-empty file name made only of dots. |
| Indexer.RegisterVocabulary | src/ti/Indexer.java:241-246 | One registration step keeps term ids dense and leaves known terms' entries unchanged. An unseen term gets id equal to the inverted index's length and idf 0. Documents, direct index and cache are untouched. |
| Indexer.RegisterPostings | src/ti/Indexer.java:246-247 | One registration step appends (docId, 1 + ln(count)) to the term's own posting list and to no other. |
| Indexer.RegisterAllDense | src/ti/Indexer.java:241-248 | The registration loop keeps ids dense, so vocabulary size equals the inverted index's length. |
| Indexer.RegisterAllVocabulary | src/ti/Indexer.java:241-245 | The vocabulary gains exactly the document's terms it lacked. Known terms keep their id and idf. |
| Indexer.RegisterAllNewTerms | src/ti/Indexer.java:243-244 | A term added by the loop gets an id beyond all existing lists and idf 0 until the second pass. |
| Indexer.RegisterAllPostings | src/ti/Indexer.java:241-248 | Each of the document's distinct terms gains exactly one posting (docId, 1 + ln(count)). Every other list is unchanged. |
| Indexer.RegisterAllOrdered | src/ti/Indexer.java:241-248 | Appending a new, larger document id keeps every posting list non-empty and strictly increasing in document id, with ids at most the new one. |
| Indexer.ProcessDocument | src/ti/Indexer.java:195-248 | Indexing one document keeps every term id addressing a posting list. |
| Indexer.AddDocument | src/ti/Indexer.java:237-240 | Registering a document (name, norm 0, empty direct slot, cached content) keeps term ids in range. |
| Indexer.ProcessDocumentRegisters | src/ti/Indexer.java:233-248 | The call fails exactly when the file name has no name part. On success: the document's id is the previous document count, norm accumulator 0, an empty direct slot and its content cached; ids stay dense; the vocabulary gains exactly the new terms of title and body. |
| Indexer.AddThenRegister | src/ti/Indexer.java:237-248 | Registering the document and then its terms appends exactly one document, one direct slot and one cache entry. The vocabulary grows by the new terms and known terms keep their entries. |
| Indexer.ProcessDocumentPostings | src/ti/Indexer.java:199-248 | The list of every term occurring in the document gains exactly one posting at its end: (new id, 1 + ln(2·title occurrences + body occurrences)). Every other list is unchanged. |
| Indexer.DocumentPostingAtLeastOne | src/ti/Indexer.java:247 | If ln is non-negative from 1 on, every first-pass posting weight is at least 1. |
| Indexer.ProcessDocumentWellFormed | src/ti/Indexer.java:199-248 | Indexing a document preserves the index invariants: dense ids; postings naming existing documents; non-empty, strictly increasing lists; one direct slot and one cache entry per document. |
| Indexer.ProcessDocumentShape | src/ti/Indexer.java:237-238 | Indexing a document keeps the first-pass shape: no direct postings yet, every norm accumulator 0. |
| Indexer.IndexAllSucceeds | src/ti/Indexer.java:77-96 | The first pass over a collection succeeds exactly when every file name has a name part. The failure is not an `IOException`, so it is not caught. |
| Indexer.IndexAllWellFormed | src/ti/Indexer.java:77-96 | A successful first pass preserves every index invariant and the first-pass shape. |
| Indexer.IndexAllExtends | src/ti/Indexer.java:79-83 | A successful pass appends exactly one document per file, in order. It caches each file's content under its document id. |
| Indexer.IndexAllDocument | src/ti/Indexer.java:83 | The k-th file becomes document (previous document count + k), named after its file, with its content cached. |
| Indexer.IndexAllKeepsCache | src/ti/Indexer.java:240 | Documents indexed earlier keep their cache entries. |
| Indexer.IndexAllStep | src/ti/Indexer.java:79-83 | The pass indexes the first file with `processDocument` and continues from the resulting index. |
| SecondPass.WellFormedIsReady | src/ti/Indexer.java:130-138 | A first-pass index is ready for the second pass: ids are dense (one term per id, one id per list), no posting list is empty (no division by a zero document frequency), and every id addresses a list, document and direct slot. |
| SecondPass.SecondPassIdf | src/ti/Indexer.java:130-135 | Each term stores idf = ln(1 + N/df) with df the length of its own list, and keeps its id. If ln(x) > 0 for x > 1, every idf is positive. |
| SecondPass.SecondPassReweighs | src/ti/Indexer.java:136-137 | Every posting keeps its document. Its weight is multiplied by the idf stored for its term. |
| SecondPass.TransposedMember | src/ti/Indexer.java:146-150 | (t, w) is in row d of the transpose exactly when (d, w) is in list t. |
| SecondPass.TransposedIncreasing | src/ti/Indexer.java:146-150 | When no list names a document twice, its transposed row lists term ids in strictly increasing order. |
| SecondPass.BuildDirectRow | src/ti/Indexer.java:146-150 | The direct-index loop leaves each row as its prior contents followed by the transposed row. |
| SecondPass.AccumulateNormsAt | src/ti/Indexer.java:136-139 | Each document's accumulator grows by exactly the sum of the squares of its new weights. |
| SecondPass.SecondPassTranspose | src/ti/Indexer.java:146-150 | After the pass, (t, w) is in document d's new direct postings exactly when (d, w) is in the reweighed list of t. Those postings come by increasing term id. |
| SecondPass.SecondPassNorm | src/ti/Indexer.java:136-138 | A document keeps its name, and its norm is sqrt(prior accumulator + sum of squared new weights). If sqrt is non-negative and the prior accumulator is non-negative, the norm is non-negative. |
| SecondPass.SecondPassFromFirstPass | src/ti/Indexer.java:130-163 | After a first pass, every direct row is exactly the transposed row. Every norm is the square root of the sum of the squares of that row's weights. |
| Cosine.CountTermsVector | src/ti/Cosine.java:93-110 | The counting loop is a keyed tally of the known term ids, one unit per occurrence. |
| Cosine.CountTermsKeys | src/ti/Cosine.java:93-110 | The counting loop lists each known id once, in order of first occurrence. |
| Cosine.CountTermsAmounts | src/ti/Cosine.java:93-110 | The counting loop gives each id its number of occurrences. |
| Cosine.CountTermsIdfs | src/ti/Cosine.java:103-106 | The parallel idf list stays aligned: entry i holds the idf of the first query term carrying the i-th id. |
| Cosine.QueryVectorKeys | src/ti/Cosine.java:93-116 | The query vector holds one entry per distinct known term id, in order of first occurrence. An id is present exactly when some known query term carries it. |
| Cosine.QueryVectorEntry | src/ti/Cosine.java:113-116 | Each entry weighs (1 + ln(tf))·idf, with tf the id's number of occurrences. |
| Cosine.QueryVectorWeight | src/ti/Cosine.java:93-116 | With dense ids, each known query term weighs (1 + ln(its occurrences))·its stored idf. |
| Cosine.QueryVectorSkipsUnknown | src/ti/Cosine.java:94 | Terms absent from the vocabulary are skipped: dropping them changes nothing. |
| Cosine.Accumulate | src/ti/Cosine.java:47-59 | One posting: when some result's document id equals the term id, the first such result gains weight·query weight and keeps its id, whatever document the posting names, and nothing else changes. Otherwise exactly one (posting document, weight·query weight) result is appended. The total score grows by exactly weight·query weight. |
| Cosine.AccumulateHit | src/ti/Cosine.java:48-58 | A posting of a term whose id keys a result updates that result only, so the keys stay and the next posting finds the same result. |
| Cosine.AccumulateListHitsOneResult | src/ti/Cosine.java:47-59 | Once a result is keyed by the term id, every posting of the term's list lands on that one result: it grows by the list's whole contribution and nothing else changes. |
| Cosine.AccumulateAllShape | src/ti/Cosine.java:44-61 | Every accumulated result is keyed by a document with a posting for some query term. At most one result is created per posting, and one exists as soon as any posting does. |
| Cosine.AccumulateAllMass | src/ti/Cosine.java:44-61 | The total score grows by exactly the sum over query terms of query weight times list weight: nothing is lost, wherever the lookup puts it. |
| Cosine.AccumulateAllAppend | src/ti/Cosine.java:44-61 | The outer loop over a concatenated query vector is the loop over its first part, continued over the second. |
| Cosine.AccumulateListZero | src/ti/Cosine.java:48-59 | A zero-weight query term whose id already keys a result leaves the results unchanged: each posting finds that result and adds 0. |
| Cosine.AccumulateAllZero | src/ti/Cosine.java:44-61 | A run of such zero-weight terms leaves the results unchanged. |
| Cosine.AccumulateSplitsDocument | src/ti/Cosine.java:48-59 | Because the lookup compares a document id with the term id, one document can get two results. |
| Cosine.AccumulateMisattributes | src/ti/Cosine.java:50-58 | Because of the same lookup, one document can absorb another's contribution, and the other never appears. |
| Cosine.QueryNormIsNotEuclidean | src/ti/Cosine.java:45-62 | `qNorm` is the square root of the plain sum of the query weights, not of their squares. For a one-term query of weight w (w > 0, w ≠ 1), qNorm squared is w and qNorm differs from sqrt(w·w). |
| Cosine.Normalise | src/ti/Cosine.java:63-65 | Each score is divided by qNorm times its document's norm, and the ids are kept. |
| Cosine.AccumulationDivisible | src/ti/Cosine.java:63-65 | Every accumulated result names a candidate document, so the division is defined whenever every candidate's divisor is nonzero. |
| Cosine.ComputeScores | src/ti/Cosine.java:39-77 | The ranking is sorted by non-increasing score and names only documents with a posting for some query term. It is empty exactly when no query term has a posting, in particular for an empty query vector. |
| Cosine.ComputeScoresPermutes | src/ti/Cosine.java:63-75 | The ranking is a permutation of the normalised accumulation. |
| Cosine.QueryVectorInRange | src/ti/Cosine.java:46 | Every query-vector id addresses a posting list. |
| Cosine.RunQuery | src/ti/Cosine.java:19-30 | The query's ranking is sorted, and a query with no known term gives no results. |
| Feedback.TopK | src/ti/CosineWithFeedback.java:50-58 | The feedback set is all results when there are at most `feedbackDepth`, otherwise exactly the first `feedbackDepth`. |
| Feedback.TopKKeepsBest | src/ti/CosineWithFeedback.java:48-58 | On a ranking, no dropped result scores above a kept one. |
| Feedback.BetaPartKeys | src/ti/CosineWithFeedback.java:101-113 | The beta part has one entry per distinct result id, in order of first occurrence. |
| Feedback.BetaPartWeight | src/ti/CosineWithFeedback.java:101-116 | Each beta entry holds beta times the sum of that id's scores. |
| Feedback.FeedbackVectorShape | src/ti/CosineWithFeedback.java:83-130 | The merged vector keeps the original ids in their positions. Its length is the length of q plus the number of distinct result ids not in q. |
| Feedback.FeedbackVectorWeight | src/ti/CosineWithFeedback.java:83-130 | Every id weighs alpha·(its query weight) + beta·(sum of its scores among the results). Result document ids are merged as if they were term ids. |
| Feedback.FeedbackNeverSubtracts | src/ti/CosineWithFeedback.java:89-140 | With beta ≥ 0 and non-negative scores, no id ends below alpha times its query weight. The gamma part is commented out. |
| Feedback.FeedbackNeutral | src/ti/CosineWithFeedback.java:83-130 | With alpha = 1 and beta = 0, the vector starts with q itself and every appended entry weighs 0. |
| Feedback.NeutralMergeAppendsZeros | src/ti/CosineWithFeedback.java:83-130 | With alpha = 1 and beta = 0, the merged vector is q followed by zero-weight entries, each carrying the id of a feedback result. |
| Feedback.TopIdsAreAccumulated | src/ti/CosineWithFeedback.java:48-58 | The id of every top result keys a result of the accumulation it was ranked from. |
| Feedback.ZeroEntriesKeepScores | src/ti/Cosine.java:39-77 | Appending zero-weight entries whose ids key accumulated results leaves the ranking unchanged: the accumulation and `qNorm` are the same. |
| Feedback.NeutralFeedbackIsCosine | src/ti/CosineWithFeedback.java:38-68 | With alpha = 1 and beta = 0, `CosineWithFeedback` returns exactly the ranking of `Cosine`. This relies on the value equality of `Integer` ids. |
| Feedback.FeedbackQuery | src/ti/CosineWithFeedback.java:38-68 | The rescored ranking is sorted and names only candidates of the merged vector. |
| BinaryCosine.BinaryVector | src/ti/BinaryCosine.java:79-92 | The query vector holds each query term id once, and exactly the ids of the query terms. |
| BinaryCosine.BinaryVectorIsDedup | src/ti/BinaryCosine.java:85-90 | The query vector is the de-duplication of the term ids, in order of first occurrence. |
| BinaryCosine.BinaryVectorInRange | src/ti/BinaryCosine.java:41 | The vector's ids address posting lists. |
| BinaryCosine.MatchesAreContainingTerms | src/ti/BinaryCosine.java:39-50 | When each list names a document at most once, a document's match list is exactly the query terms whose postings contain it, in query order. It is no longer than the query vector. |
| BinaryCosine.ComputeScores | src/ti/BinaryCosine.java:31-70 | Every document with a posting for some query term appears exactly once, and no other. The ranking is sorted; an empty query vector gives none. |
| BinaryCosine.ScoreOfDocument | src/ti/BinaryCosine.java:53-57 | Each ranked document scores c / (sqrt(c)·sqrt(n)), with c its match count (at least 1) and n the query size. |
| BinaryCosine.SimilarityIsRatio | src/ti/BinaryCosine.java:56 | With an exact square root, the score is sqrt(c)/sqrt(n) and positive. |
| BinaryCosine.SimilarityGrows | src/ti/BinaryCosine.java:56 | More matches never score lower. |
| BinaryCosine.SimilarityGrowsStrictly | src/ti/BinaryCosine.java:56 | With an exact square root, more matches score strictly higher. |
| BinaryCosine.SimilarityAtMostOne | src/ti/BinaryCosine.java:56 | The score is at most 1, and exactly 1 when every query term matches. |
| BinaryCosine.RunQuery | src/ti/BinaryCosine.java:11-22 | The ranking is sorted, holds each document once, and is empty for an empty query. |
| BinaryCosine.ScoresFollowMatches | src/ti/BinaryCosine.java:52-69 | In the ranking of any query vector, a document with more recorded matches comes strictly before one with fewer. |
| BinaryCosine.MoreMatchesRankFirst | src/ti/BinaryCosine.java:11-69 | In the result of `runQuery`, a document matching more query terms is ranked strictly before one matching fewer, whatever the order among equal scores. |
| BinaryCosine.RunQueryRanksMatchingDocuments | src/ti/BinaryCosine.java:39-58 | A document is ranked exactly when some query term's list names it. |
| Okapi.OkapiVector | src/ti/Okapi.java:93-115 | The vector holds the ids of the query terms in order, repetitions included. Each weighs log10((N − df + 0.5)/(df + 0.5)). |
| Okapi.OkapiVectorKeepsRepeats | src/ti/Okapi.java:99-105 | The de-duplication never fires: there is one entry per term occurrence, and equal ids carry equal weights. |
| Okapi.IdfArgumentBelowOne | src/ti/Okapi.java:111 | The log10 argument is below 1 exactly when df > N/2. |
| Okapi.IdfNegativeAboveHalf | src/ti/Okapi.java:111 | If log10 is negative below 1, a term in more than half (but not more than all) of the documents weighs below 0: no clamping. |
| Okapi.TermScoreIsSaturation | src/ti/Okapi.java:51-69 | With k = 2 and b = 0.75, a posting contributes the query weight times 3w/(w + 2). |
| Okapi.SaturationBounds | src/ti/Okapi.java:69 | For w ≥ 0 the factor 3w/(w + 2) lies in [0, 3). |
| Okapi.SaturationGrows | src/ti/Okapi.java:69 | For w ≥ 0 the factor never decreases in w. |
| Okapi.TermScoreGrows | src/ti/Okapi.java:69 | With a non-negative query weight, a larger document weight never lowers the contribution. |
| Okapi.TermScoreFallsForNegativeWeight | src/ti/Okapi.java:69 | For every negative query weight and document weights 0 ≤ w1 < w2, the contribution for w2 is strictly below that for w1: a document using a term in more than half the documents more often scores lower. |
| Okapi.Advance | src/ti/Okapi.java:61-62 | The pointer moves to the first position from j on holding the term. It fails exactly when no such position exists, which would throw `IndexOutOfBoundsException`. |
| Okapi.OkapiGroups | src/ti/Okapi.java:38-49 | The map holds one group per document with a posting for some query term. Each group holds the (term, weight) pairs recorded for it, in query order, and its walk never runs past the query vector. |
| Okapi.WalkCompletes | src/ti/Okapi.java:56-71 | From any start up to a term's position, the walk over a document's pairs completes. On a query vector whose equal ids have equal weights, it sums weight·saturation over the document's postings. |
| Okapi.ComputeScores | src/ti/Okapi.java:30-84 | Every document with a posting for some query term appears exactly once, and no other. The ranking is sorted; an empty query vector gives none. |
| Okapi.ScoreOfDocument | src/ti/Okapi.java:56-71 | On such a consistent query vector, each ranked document scores the sum over query entries and its postings of weight times saturation. |
| Okapi.RunQuery | src/ti/Okapi.java:11-21 | The ranking is sorted, holds each document once, and is empty for an empty query. |
| Okapi.RunQueryScores | src/ti/Okapi.java:11-21 | For the query terms' own vector, each ranked document scores that reference sum. |
| Processors.SimpleParse | src/ti/SimpleProcessor.java:19-22 | `parse` returns an empty title and the text unchanged as body. |
| Processors.Clean | src/ti/SimpleProcessor.java:29 | Every character outside `[a-z0-9']` becomes a space, the rest stay, and the length is kept. |
| Processors.SimpleTerms | src/ti/SimpleProcessor.java:27-37 | Every term has at least 5 characters. The terms are an in-order selection of the split pieces. |
| Processors.SimpleTermsAreLongWords | src/ti/SimpleProcessor.java:29-35 | The terms are exactly the cleaned text's words longer than four characters, in order. Empty split pieces never survive. |
| Processors.SimpleTermChars | src/ti/SimpleProcessor.java:29 | Every term character is in `[a-z0-9']`. |
| Processors.NewHtmlProcessor | src/ti/HtmlProcessor.java:29-51 | Without a stopword file there is no set. Otherwise the set is exactly the normalised lines. |
| Processors.IsStopWord | src/ti/HtmlProcessor.java:130-135 | Without a set, nothing is a stopword. Otherwise a term is a stopword exactly when it is in the set. |
| Processors.Stem | src/ti/HtmlProcessor.java:143-151 | `stem` is the identity. |
| Processors.TokenizeShape | src/ti/HtmlProcessor.java:98-109 | The non-empty tokens are the words of the text. Only the first token can be empty, and a text starting with white space gives a leading empty token. |
| Processors.ProcessText | src/ti/HtmlProcessor.java:72-90 | The terms are exactly the tokens of the normalised "title body" that are not stopwords, in order. Without a set, all tokens are kept. |
| JavaStrings.FieldsContent | src/ti/SnippetProcessor.java:109 | The pieces of a split contain no separator, and together they hold exactly the non-separator characters, in order. |
| JavaStrings.NonEmptyJavaSplit | src/ti/SnippetProcessor.java:128-132 | Whatever the split flavour, its non-empty pieces are the words of the text. |
| JavaStrings.RunSplitEmptyOnlyFirst | src/ti/HtmlProcessor.java:104 | A split on `\s+` yields an empty piece only in first position. |
| JavaStrings.RunSplitLeadingEmpty | src/ti/HtmlProcessor.java:104 | A text starting with white space and holding a non-space character splits into "" followed by its words. |
| JavaStrings.WordsContent | src/ti/SnippetProcessor.java:128-132 | Words are non-empty, free of separators, and together hold the text's other characters in order. |
| JavaStrings.Utf16LengthAppend | src/ti/SnippetProcessor.java:51 | `length()` of a concatenation is the sum of the lengths. |
| Tally.AddSpec | src/ti/Indexer.java:203-214 | One scan-and-add step: the key is appended if new, and only that key's amount grows by the added amount. |
| Tally.AddAllSpec | src/ti/Indexer.java:202-230 | The folded list's keys are the old keys followed by the new ones in order of first occurrence. Each key holds its old amount plus all its contributions. |
| Tally.AddAllShape | src/ti/CosineWithFeedback.java:119-130 | Merging keeps keys distinct and existing entries in place. It appends one entry per new key. |
| Tally.AddAllMerge | src/ti/CosineWithFeedback.java:119-130 | Merging a list with distinct keys adds the two amounts of every key. |
| Tally.AmountOfScale | src/ti/CosineWithFeedback.java:114-116 | Scaling multiplies every key's amount. |
| Groups.PutSpec | src/ti/BinaryCosine.java:42-48 | One `put`/`add` step: a new key's group is created at the end, and only that key's group gains the value. |
| Groups.PutAllSpec | src/ti/BinaryCosine.java:40-50 | Grouping items creates one group per new key, in order of first occurrence. Each group receives exactly its items' values, in order. |
| Groups.GroupedVisits | src/ti/Okapi.java:38-49 | The map holds one non-empty group per visited document, holding exactly the values recorded for it. |
| Groups.VisitedDocuments | src/ti/BinaryCosine.java:39-50 | A document is visited exactly when some query term's list names it. |
| Sorting.SortByScore | src/ti/Cosine.java:68-75 | The sort yields a permutation ordered by non-increasing score. |
| Sorting.SortKeepsKeys | src/ti/BinaryCosine.java:61-68 | Sorting keeps the set of documents, and distinct documents stay distinct. |
| Snippet.AsciiCollapse | src/ti/SnippetProcessor.java:106 | An all-ASCII text becomes a single space. |
| Snippet.TokenizeSentence | src/ti/SnippetProcessor.java:101-115 | Every sentence is non-empty and ends with '.'. |
| Snippet.TokenizeSentenceContent | src/ti/SnippetProcessor.java:109-113 | The sentences are the non-empty pieces between `,` `.` `?` `!`, each with a period appended. |
| Snippet.AsciiBodyIsOneSentence | src/ti/SnippetProcessor.java:106-113 | An all-ASCII body, the empty one included, gives the single sentence " .". |
| Snippet.Tokenize | src/ti/SnippetProcessor.java:123-134 | No token is empty. |
| Snippet.TokenizeIsWords | src/ti/SnippetProcessor.java:127-133 | The tokens are the words of the text: free of white space, holding its other characters in order. |
| Snippet.WordHits | src/ti/SnippetProcessor.java:22-26 | A word is recorded once per equal query token. |
| Snippet.SentenceHitsContain | src/ti/SnippetProcessor.java:19-28 | Word k is in its sentence's hit list exactly when its normalised form equals a query token. |
| Snippet.Anchor | src/ti/SnippetProcessor.java:30-35 | The anchor has the maximal hit count and is the first sentence with it, since only a strictly larger count moves it. |
| Snippet.PieceLength | src/ti/SnippetProcessor.java:49-55 | A hit costs its length plus 3 (`*w* `), any other word plus 1 (`w `). |
| Snippet.Render | src/ti/SnippetProcessor.java:49-55 | Word j is starred exactly when j is in its sentence's hit list. |
| Snippet.ForwardSpec | src/ti/SnippetProcessor.java:48-56 | A forward walk takes pieces while the count, checked before each piece, is below 305. The count equals the length of the text taken. |
| Snippet.BackwardSpec | src/ti/SnippetProcessor.java:61-71 | A backward walk prepends pieces while under budget and keeps them in original order. The count equals the text length. |
| Snippet.FirstPassEnd | src/ti/SnippetProcessor.java:37-40 | The first pass covers the anchor and the next sentence, or only the anchor when it is last. |
| Snippet.ForwardRange | src/ti/SnippetProcessor.java:57-58 | The first loop's ellipsis test (`last == size`) and the continuation's (`i == size`) can never pass, so the flag is never cleared. |
| Snippet.Assemble | src/ti/SnippetProcessor.java:30-94 | Every snippet ends with "[...]". |
| Snippet.Description | src/ti/SnippetProcessor.java:10-95 | `description` always ends with "[...]". |
| Snippet.AssembleAroundParts | src/ti/SnippetProcessor.java:42-93 | A leading "[...] " is written exactly when the anchor is not the first sentence and the walk over sentence 0 did not end at index 0. Only without it do the sentences after the first pass follow. |
| Snippet.SnippetWhenEverythingFits | src/ti/SnippetProcessor.java:10-95 | When all words fit in the budget, a first-sentence anchor gives every word with hits starred, then "[...]". A later anchor gives "[...] ", the sentences up to the one after the anchor, then "[...]". |
| Snippet.FitsFromFirstSentence | src/ti/SnippetProcessor.java:42-93 | With the first sentence as anchor and everything fitting, all sentences are written, then "[...]". |
| Snippet.FitsFromLaterSentence | src/ti/SnippetProcessor.java:42-77 | With a later anchor and everything fitting, the snippet is "[...] ", the sentences up to the one after the anchor, and "[...]". |
| Snippet.LeadingEllipsisWithNothingLeftOut | src/ti/SnippetProcessor.java:42-76 | A snippet that leaves nothing out can still start with "[...] ". |
| Snippet.LeadingEllipsisMissingWhenFirstWordLeftOut | src/ti/SnippetProcessor.java:60-76 | A snippet that leaves out the first word gets no leading "[...] ". |
| Snippet.DescriptionStarsQueryWords | src/ti/SnippetProcessor.java:16-55 | In `description`, a word is starred exactly when its normalised form is a token of the normalised query. |
| Snippet.AsciiBodySnippet | src/ti/SnippetProcessor.java:106-113 | An all-ASCII body gives ". [...]", or "*.* [...]" when "." normalises to a query token. |
| Interactive.Window | src/ti/Interactive.java:95 | The printed positions are exactly the i with from ≤ i < from + count and i < size, in increasing order. |
| Interactive.PrintedPositions | src/ti/Interactive.java:91-107 | The `printResults` loop visits exactly that window. |
| Interactive.PagesPartitionResults | src/ti/Interactive.java:51-54 | Every result is printed on exactly one page, its tenth, and that page is reachable (at most size/10). |
| Interactive.LastPageEmptyOnMultiple | src/ti/Interactive.java:51-54 | When the result count is a multiple of 10, the last page (size/10) prints nothing. |
| Interactive.LastPageHoldsRemainder | src/ti/Interactive.java:51-54 | Otherwise the last page prints the remaining size mod 10 results. |
| Interactive.Navigate | src/ti/Interactive.java:62-73 | "p" goes back unless on page 0. "n" goes forward unless on the last page. "f" and an empty line end paging; any other answer stays. The page never leaves 0..pages. |
| Interactive.BackUndoesForward | src/ti/Interactive.java:62-69 | Away from the last page, "p" undoes "n". |
| Interactive.ForwardUndoesBack | src/ti/Interactive.java:62-69 | Away from page 0, "n" undoes "p". |
| Interactive.Paging | src/ti/Interactive.java:53-73 | Paging first shows the current page and reads no more lines than there are. |
| Interactive.PagingInRange | src/ti/Interactive.java:51-73 | Throughout paging, every page shown lies in 0..size/10 and prints its own window. |
| Interactive.PagingStopsAtFirstEnd | src/ti/Interactive.java:59-73 | Paging reads one answer per page shown and stops right after the first "f" or empty line. |
| Interactive.Answer | src/ti/Interactive.java:51-78 | A query with no results reads no paging answers. |
| Interactive.RunEvents | src/ti/Interactive.java:42-79 | "No results" is shown only for a non-empty query with zero results. Every page shown belongs to a query with results, lies in its reachable range, and prints its window. |
| Interactive.RunFirstEvent | src/ti/Interactive.java:42-79 | The first query line decides the first output: its first page, the "no results" message, or nothing (an empty query with no results ends the run). |

## Left out

- File and directory I/O are left out, because they do not affect what is indexed:
  - reading document files, the directory walk and its `.html` and hidden-directory filters;
  - timing and statistics output;
  - saving and loading the index.

  The first pass is modelled over the already read and processed files (`Indexer.ParsedFile`).
- `Index.java` is not part of this model. The index's shape is inferred from how the indexer and the ranking models use it.
- Floating point is modelled as `real`. IEEE rounding, NaN and infinities are not modelled.
  - A zero divisor in the cosine normalisation is excluded by a precondition (`Cosine.Scorable`).
  - A zero denominator in the Okapi factor is excluded by a precondition (`Okapi.NoPole`).
- `Math.log`, `Math.log10` and `Math.sqrt` are parameters; their numeric values are not modelled.
- Java `Integer ==` and `!=` compare references, not values. Two boxed ids are identical when they are one shared object, or equal values in the small-value cache. The model reads them as value equality:
  - in `Cosine.Accumulate` and the merges of `CosineWithFeedback`, where the two sides can be distinct objects with equal values;
  - in the pointer walk of `Okapi` (`Okapi.java:60-61`), where both sides are the vocabulary's own id objects, so identity and value equality agree.
- `HashMap` iteration order is modelled as follows:
  - In the second pass, terms are visited in term-id order. With dense ids each list is still visited once, and each norm is a sum of the same squares.
  - In `BinaryCosine` and `Okapi`, document groups are kept in order of first insertion. This only changes the order among equal scores.
- The order among equal scores after `Collections.sort` is left open. Only "permutation, sorted by non-increasing score" is stated.
- The second pass is modelled only on an index with dense ids (`SecondPass.Ready`). Every first pass produces one (`SecondPass.WellFormedIsReady`). On a vocabulary where two terms share an id, the source would reweigh that list once per term; the model does not cover such an index.
- Some inputs fail in the source and are preconditions here:
  - an unknown query term in `BinaryCosine` and `Okapi` (a `NullPointerException`) is excluded by `IndexStore.AllKnown`;
  - a query term id with no posting list is excluded by the `InRange` predicates.
- The Jsoup parse in `HtmlProcessor.parse`, `toLowerCase` and the `normalize` regular expressions are parameters. Reading the stopword file is the caller's job (`Processors.NewHtmlProcessor` takes its lines).
- Console I/O is not modelled: the `Scanner` and `System.out` are replaced by a sequence of input lines and a sequence of events.
  - `Interactive.Run` takes the number of results per query as a function. It stops when the lines run out, where the source would throw `NoSuchElementException`.
  - Printing a result's title and snippet (`getCachedDocument`, `description`) is not part of `Interactive`; the snippet itself is `Snippet.Description`.
- Okapi.ScoreOfDocument: the score equals the reference sum only on a query vector whose equal ids carry equal weights. Okapi's own vector always is one (`Okapi.OkapiVectorKeepsRepeats`), so `Okapi.RunQueryScores` holds unconditionally.

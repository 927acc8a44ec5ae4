/**
 The Okapi model (`Okapi`), a BM25-style ranking with the document-length
 normalisation fixed at 1.

 The query vector keeps one entry per query-term occurrence: the
 de-duplication test asks whether a list of (id, weight) pairs contains a
 bare id, which never holds. Each entry weighs `log10((N - df + 0.5) /
 (df + 0.5))`, negative when the term is in more than half the documents.
 A document's score is accumulated by walking its recorded (term id, weight)
 pairs with a forward pointer into the query vector.
 */
module Okapi {
  import opened Seqs
  import opened Numerics
  import opened Tally
  import opened Groups
  import opened Sorting
  import opened IndexStore

  // ---------------------------------------------------------------------------
  // Query vector (Okapi.java:93-115)

  /** `Math.log10((nd - ct + 0.5) / (ct + 0.5))` for `nd` documents and a
      term in `ct` of them. */
  function Idf(nd: nat, df: nat, m: Math): real
  {
    m.log10(IdfArgument(nd, df))
  }

  function IdfArgument(nd: nat, df: nat): real
  {
    ((nd as real) - (df as real) + 0.5) / ((df as real) + 0.5)
  }

  /** `computeVector`: the id and idf of every query term occurrence. */
  function OkapiVector(terms: seq<string>, ix: Index, m: Math): (v: seq<Entry<nat>>)
    requires AllKnown(terms, ix.vocabulary) && TermIdsInRange(ix)
    ensures Keys(v) == TermIds(terms, ix.vocabulary)
    ensures forall i | 0 <= i < |v| ::
      v[i].key < |ix.invertedIndex| && v[i].amount == Idf(|ix.documents|, |ix.invertedIndex[v[i].key]|, m)
  {
    seq(|terms|, i requires 0 <= i < |terms| =>
      var id := ix.vocabulary[terms[i]].id;
      Entry(id, Idf(|ix.documents|, |ix.invertedIndex[id]|, m)))
  }

  /** Equal ids carry equal weights. */
  ghost predicate Consistent(q: seq<Entry<nat>>)
  {
    forall a, b | 0 <= a < |q| && 0 <= b < |q| && q[a].key == q[b].key :: q[a].amount == q[b].amount
  }

  /** A repeated query term is weighed once per occurrence, all with the
      same weight. */
  lemma OkapiVectorKeepsRepeats(terms: seq<string>, ix: Index, m: Math)
    requires AllKnown(terms, ix.vocabulary) && TermIdsInRange(ix)
    ensures |OkapiVector(terms, ix, m)| == |terms|
    ensures Consistent(OkapiVector(terms, ix, m))
  {
    assert |Keys(OkapiVector(terms, ix, m))| == |terms|;
  }

  /** The idf argument drops below 1 exactly when the term is in more than
      half the documents. */
  lemma IdfArgumentBelowOne(nd: nat, df: nat)
    ensures IdfArgument(nd, df) < 1.0 <==> 2 * df > nd
  {
    var x, y := (nd as real) - (df as real) + 0.5, (df as real) + 0.5;
    assert y > 0.0;
    DivideBelowOne(x, y);
  }

  lemma DivideBelowOne(x: real, y: real)
    requires y > 0.0
    ensures x / y < 1.0 <==> x < y
  {
    assert (x / y) * y == x;
    if x / y < 1.0 {
      assert (x / y) * y < 1.0 * y;
    }
    if x < y {
      assert (x / y) * y < y;
    }
  }

  /** The weight is not clamped: a term in more than half (but not more
      than all) of the documents weighs below zero. */
  lemma IdfNegativeAboveHalf(nd: nat, df: nat, m: Math)
    requires Log10NegativeBelow1(m) && nd < 2 * df && df <= nd
    ensures Idf(nd, df, m) < 0.0
  {
    IdfArgumentBelowOne(nd, df);
    assert IdfArgument(nd, df) > 0.0;
  }

  // ---------------------------------------------------------------------------
  // Term factor (Okapi.java:52-53, 69)

  const K: real := 2.0
  const B: real := 0.75

  /** `doc.item2 + k*(1-b + b*1)`: the denominator, with both lengths 1. */
  function Denominator(w: real): real
  {
    w + K * (1.0 - B + B * 1.0)
  }

  /** `queryWeight * (w*(k+1)) / (w + k*(1-b + b*1))`. */
  function TermScore(qw: real, w: real): real
    requires Denominator(w) != 0.0
  {
    qw * (w * (K + 1.0)) / Denominator(w)
  }

  /** With k = 2 and b = 0.75 the contribution is the query weight times
      the saturation `3w / (w + 2)`. */
  lemma TermScoreIsSaturation(qw: real, w: real)
    requires w + 2.0 != 0.0
    ensures Denominator(w) == w + 2.0
    ensures TermScore(qw, w) == qw * Saturation(w)
  {
    var d := w + 2.0;
    assert qw * (w * 3.0) / d == qw * ((3.0 * w) / d);
  }

  function Saturation(w: real): real
    requires w + 2.0 != 0.0
  {
    3.0 * w / (w + 2.0)
  }

  /** For non-negative weights the saturation is non-negative, grows with
      the weight and stays below 3. */
  lemma SaturationBounds(w: real)
    requires w >= 0.0
    ensures 0.0 <= Saturation(w) < 3.0
  {
    var d := w + 2.0;
    assert 3.0 * w < 3.0 * d;
    DivideBelow(3.0 * w, 3.0, d);
  }

  lemma DivideBelow(x: real, c: real, d: real)
    requires d > 0.0 && x < c * d
    ensures x / d < c
  {
    assert (x / d) * d == x;
  }

  lemma SaturationGrows(w1: real, w2: real)
    requires 0.0 <= w1 <= w2
    ensures Saturation(w1) <= Saturation(w2)
  {
    // 3 w / (w + 2) = 3 - 6 / (w + 2)
    SaturationShape(w1);
    SaturationShape(w2);
    ReciprocalShrinks(w1 + 2.0, w2 + 2.0);
  }

  lemma SaturationShape(w: real)
    requires w + 2.0 > 0.0
    ensures Saturation(w) == 3.0 - 6.0 / (w + 2.0)
  {
    var d := w + 2.0;
    assert 3.0 * w == 3.0 * d - 6.0;
    assert (3.0 * d - 6.0) / d == 3.0 - 6.0 / d;
  }

  lemma ReciprocalShrinks(x: real, y: real)
    requires 0.0 < x <= y
    ensures 6.0 / y <= 6.0 / x
  {
    assert (6.0 / x) * x == 6.0;
    assert (6.0 / y) * y == 6.0;
  }

  /** A larger document weight never lowers a term's contribution when the
      query weight is non-negative. */
  lemma TermScoreGrows(qw: real, w1: real, w2: real)
    requires qw >= 0.0 && 0.0 <= w1 <= w2
    ensures TermScore(qw, w1) <= TermScore(qw, w2)
  {
    TermScoreIsSaturation(qw, w1);
    TermScoreIsSaturation(qw, w2);
    SaturationGrows(w1, w2);
    MulMonotone(qw, Saturation(w1), Saturation(w2));
  }

  lemma MulMonotone(c: real, x: real, y: real)
    requires c >= 0.0 && x <= y
    ensures c * x <= c * y
  {
  }

  /** With a negative query weight (a term in more than half the
      documents, `IdfNegativeAboveHalf`) a larger document weight strictly
      lowers the contribution: the more often a document uses such a term,
      the lower it scores. */
  lemma TermScoreFallsForNegativeWeight(qw: real, w1: real, w2: real)
    requires qw < 0.0 && 0.0 <= w1 < w2
    ensures TermScore(qw, w2) < TermScore(qw, w1)
  {
    TermScoreIsSaturation(qw, w1);
    TermScoreIsSaturation(qw, w2);
    SaturationShape(w1);
    SaturationShape(w2);
    ReciprocalShrinksStrictly(w1 + 2.0, w2 + 2.0);
    MulReverses(qw, Saturation(w1), Saturation(w2));
  }

  lemma ReciprocalShrinksStrictly(x: real, y: real)
    requires 0.0 < x < y
    ensures 6.0 / y < 6.0 / x
  {
    assert (6.0 / x) * x == 6.0;
    assert (6.0 / y) * y == 6.0;
    assert (6.0 / y) * x < (6.0 / y) * y;
  }

  lemma MulReverses(c: real, x: real, y: real)
    requires c < 0.0 && x < y
    ensures c * y < c * x
  {
  }

  // ---------------------------------------------------------------------------
  // Grouping and the pointer walk (Okapi.java:38-49, 56-71)

  /** The value the Okapi model records for a posting: the query term id and
      the posting's weight. */
  function WeightedTerm(t: nat, p: Posting): (nat, real)
  {
    (t, p.weight)
  }

  /** No recorded weight makes the denominator vanish. */
  ghost predicate NoPole(entries: seq<(nat, real)>)
  {
    forall k | 0 <= k < |entries| :: Denominator(entries[k].1) != 0.0
  }

  ghost predicate ListNoPole(ps: seq<Posting>)
  {
    forall j | 0 <= j < |ps| :: Denominator(ps[j].weight) != 0.0
  }

  /** Every posting of every query term can be scored. */
  ghost predicate Scorable(q: seq<Entry<nat>>, inv: seq<seq<Posting>>)
  {
    && VectorInRange(Keys(q), inv)
    && forall i | 0 <= i < |q| :: q[i].key < |inv| && ListNoPole(inv[q[i].key])
  }

  /** `while (doc.get(i).item1 != queryVector.get(j).item1) j++`: the first
      position from `j` on holding `t`, or none when the pointer would run
      past the end (an `IndexOutOfBoundsException`). */
  function Advance(ks: seq<nat>, j: nat, t: nat): (r: Option<nat>)
    ensures r.Some? ==> j <= r.value < |ks| && ks[r.value] == t
    ensures r.Some? ==> forall k | j <= k < r.value :: ks[k] != t
    ensures r.None? <==> forall k | j <= k < |ks| :: ks[k] != t
    decreases |ks| - j
  {
    if j >= |ks| then None
    else if ks[j] == t then Some(j)
    else Advance(ks, j + 1, t)
  }

  /** The inner loop: each recorded pair scored against the query weight
      the pointer finds for its term. */
  function Walk(q: seq<Entry<nat>>, entries: seq<(nat, real)>, j: nat): Option<real>
    requires NoPole(entries)
    decreases |entries|
  {
    if |entries| == 0 then Some(0.0)
    else match Advance(Keys(q), j, entries[0].0)
      case None => None
      case Some(j1) =>
        match Walk(q, entries[1..], j1)
        case None => None
        case Some(s) => Some(TermScore(q[j1].amount, entries[0].1) + s)
  }

  /** The contributions of a list's postings naming `d`. */
  function ListScore(qw: real, ps: seq<Posting>, d: nat): real
    requires ListNoPole(ps)
  {
    if |ps| == 0 then 0.0
    else (if ps[0].id == d then TermScore(qw, ps[0].weight) else 0.0) + ListScore(qw, ps[1..], d)
  }

  /** Reference score: the sum, over query entries and their postings naming
      `d`, of the entry weight times the posting's saturation. */
  function DocumentScore(q: seq<Entry<nat>>, inv: seq<seq<Posting>>, d: nat): real
    requires Scorable(q, inv)
  {
    if |q| == 0 then 0.0
    else
      assert Scorable(q[1..], inv) by {
        assert forall i | 0 <= i < |q| - 1 :: q[1..][i] == q[i + 1];
      }
      ListScore(q[0].amount, inv[q[0].key], d) + DocumentScore(q[1..], inv, d)
  }

  /** The pairs recorded for `d` by the query entries from `j` on. */
  function Recorded(q: seq<Entry<nat>>, inv: seq<seq<Posting>>, j: nat, d: nat): seq<(nat, real)>
    requires Scorable(q, inv) && j <= |q|
  {
    Select(Visits(Keys(q)[j..], inv, WeightedTerm), d)
  }

  /** Recorded weights come from the query's posting lists. */
  lemma {:induction false} RecordedNoPole(q: seq<Entry<nat>>, inv: seq<seq<Posting>>, j: nat, d: nat)
    requires Scorable(q, inv) && j <= |q|
    ensures NoPole(Recorded(q, inv, j, d))
    decreases |q| - j
  {
    if j < |q| {
      var ks := Keys(q)[j..];
      assert ks[1..] == Keys(q)[j + 1..];
      var head := ListVisits(inv[q[j].key], q[j].key, WeightedTerm);
      assert Visits(ks, inv, WeightedTerm) == head + Visits(Keys(q)[j + 1..], inv, WeightedTerm);
      SelectAppend(head, Visits(Keys(q)[j + 1..], inv, WeightedTerm), d);
      RecordedNoPole(q, inv, j + 1, d);
      ListSelectNoPole(inv[q[j].key], q[j].key, d);
      var r := Recorded(q, inv, j, d);
      var a := Select(head, d);
      assert r == a + Recorded(q, inv, j + 1, d);
      forall k | 0 <= k < |r|
        ensures Denominator(r[k].1) != 0.0
      {
        if k >= |a| {
          assert r[k] == Recorded(q, inv, j + 1, d)[k - |a|];
        }
      }
    }
  }

  /** What one posting list records for `d`: its term with each weight of a
      posting naming `d`. */
  lemma {:induction false} ListSelectNoPole(ps: seq<Posting>, t: nat, d: nat)
    requires ListNoPole(ps)
    ensures NoPole(Select(ListVisits(ps, t, WeightedTerm), d))
    ensures forall k | 0 <= k < |Select(ListVisits(ps, t, WeightedTerm), d)| ::
      Select(ListVisits(ps, t, WeightedTerm), d)[k].0 == t
  {
    if |ps| > 0 {
      assert ListVisits(ps, t, WeightedTerm)[1..] == ListVisits(ps[1..], t, WeightedTerm);
      ListSelectNoPole(ps[1..], t, d);
    }
  }

  lemma NoPoleAppend(a: seq<(nat, real)>, b: seq<(nat, real)>)
    requires NoPole(a) && NoPole(b)
    ensures NoPole(a + b)
  {
    forall k | 0 <= k < |a + b|
      ensures Denominator((a + b)[k].1) != 0.0
    {
      if k >= |a| {
        assert (a + b)[k] == b[k - |a|];
      }
    }
  }

  /** Walking one list's pairs for `d`, followed by the pairs `rest`, from
      any pointer position up to the list's query position `j`: the pointer
      stops at or before `j`, and the list contributes its `ListScore`. */
  lemma {:induction false} WalkList(q: seq<Entry<nat>>, ps: seq<Posting>, j: nat, d: nat,
                                    rest: seq<(nat, real)>, s: real, p: nat)
    requires j < |q| && p <= j && ListNoPole(ps) && NoPole(rest)
    requires forall p': nat | p <= p' <= j :: Walk(q, rest, p').Some?
    requires Consistent(q) ==> forall p': nat | p <= p' <= j :: Walk(q, rest, p').value == s
    ensures NoPole(Select(ListVisits(ps, q[j].key, WeightedTerm), d) + rest)
    ensures Walk(q, Select(ListVisits(ps, q[j].key, WeightedTerm), d) + rest, p).Some?
    ensures Consistent(q) ==>
      Walk(q, Select(ListVisits(ps, q[j].key, WeightedTerm), d) + rest, p).value == ListScore(q[j].amount, ps, d) + s
  {
    var t := q[j].key;
    var a := Select(ListVisits(ps, t, WeightedTerm), d);
    assert NoPole(a + rest) by {
      ListSelectNoPole(ps, t, d);
      NoPoleAppend(a, rest);
    }
    if |ps| == 0 {
      assert a + rest == rest;
    } else {
      var tail := Select(ListVisits(ps[1..], t, WeightedTerm), d);
      assert ListVisits(ps, t, WeightedTerm)[1..] == ListVisits(ps[1..], t, WeightedTerm);
      WalkList(q, ps[1..], j, d, rest, s, p);
      if ps[0].id == d {
        assert a == [(t, ps[0].weight)] + tail;
        assert (a + rest)[1..] == tail + rest;
        assert Keys(q)[j] == t;
        var p1 := Advance(Keys(q), p, t).value;
        WalkList(q, ps[1..], j, d, rest, s, p1);
        if Consistent(q) {
          assert q[p1].amount == q[j].amount;
        }
      } else {
        assert a == tail;
      }
    }
  }

  /** The walk over a document's recorded pairs never runs past the query
      vector, and on a consistent query vector it adds up the reference
      score. */
  lemma {:induction false} WalkCompletes(q: seq<Entry<nat>>, inv: seq<seq<Posting>>, j: nat, d: nat)
    requires Scorable(q, inv) && j <= |q|
    ensures NoPole(Recorded(q, inv, j, d))
    ensures forall p: nat | p <= j :: Walk(q, Recorded(q, inv, j, d), p).Some?
    ensures Consistent(q) ==> forall p: nat | p <= j ::
      Walk(q, Recorded(q, inv, j, d), p).value == DocumentScore(q[j..], inv, d)
    decreases |q| - j
  {
    RecordedNoPole(q, inv, j, d);
    if j == |q| {
      assert Recorded(q, inv, j, d) == [];
      assert q[j..] == [];
    } else {
      var ks := Keys(q)[j..];
      assert ks[1..] == Keys(q)[j + 1..];
      var head := ListVisits(inv[q[j].key], q[j].key, WeightedTerm);
      assert Visits(ks, inv, WeightedTerm) == head + Visits(Keys(q)[j + 1..], inv, WeightedTerm);
      SelectAppend(head, Visits(Keys(q)[j + 1..], inv, WeightedTerm), d);
      WalkCompletes(q, inv, j + 1, d);
      RecordedNoPole(q, inv, j + 1, d);
      var rest := Recorded(q, inv, j + 1, d);
      var s := DocumentScore(q[j + 1..], inv, d);
      assert q[j..][1..] == q[j + 1..];
      forall p: nat | p <= j
        ensures Walk(q, Recorded(q, inv, j, d), p).Some?
        ensures Consistent(q) ==> Walk(q, Recorded(q, inv, j, d), p).value == DocumentScore(q[j..], inv, d)
      {
        WalkList(q, inv[q[j].key], j, d, rest, s, p);
      }
    }
  }

  // ---------------------------------------------------------------------------
  // Ranking (Okapi.java:30-84)

  function Scores(q: seq<Entry<nat>>, gs: seq<Group<(nat, real)>>): (r: seq<Entry<nat>>)
    requires forall i | 0 <= i < |gs| :: NoPole(gs[i].values) && Walk(q, gs[i].values, 0).Some?
    ensures |r| == |gs| && Keys(r) == GroupKeys(gs)
    ensures forall i | 0 <= i < |gs| :: r[i].amount == Walk(q, gs[i].values, 0).value
  {
    seq(|gs|, i requires 0 <= i < |gs| => Entry(gs[i].key, Walk(q, gs[i].values, 0).value))
  }

  /** The groups the loop builds, each walkable from the start. */
  lemma OkapiGroups(q: seq<Entry<nat>>, inv: seq<seq<Posting>>)
    requires Scorable(q, inv)
    ensures var gs := PutAll([], Visits(Keys(q), inv, WeightedTerm));
      && Distinct(GroupKeys(gs))
      && (forall d :: d in GroupKeys(gs) <==> d in ItemKeys(Visits(Keys(q), inv, WeightedTerm)))
      && (forall i | 0 <= i < |gs| :: gs[i].values == Recorded(q, inv, 0, gs[i].key))
      && (forall i | 0 <= i < |gs| :: NoPole(gs[i].values) && Walk(q, gs[i].values, 0).Some?)
  {
    var visits := Visits(Keys(q), inv, WeightedTerm);
    var gs := PutAll([], visits);
    GroupedVisits(Keys(q), inv, WeightedTerm);
    assert Keys(q)[0..] == Keys(q);
    forall i | 0 <= i < |gs|
      ensures NoPole(gs[i].values) && Walk(q, gs[i].values, 0).Some?
    {
      WalkCompletes(q, inv, 0, gs[i].key);
    }
  }

  /** `computeScores`: every document with a posting for some query term,
      once, ranked by its accumulated score. */
  function ComputeScores(q: seq<Entry<nat>>, ix: Index): (r: seq<Entry<nat>>)
    requires Scorable(q, ix.invertedIndex)
    ensures SortedByScore(r)
    ensures Distinct(Keys(r))
    ensures forall d :: d in Keys(r) <==> d in ItemKeys(Visits(Keys(q), ix.invertedIndex, WeightedTerm))
    ensures q == [] ==> r == []
  {
    var gs := PutAll([], Visits(Keys(q), ix.invertedIndex, WeightedTerm));
    OkapiGroups(q, ix.invertedIndex);
    var scored := Scores(q, gs);
    SortKeepsKeys(scored);
    assert forall d :: d in Keys(SortByScore(scored)) <==> d in Elems(Keys(SortByScore(scored)));
    assert forall d :: d in Keys(scored) <==> d in Elems(Keys(scored));
    SortByScore(scored)
  }

  /** On a consistent query vector each ranked document scores the
      reference sum over the query entries and its postings. */
  lemma ScoreOfDocument(q: seq<Entry<nat>>, ix: Index, i: nat)
    requires Scorable(q, ix.invertedIndex) && Consistent(q)
    requires i < |ComputeScores(q, ix)|
    ensures ComputeScores(q, ix)[i].amount == DocumentScore(q, ix.invertedIndex, ComputeScores(q, ix)[i].key)
  {
    var inv := ix.invertedIndex;
    var gs := PutAll([], Visits(Keys(q), inv, WeightedTerm));
    OkapiGroups(q, inv);
    var scored := Scores(q, gs);
    var r := ComputeScores(q, ix);
    assert r == SortByScore(scored);
    assert r[i] in multiset(scored) by {
      assert r[i] in multiset(r);
    }
    var j :| 0 <= j < |scored| && scored[j] == r[i];
    assert Keys(scored)[j] == gs[j].key;
    WalkCompletes(q, inv, 0, gs[j].key);
    assert q[0..] == q;
  }

  // ---------------------------------------------------------------------------
  // The query (Okapi.java:11-21)

  /** No posting of the index makes the denominator vanish. */
  ghost predicate IndexNoPole(ix: Index)
  {
    forall i | 0 <= i < |ix.invertedIndex| :: ListNoPole(ix.invertedIndex[i])
  }

  /** `runQuery` on the processed query terms. */
  function RunQuery(terms: seq<string>, ix: Index, m: Math): (r: seq<Entry<nat>>)
    requires AllKnown(terms, ix.vocabulary) && TermIdsInRange(ix) && IndexNoPole(ix)
    ensures SortedByScore(r)
    ensures Distinct(Keys(r))
    ensures terms == [] ==> r == []
  {
    var q := OkapiVector(terms, ix, m);
    assert Scorable(q, ix.invertedIndex);
    ComputeScores(q, ix)
  }

  /** Each ranked document scores the reference sum for the query terms'
      weights. */
  lemma RunQueryScores(terms: seq<string>, ix: Index, m: Math, i: nat)
    requires AllKnown(terms, ix.vocabulary) && TermIdsInRange(ix) && IndexNoPole(ix)
    requires i < |RunQuery(terms, ix, m)|
    ensures var q := OkapiVector(terms, ix, m);
      && Scorable(q, ix.invertedIndex)
      && RunQuery(terms, ix, m)[i].amount == DocumentScore(q, ix.invertedIndex, RunQuery(terms, ix, m)[i].key)
  {
    var q := OkapiVector(terms, ix, m);
    assert Scorable(q, ix.invertedIndex);
    OkapiVectorKeepsRepeats(terms, ix, m);
    ScoreOfDocument(q, ix, i);
  }
}

/**
 Grouping by document id. The binary cosine and Okapi models collect, for
 every document that has a posting for some query term, the list of query
 contributions it received (`HashMap<Integer, ArrayList<...>>`). Java's map
 iteration order is unspecified; the model keeps groups in order of first
 insertion, which only decides the order of equal scores after sorting.
 The pairs they group are those the nested loop over query terms and
 postings visits (`Visits`).
 */
module Groups {
  import opened Seqs
  import opened IndexStore

  datatype Group<V> = Group(key: nat, values: seq<V>)

  function GroupKeys<V>(gs: seq<Group<V>>): (ks: seq<nat>)
    ensures |ks| == |gs|
    ensures forall i | 0 <= i < |gs| :: ks[i] == gs[i].key
  {
    seq(|gs|, i requires 0 <= i < |gs| => gs[i].key)
  }

  function ItemKeys<V>(items: seq<(nat, V)>): (ks: seq<nat>)
    ensures |ks| == |items|
    ensures forall i | 0 <= i < |items| :: ks[i] == items[i].0
  {
    seq(|items|, i requires 0 <= i < |items| => items[i].0)
  }

  /** `v` appended to the group of `key`, which is created (at the end) when
      it does not exist yet: `if (!d.containsKey(k)) d.put(k, new list); d.get(k).add(v)`. */
  function Put<V>(gs: seq<Group<V>>, key: nat, v: V): seq<Group<V>>
  {
    match Find(GroupKeys(gs), key)
    case Some(i) => gs[i := Group(key, gs[i].values + [v])]
    case None => gs + [Group(key, [v])]
  }

  function PutAll<V>(gs: seq<Group<V>>, items: seq<(nat, V)>): seq<Group<V>>
    decreases |items|
  {
    if |items| == 0 then gs else PutAll(Put(gs, items[0].0, items[0].1), items[1..])
  }

  /** The values of the items with key `k`, in order. */
  function Select<V>(items: seq<(nat, V)>, k: nat): seq<V>
  {
    if |items| == 0 then []
    else (if items[0].0 == k then [items[0].1] else []) + Select(items[1..], k)
  }

  /** The values grouped under `k`, or none. */
  function ValuesOf<V>(gs: seq<Group<V>>, k: nat): seq<V>
  {
    match Find(GroupKeys(gs), k)
    case Some(i) => gs[i].values
    case None => []
  }

  lemma ValuesOfAt<V>(gs: seq<Group<V>>, i: nat)
    requires Distinct(GroupKeys(gs)) && i < |gs|
    ensures ValuesOf(gs, gs[i].key) == gs[i].values
  {
    var j := Find(GroupKeys(gs), gs[i].key).value;
    assert GroupKeys(gs)[j] == GroupKeys(gs)[i];
  }

  lemma {:induction false} PutSpec<V>(gs: seq<Group<V>>, key: nat, v: V)
    requires Distinct(GroupKeys(gs))
    ensures GroupKeys(Put(gs, key, v)) == AppendNew(GroupKeys(gs), [key])
    ensures forall k :: ValuesOf(Put(gs, key, v), k) == ValuesOf(gs, k) + (if k == key then [v] else [])
  {
    var r := Put(gs, key, v);
    assert AppendNew(GroupKeys(gs), [key]) == if key in GroupKeys(gs) then GroupKeys(gs) else GroupKeys(gs) + [key] by {
      assert [key][1..] == [];
    }
    match Find(GroupKeys(gs), key)
    case Some(i) =>
      assert GroupKeys(r) == GroupKeys(gs);
      forall k
        ensures ValuesOf(r, k) == ValuesOf(gs, k) + (if k == key then [v] else [])
      {
        if k == key {
          ValuesOfAt(r, i);
          ValuesOfAt(gs, i);
        } else {
          assert ValuesOf(r, k) == ValuesOf(gs, k);
        }
      }
    case None =>
      assert GroupKeys(r) == GroupKeys(gs) + [key];
      AppendNewSpec(GroupKeys(gs), [key]);
      forall k
        ensures ValuesOf(r, k) == ValuesOf(gs, k) + (if k == key then [v] else [])
      {
        if k == key {
          ValuesOfAt(r, |gs|);
        } else if k in GroupKeys(gs) {
          var i := IndexOf(GroupKeys(gs), k);
          ValuesOfAt(r, i);
          ValuesOfAt(gs, i);
        } else {
          assert k !in GroupKeys(r);
        }
      }
  }

  /** Grouping a sequence of items: the group keys are the existing ones
      followed by the new item keys in order of first occurrence, and each
      group receives exactly the values of its items, in item order. */
  lemma {:induction false} PutAllSpec<V>(gs: seq<Group<V>>, items: seq<(nat, V)>)
    requires Distinct(GroupKeys(gs))
    ensures GroupKeys(PutAll(gs, items)) == AppendNew(GroupKeys(gs), ItemKeys(items))
    ensures forall k :: ValuesOf(PutAll(gs, items), k) == ValuesOf(gs, k) + Select(items, k)
    decreases |items|
  {
    if |items| > 0 {
      var key := items[0].0;
      var gs' := Put(gs, key, items[0].1);
      assert PutAll(gs, items) == PutAll(gs', items[1..]);
      assert Distinct(GroupKeys(gs')) && GroupKeys(gs') == AppendNew(GroupKeys(gs), [key]) by {
        PutSpec(gs, key, items[0].1);
        AppendNewSpec(GroupKeys(gs), [key]);
      }
      PutAllSpec(gs', items[1..]);
      assert GroupKeys(PutAll(gs, items)) == AppendNew(GroupKeys(gs), ItemKeys(items)) by {
        assert ItemKeys(items) == [key] + ItemKeys(items[1..]);
        AppendNewConcat(GroupKeys(gs), [key], ItemKeys(items[1..]));
      }
      forall k
        ensures ValuesOf(PutAll(gs, items), k) == ValuesOf(gs, k) + Select(items, k)
      {
        var head := if key == k then [items[0].1] else [];
        assert ValuesOf(gs', k) == ValuesOf(gs, k) + head by {
          PutSpec(gs, key, items[0].1);
        }
        assert Select(items, k) == head + Select(items[1..], k);
        ConcatAssoc(ValuesOf(gs, k), head, Select(items[1..], k));
      }
    }
  }

  lemma {:induction false} SelectAppend<V>(a: seq<(nat, V)>, b: seq<(nat, V)>, k: nat)
    ensures Select(a + b, k) == Select(a, k) + Select(b, k)
  {
    if |a| == 0 {
      assert a + b == b;
    } else {
      var head := if a[0].0 == k then [a[0].1] else [];
      assert (a + b)[1..] == a[1..] + b;
      assert Select(a + b, k) == head + Select(a[1..] + b, k);
      SelectAppend(a[1..], b, k);
      ConcatAssoc(head, Select(a[1..], k), Select(b, k));
    }
  }

  lemma {:induction false} SelectNonEmpty<V>(items: seq<(nat, V)>, k: nat)
    ensures |Select(items, k)| > 0 <==> k in ItemKeys(items)
  {
    if |items| > 0 {
      SelectNonEmpty(items[1..], k);
      assert ItemKeys(items) == [items[0].0] + ItemKeys(items[1..]);
    }
  }

  // ---------------------------------------------------------------------------
  // The (document id, value) pairs a ranking model groups

  /** Every query term id names an existing posting list
      (`invertedIndex.get(term)` fails otherwise). */
  ghost predicate VectorInRange(q: seq<nat>, inv: seq<seq<Posting>>)
  {
    forall i | 0 <= i < |q| :: q[i] < |inv|
  }

  /** The (document id, recorded value) pair of every posting of term `t`,
      where `f` says what a model records for a posting of a term. */
  function ListVisits<V>(ps: seq<Posting>, t: nat, f: (nat, Posting) -> V): (vs: seq<(nat, V)>)
    ensures |vs| == |ps|
    ensures forall j | 0 <= j < |ps| :: vs[j] == (ps[j].id, f(t, ps[j]))
  {
    seq(|ps|, j requires 0 <= j < |ps| => (ps[j].id, f(t, ps[j])))
  }

  /** The pairs the nested loop over query terms and their postings visits,
      in visiting order. */
  function Visits<V>(q: seq<nat>, inv: seq<seq<Posting>>, f: (nat, Posting) -> V): seq<(nat, V)>
    requires VectorInRange(q, inv)
  {
    if |q| == 0 then [] else ListVisits(inv[q[0]], q[0], f) + Visits(q[1..], inv, f)
  }

  /** The map the loop builds: one group per visited document, in order of
      first visit, holding exactly the values recorded for it, never none. */
  lemma GroupedVisits<V>(q: seq<nat>, inv: seq<seq<Posting>>, f: (nat, Posting) -> V)
    requires VectorInRange(q, inv)
    ensures var gs := PutAll([], Visits(q, inv, f));
      && Distinct(GroupKeys(gs))
      && (forall d :: d in GroupKeys(gs) <==> d in ItemKeys(Visits(q, inv, f)))
      && (forall i | 0 <= i < |gs| :: gs[i].values == Select(Visits(q, inv, f), gs[i].key))
      && (forall i | 0 <= i < |gs| :: |gs[i].values| > 0)
      && (|gs| == 0 || |q| > 0)
  {
    var visits := Visits(q, inv, f);
    var gs := PutAll([], visits);
    PutAllSpec([], visits);
    AppendNewSpec([], ItemKeys(visits));
    forall i | 0 <= i < |gs|
      ensures gs[i].values == Select(visits, gs[i].key) && |gs[i].values| > 0
    {
      ValuesOfAt(gs, i);
      assert ValuesOf<V>([], gs[i].key) == [];
      SelectNonEmpty(visits, gs[i].key);
      assert GroupKeys(gs)[i] == gs[i].key;
    }
  }

  /** A document is visited exactly when some query term's posting list
      names it. */
  lemma {:induction false} VisitedDocuments<V>(q: seq<nat>, inv: seq<seq<Posting>>, f: (nat, Posting) -> V, d: nat)
    requires VectorInRange(q, inv)
    ensures d in ItemKeys(Visits(q, inv, f)) <==> exists i | 0 <= i < |q| :: d in PostingIds(inv[q[i]])
  {
    if |q| > 0 {
      var head := ListVisits(inv[q[0]], q[0], f);
      VisitedDocuments(q[1..], inv, f, d);
      assert ItemKeys(head + Visits(q[1..], inv, f)) == ItemKeys(head) + ItemKeys(Visits(q[1..], inv, f));
      assert ItemKeys(head) == PostingIds(inv[q[0]]);
      if exists i | 0 <= i < |q| :: d in PostingIds(inv[q[i]]) {
        var i :| 0 <= i < |q| && d in PostingIds(inv[q[i]]);
        if i > 0 {
          assert q[1..][i - 1] == q[i];
        }
      }
      if exists i | 0 <= i < |q| - 1 :: d in PostingIds(inv[q[1..][i]]) {
        var i :| 0 <= i < |q| - 1 && d in PostingIds(inv[q[1..][i]]);
        assert q[1..][i] == q[i + 1];
      }
    }
  }
}

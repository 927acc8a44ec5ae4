/**
 The descending sort every ranking model ends with:
 `Collections.sort(results, (o1, o2) -> o2.score.compareTo(o1.score))`.
 Only what the comparator decides is modelled: the result is a permutation of
 the input ordered by non-increasing score. The order among equal scores is
 left open.
 */
module Sorting {
  import opened Seqs
  import opened Tally

  ghost predicate SortedByScore<K>(rs: seq<Entry<K>>)
  {
    forall i, j | 0 <= i < j < |rs| :: rs[i].amount >= rs[j].amount
  }

  /** `x` placed before the first entry it does not score below. */
  function Insert<K>(x: Entry<K>, rs: seq<Entry<K>>): (r: seq<Entry<K>>)
    requires SortedByScore(rs)
    ensures SortedByScore(r)
    ensures multiset(r) == multiset(rs) + multiset{x}
    ensures |r| == |rs| + 1
  {
    if |rs| == 0 then [x]
    else if x.amount >= rs[0].amount then [x] + rs
    else
      var tail := Insert(x, rs[1..]);
      InsertBehindHead(x, rs, tail);
      [rs[0]] + tail
  }

  lemma InsertBehindHead<K>(x: Entry<K>, rs: seq<Entry<K>>, tail: seq<Entry<K>>)
    requires SortedByScore(rs) && |rs| > 0 && x.amount < rs[0].amount
    requires SortedByScore(tail) && multiset(tail) == multiset(rs[1..]) + multiset{x}
    ensures SortedByScore([rs[0]] + tail)
    ensures multiset([rs[0]] + tail) == multiset(rs) + multiset{x}
  {
    assert rs == [rs[0]] + rs[1..];
    forall i | 0 <= i < |tail|
      ensures rs[0].amount >= tail[i].amount
    {
      assert tail[i] in multiset(tail);
      if tail[i] != x {
        assert tail[i] in multiset(rs[1..]);
        assert tail[i] in rs[1..];
      }
    }
  }

  /** Results ordered by non-increasing score. */
  function SortByScore<K>(rs: seq<Entry<K>>): (r: seq<Entry<K>>)
    ensures SortedByScore(r)
    ensures multiset(r) == multiset(rs)
    ensures |r| == |rs|
  {
    if |rs| == 0 then []
    else
      assert rs == [rs[0]] + rs[1..];
      Insert(rs[0], SortByScore(rs[1..]))
  }

  /** Sorting keeps exactly the entries it was given. */
  lemma SortKeepsEntries<K>(rs: seq<Entry<K>>, e: Entry<K>)
    ensures e in SortByScore(rs) <==> e in rs
  {
    var r := SortByScore(rs);
    assert e in r <==> e in multiset(r);
    assert e in rs <==> e in multiset(rs);
  }

  /** Inserting adds exactly the inserted key, and keeps distinct keys
      distinct when that key is new. */
  lemma {:induction false} InsertKeys<K>(x: Entry<K>, rs: seq<Entry<K>>)
    requires SortedByScore(rs)
    ensures Elems(Keys(Insert(x, rs))) == Elems(Keys(rs)) + {x.key}
    ensures Distinct(Keys(rs)) && x.key !in Keys(rs) ==> Distinct(Keys(Insert(x, rs)))
  {
    if |rs| == 0 {
      assert Keys(Insert(x, rs)) == [x.key] + Keys(rs);
      assert Elems([x.key]) == {x.key};
    } else if x.amount >= rs[0].amount {
      KeysAppend([x], rs);
      ElemsAppend([x.key], Keys(rs));
      assert Elems([x.key]) == {x.key};
      DistinctCons(x.key, Keys(rs));
    } else {
      var tail := Insert(x, rs[1..]);
      assert Insert(x, rs) == [rs[0]] + tail;
      InsertKeys(x, rs[1..]);
      KeysBehindHead(rs, tail);
    }
  }

  /** The keys of the head followed by `tail`, where `tail` has the keys of
      the rest of `rs` plus possibly more. */
  lemma KeysBehindHead<K>(rs: seq<Entry<K>>, tail: seq<Entry<K>>)
    requires |rs| > 0
    ensures Keys([rs[0]] + tail) == [rs[0].key] + Keys(tail)
    ensures Elems(Keys([rs[0]] + tail)) == {rs[0].key} + Elems(Keys(tail))
    ensures Elems(Keys(rs)) == {rs[0].key} + Elems(Keys(rs[1..]))
    ensures Distinct(Keys([rs[0]] + tail)) <==> rs[0].key !in Keys(tail) && Distinct(Keys(tail))
    ensures Distinct(Keys(rs)) <==> rs[0].key !in Keys(rs[1..]) && Distinct(Keys(rs[1..]))
  {
    var y := rs[0].key;
    KeysAppend([rs[0]], tail);
    assert Keys([rs[0]]) == [y];
    KeysTail(rs);
    ElemsAppend([y], Keys(tail));
    ElemsAppend([y], Keys(rs[1..]));
    assert Elems([y]) == {y};
    DistinctCons(y, Keys(rs[1..]));
    DistinctCons(y, Keys(tail));
  }

  lemma KeysTail<K>(rs: seq<Entry<K>>)
    requires |rs| > 0
    ensures Keys(rs) == [rs[0].key] + Keys(rs[1..])
  {
    assert rs == [rs[0]] + rs[1..];
    KeysAppend([rs[0]], rs[1..]);
  }

  /** Sorting keeps the set of keys, and keys that were distinct stay
      distinct: every document keeps exactly one score. */
  lemma {:induction false} SortKeepsKeys<K>(rs: seq<Entry<K>>)
    ensures Elems(Keys(SortByScore(rs))) == Elems(Keys(rs))
    ensures Distinct(Keys(rs)) ==> Distinct(Keys(SortByScore(rs)))
  {
    if |rs| > 0 {
      var sorted := SortByScore(rs[1..]);
      assert SortByScore(rs) == Insert(rs[0], sorted) by {
        assert rs == [rs[0]] + rs[1..];
      }
      SortKeepsKeys(rs[1..]);
      InsertKeepsKeys(rs, sorted);
    }
  }

  /** The step of `SortKeepsKeys`: inserting the head into a sorted tail
      that kept the tail's keys keeps the keys of the whole. */
  lemma InsertKeepsKeys<K>(rs: seq<Entry<K>>, sorted: seq<Entry<K>>)
    requires |rs| > 0 && SortedByScore(sorted)
    requires Elems(Keys(sorted)) == Elems(Keys(rs[1..]))
    requires Distinct(Keys(rs[1..])) ==> Distinct(Keys(sorted))
    ensures Elems(Keys(Insert(rs[0], sorted))) == Elems(Keys(rs))
    ensures Distinct(Keys(rs)) ==> Distinct(Keys(Insert(rs[0], sorted)))
  {
    var x := rs[0].key;
    assert Elems(Keys(rs)) == {x} + Elems(Keys(rs[1..]))
        && (Distinct(Keys(rs)) <==> x !in Keys(rs[1..]) && Distinct(Keys(rs[1..]))) by {
      KeysTail(rs);
      ElemsAppend([x], Keys(rs[1..]));
      assert Elems([x]) == {x};
      DistinctCons(x, Keys(rs[1..]));
    }
    InsertKeys(rs[0], sorted);
    assert x in Keys(sorted) <==> x in Keys(rs[1..]) by {
      assert x in Keys(sorted) <==> x in Elems(Keys(sorted));
      assert x in Keys(rs[1..]) <==> x in Elems(Keys(rs[1..]));
    }
  }
}

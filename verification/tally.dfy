/**
 Keyed running totals. The engine repeatedly builds an `ArrayList` of
 `Tuple<K, Double>` by scanning for an entry with the same key, adding to it
 when one is found and appending a new tuple otherwise: the per-document term
 counts of the indexer, the query term frequencies of the cosine model, and
 both halves of the Rocchio merge. `Add` is that scan-and-add step once, and
 `AddAll` folds it over a sequence of contributions.
 */
module Tally {
  import opened Seqs
  import opened Numerics

  /** A keyed amount: (term, raw count), (term id, weight) or (doc id, score). */
  datatype Entry<K> = Entry(key: K, amount: real)

  function Keys<K>(v: seq<Entry<K>>): (ks: seq<K>)
    ensures |ks| == |v|
    ensures forall i | 0 <= i < |v| :: ks[i] == v[i].key
  {
    seq(|v|, i requires 0 <= i < |v| => v[i].key)
  }

  lemma KeysAppend<K>(a: seq<Entry<K>>, b: seq<Entry<K>>)
    ensures Keys(a + b) == Keys(a) + Keys(b)
  {
  }

  /** Every entry with its amount multiplied by `c`, keys and order kept. */
  function Scale<K>(v: seq<Entry<K>>, c: real): (r: seq<Entry<K>>)
    ensures |r| == |v| && Keys(r) == Keys(v)
  {
    seq(|v|, i requires 0 <= i < |v| => Entry(v[i].key, v[i].amount * c))
  }

  /** Adds `e.amount` to the first entry whose key is `e.key`, or appends `e`
      when no entry has that key. */
  function Add<K(==)>(v: seq<Entry<K>>, e: Entry<K>): seq<Entry<K>>
  {
    match Find(Keys(v), e.key)
    case Some(i) => v[i := Entry(e.key, v[i].amount + e.amount)]
    case None => v + [e]
  }

  /** `Add` applied to each contribution of `es` in order. */
  function AddAll<K(==)>(v: seq<Entry<K>>, es: seq<Entry<K>>): seq<Entry<K>>
    decreases |es|
  {
    if |es| == 0 then v else AddAll(Add(v, es[0]), es[1..])
  }

  /** Total amount the contributions in `es` carry for key `k`. */
  function Total<K(==)>(es: seq<Entry<K>>, k: K): real
  {
    if |es| == 0 then 0.0
    else (if es[0].key == k then es[0].amount else 0.0) + Total(es[1..], k)
  }

  /** `c` times everything `es` carries for `k`: the weight a key gets from
      the per-key sums of `es` scaled by `c`. */
  function ScaledTotal<K(==)>(es: seq<Entry<K>>, k: K, c: real): real
  {
    Total(es, k) * c
  }

  /** The amount `v` holds for `k`: that of its first entry with key `k`, or
      0 when there is none. */
  function AmountOf<K(==)>(v: seq<Entry<K>>, k: K): real
  {
    match Find(Keys(v), k)
    case Some(i) => v[i].amount
    case None => 0.0
  }

  lemma AmountOfAt<K>(v: seq<Entry<K>>, i: nat)
    requires Distinct(Keys(v)) && i < |v|
    ensures AmountOf(v, v[i].key) == v[i].amount
  {
    var j := Find(Keys(v), v[i].key).value;
    assert Keys(v)[j] == Keys(v)[i];
  }

  /** Past an entry with another key, the amount of `k` is that of the
      rest. */
  lemma AmountOfTail<K>(v: seq<Entry<K>>, k: K)
    requires |v| > 0 && v[0].key != k
    ensures AmountOf(v, k) == AmountOf(v[1..], k)
  {
    assert Keys(v[1..]) == Keys(v)[1..];
    match Find(Keys(v)[1..], k)
    case None =>
    case Some(j) =>
  }

  /** One step: keys gain `e.key` at the end if it is new, and the amount for
      `e.key` grows by `e.amount` while every other amount stays. */
  lemma {:induction false} AddSpec<K>(v: seq<Entry<K>>, e: Entry<K>)
    requires Distinct(Keys(v))
    ensures Keys(Add(v, e)) == AppendNew(Keys(v), [e.key])
    ensures forall k :: AmountOf(Add(v, e), k) == AmountOf(v, k) + (if k == e.key then e.amount else 0.0)
  {
    var r := Add(v, e);
    assert AppendNew(Keys(v), [e.key]) == if e.key in Keys(v) then Keys(v) else Keys(v) + [e.key] by {
      assert [e.key][1..] == [];
    }
    match Find(Keys(v), e.key)
    case Some(i) =>
      assert Keys(r) == Keys(v);
      forall k
        ensures AmountOf(r, k) == AmountOf(v, k) + (if k == e.key then e.amount else 0.0)
      {
        if k == e.key {
          AmountOfAt(r, i);
          AmountOfAt(v, i);
        }
      }
    case None =>
      KeysAppend(v, [e]);
      assert Keys(r) == Keys(v) + [e.key];
      AppendNewSpec(Keys(v), [e.key]);
      forall k
        ensures AmountOf(r, k) == AmountOf(v, k) + (if k == e.key then e.amount else 0.0)
      {
        if k == e.key {
          AmountOfAt(r, |v|);
        } else if k in Keys(v) {
          var i := IndexOf(Keys(v), k);
          AmountOfAt(r, i);
          AmountOfAt(v, i);
        } else {
          assert k !in Keys(r);
        }
      }
  }

  /** The fold: the keys of the result are those of `v` followed by the new
      keys of `es` in order of first occurrence, and each key's amount is its
      amount in `v` plus everything `es` contributes to it. */
  lemma {:induction false} AddAllSpec<K>(v: seq<Entry<K>>, es: seq<Entry<K>>)
    requires Distinct(Keys(v))
    ensures Keys(AddAll(v, es)) == AppendNew(Keys(v), Keys(es))
    ensures forall k :: AmountOf(AddAll(v, es), k) == AmountOf(v, k) + Total(es, k)
    decreases |es|
  {
    if |es| > 0 {
      var v' := Add(v, es[0]);
      AddSpec(v, es[0]);
      AppendNewSpec(Keys(v), [es[0].key]);
      AddAllSpec(v', es[1..]);
      assert Keys(es) == [es[0].key] + Keys(es[1..]);
      AppendNewConcat(Keys(v), [es[0].key], Keys(es[1..]));
    }
  }

  /** Distinct keys survive the fold, and the existing entries keep their
      positions. */
  lemma AddAllShape<K>(v: seq<Entry<K>>, es: seq<Entry<K>>)
    requires Distinct(Keys(v))
    ensures Distinct(Keys(AddAll(v, es)))
    ensures |v| <= |AddAll(v, es)|
    ensures forall i | 0 <= i < |v| :: AddAll(v, es)[i].key == v[i].key
    ensures |AddAll(v, es)| == |v| + |Elems(Keys(es)) - Elems(Keys(v))|
  {
    AddAllSpec(v, es);
    AppendNewSpec(Keys(v), Keys(es));
    AppendNewLength(Keys(v), Keys(es));
    var r := AddAll(v, es);
    forall i | 0 <= i < |v|
      ensures r[i].key == v[i].key
    {
      assert Keys(r)[..|v|][i] == Keys(v)[i];
    }
  }

  lemma {:induction false} TotalAppend<K>(a: seq<Entry<K>>, b: seq<Entry<K>>, k: K)
    ensures Total(a + b, k) == Total(a, k) + Total(b, k)
  {
    if |a| == 0 {
      assert a + b == b;
    } else {
      assert (a + b)[1..] == a[1..] + b;
      TotalAppend(a[1..], b, k);
    }
  }

  /** Contributions that all carry zero leave the existing entries exactly as
      they were and append only zero-amount entries. */
  lemma {:induction false} AddAllZero<K>(v: seq<Entry<K>>, es: seq<Entry<K>>, n: nat)
    requires n <= |v|
    requires forall i | n <= i < |v| :: v[i].amount == 0.0
    requires forall i | 0 <= i < |es| :: es[i].amount == 0.0
    ensures |AddAll(v, es)| >= |v|
    ensures AddAll(v, es)[..n] == v[..n]
    ensures forall i | n <= i < |AddAll(v, es)| :: AddAll(v, es)[i].amount == 0.0
    decreases |es|
  {
    if |es| > 0 {
      var v' := Add(v, es[0]);
      match Find(Keys(v), es[0].key) {
        case Some(i) =>
          assert v'[i] == v[i];
          assert v' == v;
        case None =>
          assert v'[..n] == v[..n];
      }
      AddAllZero(v', es[1..], n);
    }
  }

  /** One contribution of `amount` per occurrence of a key. */
  function Contributions<K>(ks: seq<K>, amount: real): (es: seq<Entry<K>>)
    ensures |es| == |ks| && Keys(es) == ks
  {
    seq(|ks|, i requires 0 <= i < |ks| => Entry(ks[i], amount))
  }

  lemma {:induction false} ContributionsTotal<K>(ks: seq<K>, amount: real, k: K)
    ensures Total(Contributions(ks, amount), k) == amount * Count(ks, k) as real
  {
    if |ks| > 0 {
      assert Contributions(ks, amount)[1..] == Contributions(ks[1..], amount);
      ContributionsTotal(ks[1..], amount, k);
    }
  }

  /** The amounts of `v`, in order. */
  function Amounts<K>(v: seq<Entry<K>>): (xs: seq<real>)
    ensures |xs| == |v|
    ensures forall i | 0 <= i < |v| :: xs[i] == v[i].amount
  {
    seq(|v|, i requires 0 <= i < |v| => v[i].amount)
  }

  /** Adding one more contribution at the end is one more `Add`. */
  lemma {:induction false} AddAllSnoc<K>(v: seq<Entry<K>>, es: seq<Entry<K>>, e: Entry<K>)
    ensures AddAll(v, es + [e]) == Add(AddAll(v, es), e)
    decreases |es|
  {
    if |es| == 0 {
      assert es + [e] == [e];
    } else {
      assert (es + [e])[1..] == es[1..] + [e];
      AddAllSnoc(Add(v, es[0]), es[1..], e);
    }
  }

  /** `Add` keeps every key in place and appends `e.key` only when it is new. */
  lemma AddKeys<K>(v: seq<Entry<K>>, e: Entry<K>)
    ensures Keys(Add(v, e)) == if e.key in Keys(v) then Keys(v) else Keys(v) + [e.key]
  {
  }

  /** Scaling scales every key's amount. */
  lemma AmountOfScale<K>(v: seq<Entry<K>>, c: real, k: K)
    ensures AmountOf(Scale(v, c), k) == AmountOf(v, k) * c
  {
    assert Keys(Scale(v, c)) == Keys(v);
  }

  /** Over distinct keys, the total for a key is the amount of its one entry. */
  lemma {:induction false} TotalOfDistinct<K>(v: seq<Entry<K>>, k: K)
    requires Distinct(Keys(v))
    ensures Total(v, k) == AmountOf(v, k)
  {
    if |v| > 0 {
      assert Distinct(Keys(v[1..])) by {
        assert forall i | 0 <= i < |v| - 1 :: Keys(v[1..])[i] == Keys(v)[i + 1];
      }
      TotalOfDistinct(v[1..], k);
      if v[0].key == k {
        TotalAbsent(v[1..], k);
      } else {
        match Find(Keys(v[1..]), k)
        case Some(j) =>
          assert Find(Keys(v), k) == Some(j + 1) by {
            assert Keys(v)[1..] == Keys(v[1..]);
          }
        case None =>
          assert k !in Keys(v);
      }
    }
  }

  lemma {:induction false} TotalAbsent<K>(v: seq<Entry<K>>, k: K)
    requires k !in Keys(v)
    ensures Total(v, k) == 0.0
  {
    if |v| > 0 {
      assert Keys(v)[1..] == Keys(v[1..]);
      TotalAbsent(v[1..], k);
    }
  }

  /** Non-negative contributions have a non-negative total. */
  lemma {:induction false} TotalNonNegative<K>(es: seq<Entry<K>>, k: K)
    requires forall i | 0 <= i < |es| :: es[i].amount >= 0.0
    ensures Total(es, k) >= 0.0
  {
    if |es| > 0 {
      TotalNonNegative(es[1..], k);
    }
  }

  /** Merging a tally with distinct keys into another adds the two amounts
      of every key. */
  lemma AddAllMerge<K>(v: seq<Entry<K>>, w: seq<Entry<K>>, k: K)
    requires Distinct(Keys(v)) && Distinct(Keys(w))
    ensures AmountOf(AddAll(v, w), k) == AmountOf(v, k) + AmountOf(w, k)
  {
    AddAllSpec(v, w);
    TotalOfDistinct(w, k);
  }
}

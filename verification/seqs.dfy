/**
 Sequence vocabulary shared by the whole model: optional values, linear
 search, occurrence counts, first-occurrence de-duplication, filtering and
 subsequences. The search engine keeps almost everything in `ArrayList`s that
 it scans linearly; these are the functional counterparts of those scans.
 */
module Seqs {

  datatype Option<T> = None | Some(value: T)

  /** The elements of `s`, as a set. */
  function Elems<T>(s: seq<T>): set<T>
  {
    set x | x in s
  }

  lemma ConcatAssoc<T>(a: seq<T>, b: seq<T>, c: seq<T>)
    ensures (a + b) + c == a + (b + c)
  {
  }

  lemma ElemsAppend<T>(a: seq<T>, b: seq<T>)
    ensures Elems(a + b) == Elems(a) + Elems(b)
  {
    forall x
      ensures x in Elems(a + b) <==> x in Elems(a) || x in Elems(b)
    {
      assert x in a + b <==> x in a || x in b;
    }
  }

  /** No element occurs twice. */
  ghost predicate Distinct<T>(s: seq<T>)
  {
    forall i, j | 0 <= i < j < |s| :: s[i] != s[j]
  }

  lemma DistinctCons<T>(x: T, s: seq<T>)
    ensures Distinct([x] + s) <==> x !in s && Distinct(s)
  {
    var c := [x] + s;
    if x !in s && Distinct(s) {
      forall i, j | 0 <= i < j < |c|
        ensures c[i] != c[j]
      {
        if i > 0 {
          assert c[i] == s[i - 1] && c[j] == s[j - 1];
        } else {
          assert c[j] == s[j - 1];
        }
      }
    }
    if Distinct(c) {
      forall i, j | 0 <= i < j < |s|
        ensures s[i] != s[j]
      {
        assert s[i] == c[i + 1] && s[j] == c[j + 1];
      }
      forall k | 0 <= k < |s|
        ensures s[k] != x
      {
        assert s[k] == c[k + 1] && x == c[0];
      }
    }
  }

  /** Index of the first occurrence of `x` in `s`: the linear scan with
      `break` that the engine writes out by hand wherever it looks for an id. */
  function Find<T(==)>(s: seq<T>, x: T): (r: Option<nat>)
    ensures r.Some? ==> r.value < |s| && s[r.value] == x && x !in s[..r.value]
    ensures r.None? <==> x !in s
  {
    if |s| == 0 then None
    else if s[0] == x then Some(0)
    else match Find(s[1..], x)
      case None => None
      case Some(i) => assert s[1..][..i] == s[1..i + 1]; Some(i + 1)
  }

  /** Position of the first occurrence of an element known to be present. */
  function IndexOf<T(==)>(s: seq<T>, x: T): (i: nat)
    requires x in s
    ensures i < |s| && s[i] == x && x !in s[..i]
  {
    Find(s, x).value
  }

  /** Number of occurrences of `x` in `s`. */
  function Count<T(==)>(s: seq<T>, x: T): nat
  {
    if |s| == 0 then 0 else (if s[0] == x then 1 else 0) + Count(s[1..], x)
  }

  lemma {:induction false} CountAppend<T>(a: seq<T>, b: seq<T>, x: T)
    ensures Count(a + b, x) == Count(a, x) + Count(b, x)
  {
    if |a| == 0 {
      assert a + b == b;
    } else {
      assert (a + b)[1..] == a[1..] + b;
      CountAppend(a[1..], b, x);
    }
  }

  lemma {:induction false} CountPositive<T>(s: seq<T>, x: T)
    ensures Count(s, x) > 0 <==> x in s
  {
    if |s| > 0 {
      CountPositive(s[1..], x);
      assert x in s <==> s[0] == x || x in s[1..];
    }
  }

  /** `acc` followed by the elements of `xs` that are not yet present, in
      order of first occurrence: the `if (!list.contains(x)) list.add(x)` loop. */
  function AppendNew<T(==)>(acc: seq<T>, xs: seq<T>): seq<T>
    decreases |xs|
  {
    if |xs| == 0 then acc
    else AppendNew(if xs[0] in acc then acc else acc + [xs[0]], xs[1..])
  }

  /** The distinct elements of `xs` in order of first occurrence. */
  function Dedup<T(==)>(xs: seq<T>): seq<T>
  {
    AppendNew([], xs)
  }

  /** What `AppendNew` promises: `acc` is kept as a prefix, nothing is
      repeated, exactly the elements of both inputs occur, and the appended
      elements follow the order of their first occurrence in `xs`. */
  lemma {:induction false} AppendNewSpec<T>(acc: seq<T>, xs: seq<T>)
    requires Distinct(acc)
    ensures var r := AppendNew(acc, xs);
      && Distinct(r)
      && |acc| <= |r| && r[..|acc|] == acc
      && (forall x :: x in r <==> x in acc || x in xs)
      && (forall i | |acc| <= i < |r| :: r[i] in xs && r[i] !in acc)
      && (forall i, j | |acc| <= i < j < |r| :: IndexOf(xs, r[i]) < IndexOf(xs, r[j]))
    decreases |xs|
  {
    if |xs| > 0 {
      var acc' := if xs[0] in acc then acc else acc + [xs[0]];
      var rest := xs[1..];
      AppendNewSpec(acc', rest);
      var r := AppendNew(acc', rest);
      assert r == AppendNew(acc, xs);
      assert r[..|acc'|] == acc';
      assert r[..|acc|] == acc by {
        assert acc'[..|acc|] == acc;
      }
      forall x
        ensures x in r <==> x in acc || x in xs
      {
        assert x in xs <==> x == xs[0] || x in rest;
      }
      forall i | |acc| <= i < |r|
        ensures r[i] in xs && r[i] !in acc
      {
        if i < |acc'| {
          assert r[i] == acc'[i];
        } else {
          assert r[i] in rest;
        }
      }
      forall i, j | |acc| <= i < j < |r|
        ensures IndexOf(xs, r[i]) < IndexOf(xs, r[j])
      {
        assert r[j] != xs[0] by {
          if xs[0] in acc {
            assert r[j] !in acc;
          } else {
            assert r[|acc|] == acc'[|acc|] == xs[0];
            assert j != |acc|;
          }
        }
        IndexOfTail(xs, r[j]);
        if r[i] != xs[0] {
          IndexOfTail(xs, r[i]);
          if xs[0] !in acc {
            assert r[|acc|] == acc'[|acc|] == xs[0];
          }
        }
      }
    }
  }

  lemma IndexOfTail<T>(xs: seq<T>, x: T)
    requires |xs| > 0 && x in xs && x != xs[0]
    ensures x in xs[1..] && IndexOf(xs, x) == IndexOf(xs[1..], x) + 1
  {
    var i := IndexOf(xs, x);
    assert i > 0;
    assert xs[1..][..i - 1] == xs[1..i];
    assert xs[1..][i - 1] == x;
    var k := IndexOf(xs[1..], x);
    assert xs[k + 1] == x;
    assert xs[..k + 1] == [xs[0]] + xs[1..][..k];
  }

  /** De-duplicating a concatenation de-duplicates the first part first. */
  lemma {:induction false} AppendNewConcat<T>(acc: seq<T>, xs: seq<T>, ys: seq<T>)
    ensures AppendNew(acc, xs + ys) == AppendNew(AppendNew(acc, xs), ys)
    decreases |xs|
  {
    if |xs| == 0 {
      assert xs + ys == ys;
    } else {
      assert (xs + ys)[0] == xs[0];
      assert (xs + ys)[1..] == xs[1..] + ys;
      AppendNewConcat(if xs[0] in acc then acc else acc + [xs[0]], xs[1..], ys);
    }
  }

  /** A sequence without repetitions has as many elements as its set. */
  lemma {:induction false} DistinctCard<T>(s: seq<T>)
    requires Distinct(s)
    ensures |Elems(s)| == |s|
  {
    if |s| > 0 {
      DistinctCard(s[1..]);
      assert Elems(s) == Elems(s[1..]) + {s[0]};
      assert s[0] !in Elems(s[1..]);
    }
  }

  /** The length promised for `AppendNew`: one new element per distinct
      element of `xs` not already in `acc`. */
  lemma AppendNewLength<T>(acc: seq<T>, xs: seq<T>)
    requires Distinct(acc)
    ensures |AppendNew(acc, xs)| == |acc| + |Elems(xs) - Elems(acc)|
  {
    var r := AppendNew(acc, xs);
    AppendNewSpec(acc, xs);
    DistinctCard(acc);
    DistinctCard(r);
    assert Elems(r) == Elems(acc) + (Elems(xs) - Elems(acc));
    assert Elems(acc) !! (Elems(xs) - Elems(acc));
  }

  /** `xs` with every element dropped that `p` rejects, order kept. */
  function Filter<T>(xs: seq<T>, p: T -> bool): (r: seq<T>)
    ensures |r| <= |xs|
    ensures forall i | 0 <= i < |r| :: r[i] in xs && p(r[i])
    ensures forall i | 0 <= i < |xs| && p(xs[i]) :: xs[i] in r
  {
    if |xs| == 0 then []
    else (if p(xs[0]) then [xs[0]] else []) + Filter(xs[1..], p)
  }

  lemma {:induction false} FilterAppend<T>(a: seq<T>, b: seq<T>, p: T -> bool)
    ensures Filter(a + b, p) == Filter(a, p) + Filter(b, p)
  {
    if |a| == 0 {
      assert a + b == b;
    } else {
      assert (a + b)[1..] == a[1..] + b;
      FilterAppend(a[1..], b, p);
    }
  }

  /** Filtering one more element of a prefix: it is kept exactly when `p`
      holds of it. */
  lemma FilterStep<T>(xs: seq<T>, i: nat, p: T -> bool)
    requires i < |xs|
    ensures Filter(xs[..i + 1], p) == Filter(xs[..i], p) + (if p(xs[i]) then [xs[i]] else [])
  {
    assert xs[..i + 1] == xs[..i] + [xs[i]];
    FilterAppend(xs[..i], [xs[i]], p);
  }

  /** `a` is obtained from `b` by deleting elements. */
  predicate IsSubseq<T(==)>(a: seq<T>, b: seq<T>)
    decreases |b|
  {
    if |a| == 0 then true
    else if |b| == 0 then false
    else if a[0] == b[0] then IsSubseq(a[1..], b[1..])
    else IsSubseq(a, b[1..])
  }

  lemma {:induction false} FilterIsSubseq<T>(xs: seq<T>, p: T -> bool)
    ensures IsSubseq(Filter(xs, p), xs)
  {
    if |xs| > 0 {
      FilterIsSubseq(xs[1..], p);
      var f := Filter(xs[1..], p);
      if p(xs[0]) {
        assert Filter(xs, p)[1..] == f;
      } else if |f| > 0 {
        assert Filter(xs, p) == f;
        assert p(f[0]);
        assert f[0] != xs[0];
      }
    }
  }

  /** The concatenation of a sequence of sequences. */
  function Flatten<T>(ss: seq<seq<T>>): seq<T>
  {
    if |ss| == 0 then [] else ss[0] + Flatten(ss[1..])
  }

  lemma {:induction false} FlattenAppend<T>(a: seq<seq<T>>, b: seq<seq<T>>)
    ensures Flatten(a + b) == Flatten(a) + Flatten(b)
  {
    if |a| == 0 {
      assert a + b == b;
    } else {
      assert (a + b)[1..] == a[1..] + b;
      FlattenAppend(a[1..], b);
    }
  }

  lemma {:induction false} InFlatten<T>(ss: seq<seq<T>>, k: nat, i: nat)
    requires k < |ss| && i < |ss[k]|
    ensures ss[k][i] in Flatten(ss)
  {
    if k > 0 {
      InFlatten(ss[1..], k - 1, i);
    }
  }

  /** Sum of a sequence of reals. */
  function Sum(xs: seq<real>): real
  {
    if |xs| == 0 then 0.0 else xs[0] + Sum(xs[1..])
  }

  lemma {:induction false} SumAppend(a: seq<real>, b: seq<real>)
    ensures Sum(a + b) == Sum(a) + Sum(b)
  {
    if |a| == 0 {
      assert a + b == b;
    } else {
      assert (a + b)[1..] == a[1..] + b;
      SumAppend(a[1..], b);
    }
  }

  /** Replacing one element changes the sum by the difference. */
  lemma {:induction false} SumUpdate(xs: seq<real>, i: nat, x: real)
    requires i < |xs|
    ensures Sum(xs[i := x]) == Sum(xs) - xs[i] + x
  {
    if i > 0 {
      assert xs[i := x][1..] == xs[1..][i - 1 := x];
      SumUpdate(xs[1..], i - 1, x);
    }
  }
}

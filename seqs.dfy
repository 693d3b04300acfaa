/**
 * The array built-ins the pages use: `filter`, and de-duplication through
 * `Array.from(new Set(xs))`, which keeps the first occurrence of each value
 * in insertion order.
 */
module Seqs {

  /** `xs.filter(keep)`. */
  function Filter<T>(xs: seq<T>, keep: T -> bool): (r: seq<T>)
    ensures |r| <= |xs|
    ensures forall i :: 0 <= i < |r| ==> keep(r[i])
  {
    if xs == [] then []
    else (if keep(xs[0]) then [xs[0]] else []) + Filter(xs[1..], keep)
  }

  /** `a` is `b` with some elements left out, the rest in their order. */
  predicate IsSubsequence<T(==)>(a: seq<T>, b: seq<T>)
    decreases |b|
  {
    if a == [] then true
    else if b == [] then false
    else (a[0] == b[0] && IsSubsequence(a[1..], b[1..])) || IsSubsequence(a, b[1..])
  }

  lemma {:induction false} FilterIsSubsequence<T>(xs: seq<T>, keep: T -> bool)
    ensures IsSubsequence(Filter(xs, keep), xs)
  {
    if xs != [] {
      var rest := Filter(xs[1..], keep);
      FilterIsSubsequence(xs[1..], keep);
      if keep(xs[0]) {
        assert Filter(xs, keep) == [xs[0]] + rest;
        assert ([xs[0]] + rest)[1..] == rest;
      } else {
        assert Filter(xs, keep) == rest;
      }
    }
  }

  /** Each value occurs in the result as often as in `xs` when kept, and never otherwise. */
  lemma {:induction false} FilterCounts<T>(xs: seq<T>, keep: T -> bool, x: T)
    ensures multiset(Filter(xs, keep))[x] == if keep(x) then multiset(xs)[x] else 0
  {
    if xs != [] {
      FilterCounts(xs[1..], keep, x);
      assert xs == [xs[0]] + xs[1..];
      assert multiset(xs) == multiset{xs[0]} + multiset(xs[1..]);
    }
  }

  lemma FilterMembership<T>(xs: seq<T>, keep: T -> bool, x: T)
    ensures x in Filter(xs, keep) <==> x in xs && keep(x)
  {
    FilterCounts(xs, keep, x);
    assert x in Filter(xs, keep) <==> multiset(Filter(xs, keep))[x] > 0;
    assert x in xs <==> multiset(xs)[x] > 0;
  }

  /** A filter that keeps everything changes nothing. */
  lemma {:induction false} FilterKeepsAll<T>(xs: seq<T>, keep: T -> bool)
    requires forall i :: 0 <= i < |xs| ==> keep(xs[i])
    ensures Filter(xs, keep) == xs
  {
    if xs != [] {
      FilterKeepsAll(xs[1..], keep);
    }
  }

  predicate NoDuplicates<T(==)>(xs: seq<T>)
  {
    forall i, j :: 0 <= i < j < |xs| ==> xs[i] != xs[j]
  }

  /** The index of the first occurrence of `x` in `xs`. */
  function FirstIndex<T(==)>(xs: seq<T>, x: T): (k: nat)
    requires x in xs
    ensures k < |xs| && xs[k] == x
    ensures forall j :: 0 <= j < k ==> xs[j] != x
  {
    if xs[0] == x then 0 else 1 + FirstIndex(xs[1..], x)
  }

  /** `Array.from(new Set(xs))`. */
  function Distinct<T(==)>(xs: seq<T>): (r: seq<T>)
    ensures forall i :: 0 <= i < |xs| ==> xs[i] in r
    ensures forall i :: 0 <= i < |r| ==> r[i] in xs
    ensures NoDuplicates(r)
  {
    if xs == [] then []
    else
      var d := Distinct(xs[..|xs| - 1]);
      if xs[|xs| - 1] in d then d else d + [xs[|xs| - 1]]
  }

  lemma FirstIndexOfPrefix<T>(xs: seq<T>, n: nat, x: T)
    requires n <= |xs| && x in xs[..n]
    ensures FirstIndex(xs, x) == FirstIndex(xs[..n], x)
  {
    var k := FirstIndex(xs[..n], x);
    var m := FirstIndex(xs, x);
    assert xs[..n][k] == xs[k];
    assert m <= k;
    assert xs[..n][m] == xs[m];
  }

  /** `Distinct` of a non-empty sequence, peeled at its last element. */
  lemma DistinctUnfold<T>(xs: seq<T>)
    requires xs != []
    ensures var d := Distinct(xs[..|xs| - 1]);
      Distinct(xs) == if xs[|xs| - 1] in d then d else d + [xs[|xs| - 1]]
  {
  }

  /** A last element that does not occur earlier is first found at the end. */
  lemma FirstIndexOfNew<T>(xs: seq<T>)
    requires xs != [] && xs[|xs| - 1] !in xs[..|xs| - 1]
    ensures FirstIndex(xs, xs[|xs| - 1]) == |xs| - 1
  {
    var n := |xs| - 1;
    forall j | 0 <= j < n
      ensures xs[j] != xs[n]
    {
      assert xs[..n][j] == xs[j];
    }
  }

  /** One step of the ordering proof: the pair (i, j) of `Distinct(xs)`. */
  lemma DistinctPairOrdered<T>(xs: seq<T>, i: nat, j: nat)
    requires xs != []
    requires i < j < |Distinct(xs)|
    requires var d := Distinct(xs[..|xs| - 1]);
      j < |d| ==> FirstIndex(xs[..|xs| - 1], d[i]) < FirstIndex(xs[..|xs| - 1], d[j])
    ensures FirstIndex(xs, Distinct(xs)[i]) < FirstIndex(xs, Distinct(xs)[j])
  {
    var n := |xs| - 1;
    var init := xs[..n];
    var d := Distinct(init);
    var r := Distinct(xs);
    DistinctUnfold(xs);
    if xs[n] in d {
      assert r == d;
      FirstIndexOfPrefix(xs, n, d[i]);
      FirstIndexOfPrefix(xs, n, d[j]);
    } else {
      assert r == d + [xs[n]];
      assert i < |d|;
      assert r[i] == d[i];
      FirstIndexOfPrefix(xs, n, d[i]);
      if j < |d| {
        assert r[j] == d[j];
        FirstIndexOfPrefix(xs, n, d[j]);
      } else {
        assert r[j] == xs[n];
        FirstIndexOfNew(xs);
      }
    }
  }

  /** The values come out in the order of their first occurrence in `xs`. */
  lemma {:induction false} DistinctInFirstOccurrenceOrder<T>(xs: seq<T>)
    ensures var r := Distinct(xs);
      forall i, j :: 0 <= i < j < |r| ==> FirstIndex(xs, r[i]) < FirstIndex(xs, r[j])
  {
    if xs != [] {
      DistinctInFirstOccurrenceOrder(xs[..|xs| - 1]);
      var r := Distinct(xs);
      forall i, j | 0 <= i < j < |r|
        ensures FirstIndex(xs, r[i]) < FirstIndex(xs, r[j])
      {
        DistinctPairOrdered(xs, i, j);
      }
    }
  }
}

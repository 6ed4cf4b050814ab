/** Index lists: ranges, permutations and picking elements by index. */
module Permutations {

  function Pick<T>(xs: seq<T>, indexes: seq<nat>): (ys: seq<T>)
    requires forall k :: 0 <= k < |indexes| ==> indexes[k] < |xs|
    ensures |ys| == |indexes| && forall k :: 0 <= k < |ys| ==> ys[k] == xs[indexes[k]]
  {
    seq(|indexes|, k requires 0 <= k < |indexes| => xs[indexes[k]])
  }

  lemma FirstDifference<T>(a: seq<T>, b: seq<T>) returns (k: nat)
    requires |a| == |b| && a != b
    ensures k < |a| && a[..k] == b[..k] && a[k] != b[k]
  {
    k := 0;
    while k < |a| && a[k] == b[k]
      invariant k <= |a| && a[..k] == b[..k]
    {
      k := k + 1;
    }
    assert a[..|a|] == a && b[..|b|] == b;
  }

  predicate InRange(indexes: seq<nat>, n: nat) {
    forall k :: 0 <= k < |indexes| ==> indexes[k] < n
  }

  predicate Distinct<T(==)>(xs: seq<T>) {
    forall i, j :: 0 <= i < j < |xs| ==> xs[i] != xs[j]
  }

  predicate IsPermutation(indexes: seq<nat>, n: nat) {
    |indexes| == n && InRange(indexes, n) && Distinct(indexes)
  }

  function Elements<T>(xs: seq<T>): set<T> {
    set x | x in xs
  }

  function UpTo(n: nat): (s: seq<nat>)
    ensures |s| == n && forall k :: 0 <= k < n ==> s[k] == k
  {
    seq(n, k requires 0 <= k < n => k)
  }

  lemma {:induction false} DistinctCount<T>(xs: seq<T>)
    requires Distinct(xs)
    ensures |Elements(xs)| == |xs|
  {
    if xs != [] {
      DistinctCount(xs[1..]);
      assert Elements(xs) == {xs[0]} + Elements(xs[1..]);
      assert xs[0] !in xs[1..];
    }
  }

  /** Distinct indexes below n are at most n many, and n of them leave none out. */
  lemma PermutationCovers(indexes: seq<nat>, n: nat)
    requires InRange(indexes, n) && Distinct(indexes)
    ensures |indexes| <= n
    ensures |indexes| == n ==> forall k: nat :: k < n ==> k in indexes
    ensures |indexes| < n ==> exists k: nat :: k < n && k !in indexes
  {
    var all := Elements(UpTo(n));
    DistinctCount(indexes);
    DistinctCount(UpTo(n));
    assert forall k: nat :: k < n ==> UpTo(n)[k] in all;
    forall x | x in Elements(indexes)
      ensures x in all
    {
      assert UpTo(n)[x] == x;
    }
    CardinalityOfSubset(Elements(indexes), all);
    if |indexes| == n {
      forall k: nat | k < n
        ensures k in indexes
      {
        assert UpTo(n)[k] in all;
        assert k in Elements(indexes);
      }
    } else {
      var k :| k in all && k !in Elements(indexes);
      assert k in UpTo(n) && k !in indexes;
    }
  }

  lemma PositionOf(indexes: seq<nat>, n: nat, x: nat) returns (at: nat)
    requires IsPermutation(indexes, n) && x < n
    ensures at < n && indexes[at] == x
  {
    PermutationCovers(indexes, n);
    assert x in indexes;
    at :| at < n && indexes[at] == x;
  }

  lemma CardinalityOfSubset<T>(a: set<T>, b: set<T>)
    requires a <= b
    ensures |a| <= |b|
    ensures |a| == |b| ==> a == b
    ensures |a| < |b| ==> exists x :: x in b && x !in a
  {
    assert b == a + (b - a);
  }

  function Without<T>(xs: seq<T>, at: nat): (ys: seq<T>)
    requires at < |xs|
    ensures |ys| == |xs| - 1
    ensures forall k :: 0 <= k < |ys| ==> ys[k] == if k < at then xs[k] else xs[k + 1]
  {
    xs[..at] + xs[at + 1..]
  }

  lemma MultisetWithout<T>(xs: seq<T>, at: nat)
    requires at < |xs|
    ensures multiset(xs) == multiset(Without(xs, at)) + multiset{xs[at]}
  {
    assert xs == xs[..at] + [xs[at]] + xs[at + 1..];
  }

  lemma {:induction false} PickIsPermutation<T>(xs: seq<T>, indexes: seq<nat>)
    requires IsPermutation(indexes, |xs|)
    ensures multiset(Pick(xs, indexes)) == multiset(xs)
  {
    if xs == [] {
      assert Pick(xs, indexes) == xs;
    } else {
      var n := |xs| - 1;
      var at := PositionOf(indexes, |xs|, n);
      var others := Without(indexes, at);
      OthersArePermutation(indexes, n, at);
      PickIsPermutation(xs[..n], others);
      assert Pick(xs[..n], others) == Without(Pick(xs, indexes), at);
      MultisetWithout(Pick(xs, indexes), at);
      assert xs == xs[..n] + [xs[n]];
    }
  }

  lemma OthersArePermutation(indexes: seq<nat>, n: nat, at: nat)
    requires IsPermutation(indexes, n + 1) && at <= n && indexes[at] == n
    ensures IsPermutation(Without(indexes, at), n)
  {
    var others := Without(indexes, at);
    forall k | 0 <= k < |others|
      ensures others[k] < n
    {
      assert indexes[if k < at then k else k + 1] != indexes[at];
    }
  }
}

/** The stable topological sort that mounts narrower routes first. */
module Specificity {
  import opened Permutations

  /** Who contains whom, by declaration index. */
  type Table = t: seq<seq<bool>> | Square(t)

  predicate Square(t: seq<seq<bool>>) {
    forall k :: 0 <= k < |t| ==> |t[k]| == |t|
  }

  ghost predicate Preorder(t: Table) {
    && (forall a :: 0 <= a < |t| ==> t[a][a])
    && (forall a, b, c :: 0 <= a < |t| && 0 <= b < |t| && 0 <= c < |t| && t[a][b] && t[b][c] ==> t[a][c])
  }

  /** broad takes every request of narrow, and not the other way round. */
  predicate Strictly(t: Table, broad: nat, narrow: nat)
    requires broad < |t| && narrow < |t|
  {
    t[broad][narrow] && !t[narrow][broad]
  }

  // ---------------------------------------------------------------------
  // The order, as a function of the containment table
  // ---------------------------------------------------------------------

  /** i is not emitted and every strictly narrower route is. */
  predicate Eligible(t: Table, done: seq<nat>, i: nat)
    requires i < |t|
  {
    i !in done && forall n: nat :: n < |t| && Strictly(t, i, n) ==> n in done
  }

  /** The least eligible index from i on, or the number of routes. */
  function NextFrom(t: Table, done: seq<nat>, i: nat): (next: nat)
    requires i <= |t|
    ensures i <= next <= |t|
    ensures next < |t| ==> Eligible(t, done, next)
    ensures forall k: nat :: i <= k < next ==> !Eligible(t, done, k)
    decreases |t| - i
  {
    if i == |t| || Eligible(t, done, i) then i else NextFrom(t, done, i + 1)
  }

  function Next(t: Table, done: seq<nat>): nat {
    NextFrom(t, done, 0)
  }

  /** The indexes below n that are not in done, ascending. */
  function Remaining(done: seq<nat>, n: nat): seq<nat> {
    if n == 0 then [] else Remaining(done, n - 1) + if n - 1 in done then [] else [n - 1]
  }

  function OrderFrom(t: Table, done: seq<nat>): seq<nat>
    decreases |t| - |done|
  {
    if |done| >= |t| then done
    else
      var next := Next(t, done);
      if next == |t| then done + Remaining(done, |t|)
      else OrderFrom(t, done + [next])
  }

  function Order(t: Table): seq<nat> {
    OrderFrom(t, [])
  }

  // ---------------------------------------------------------------------
  // The order exists: strict containment has no cycles
  // ---------------------------------------------------------------------

  function Narrower(t: Table, done: seq<nat>, i: nat): set<nat>
    requires i < |t|
  {
    set n: nat | n < |t| && n !in done && Strictly(t, i, n)
  }

  lemma {:induction false} MinimalBelow(t: Table, done: seq<nat>, i: nat) returns (j: nat)
    requires Preorder(t)
    requires i < |t| && i !in done
    ensures j < |t| && Eligible(t, done, j)
    decreases |Narrower(t, done, i)|
  {
    if Eligible(t, done, i) {
      j := i;
    } else {
      var n: nat :| n < |t| && Strictly(t, i, n) && n !in done;
      forall m | m in Narrower(t, done, n)
        ensures m in Narrower(t, done, i)
      {
      }
      assert n in Narrower(t, done, i) && n !in Narrower(t, done, n);
      CardinalityOfSubset(Narrower(t, done, n), Narrower(t, done, i));
      j := MinimalBelow(t, done, n);
    }
  }

  /** As long as a route is left, one is eligible: the fallback for cycles is dead code. */
  lemma NeverStuck(t: Table, done: seq<nat>)
    requires Preorder(t)
    requires InRange(done, |t|) && Distinct(done) && |done| < |t|
    ensures Next(t, done) < |t|
  {
    PermutationCovers(done, |t|);
    var i: nat :| i < |t| && i !in done;
    var j := MinimalBelow(t, done, i);
  }

  /** Every index is the least eligible one after those before it. */
  ghost predicate Greedy(t: Table, order: seq<nat>) {
    forall k :: 0 <= k < |order| ==> order[k] < |t| && order[k] == Next(t, order[..k])
  }

  lemma {:induction false} OrderFromIsGreedy(t: Table, done: seq<nat>)
    requires Preorder(t)
    requires Greedy(t, done) && |done| <= |t|
    ensures var order := OrderFrom(t, done); Greedy(t, order) && |order| == |t|
    decreases |t| - |done|
  {
    if |done| < |t| {
      GreedyIsDistinct(t, done);
      NeverStuck(t, done);
      var next := Next(t, done);
      var more := done + [next];
      forall k | 0 <= k < |more|
        ensures more[k] == Next(t, more[..k])
      {
        assert more[..k] == done[..k];
      }
      OrderFromIsGreedy(t, more);
    }
  }

  lemma GreedyIsDistinct(t: Table, order: seq<nat>)
    requires Greedy(t, order)
    ensures InRange(order, |t|) && Distinct(order)
  {
    forall i, j | 0 <= i < j < |order|
      ensures order[i] != order[j]
    {
      assert order[i] == order[..j][i];
      assert Eligible(t, order[..j], order[j]);
    }
  }

  // ---------------------------------------------------------------------
  // What the order guarantees
  // ---------------------------------------------------------------------

  /** No route stands before one it strictly contains. */
  predicate Compliant(t: Table, order: seq<nat>)
    requires InRange(order, |t|)
  {
    forall i, j :: 0 <= i < j < |order| ==> !Strictly(t, order[i], order[j])
  }

  /** The order is a permutation in which strictly narrower routes come first. */
  lemma OrderIsLinearExtension(t: Table)
    requires Preorder(t)
    ensures var order := Order(t); IsPermutation(order, |t|) && Compliant(t, order)
  {
    var order := Order(t);
    OrderFromIsGreedy(t, []);
    GreedyIsDistinct(t, order);
    forall i, j | 0 <= i < j < |order|
      ensures !Strictly(t, order[i], order[j])
    {
      assert Eligible(t, order[..i], order[i]);
      assert order[j] !in order[..i];
    }
  }

  /** Of all permutations that respect strict containment the order is the first one,
      comparing declaration indexes from the front. */
  lemma OrderIsLeastExtension(t: Table, other: seq<nat>)
    requires Preorder(t)
    requires IsPermutation(other, |t|) && Compliant(t, other)
    ensures var order := Order(t);
            (other == order
            || exists k :: 0 <= k < |order| == |other| && other[..k] == order[..k] && order[k] < other[k])
  {
    var order := Order(t);
    OrderFromIsGreedy(t, []);
    hide Order, Compliant;
    if other != order {
      var k := FirstDifference(order, other);
      CompliantPrefixIsEligible(t, other, k);
      assert order[k] == Next(t, order[..k]);
      assert order[k] < other[k];
    }
  }

  lemma CompliantPrefixIsEligible(t: Table, other: seq<nat>, k: nat)
    requires IsPermutation(other, |t|) && Compliant(t, other) && k < |other|
    ensures Eligible(t, other[..k], other[k])
  {
    forall n: nat | n < |t| && Strictly(t, other[k], n)
      ensures n in other[..k]
    {
      var at := PositionOf(other, |t|, n);
      assert at != k;
      assert !(k < at);
      assert other[..k][at] == n;
    }
  }

  /** Routes that contain each other keep the order in which they were declared. */
  lemma EquivalentRoutesKeepDeclarationOrder(t: Table, i: nat, j: nat, x: nat, y: nat)
    requires Preorder(t) && i < j < |t| && t[i][j] && t[j][i]
    requires x < |Order(t)| && y < |Order(t)| && Order(t)[x] == i && Order(t)[y] == j
    ensures x < y
  {
    var order := Order(t);
    OrderFromIsGreedy(t, []);
    GreedyIsDistinct(t, order);
    if y < x {
      var done := order[..y];
      assert Eligible(t, done, j);
      forall n: nat | n < |t| && Strictly(t, i, n)
        ensures n in done
      {
      }
      assert Eligible(t, done, i);
    }
  }

  /** A list that already respects strict containment is left as it is. */
  lemma CompliantListIsUnchanged(t: Table)
    requires Preorder(t)
    requires Compliant(t, UpTo(|t|))
    ensures Order(t) == UpTo(|t|)
  {
    var same := UpTo(|t|);
    OrderIsLeastExtension(t, same);
    OrderIsLinearExtension(t);
    var order := Order(t);
    forall k | 0 <= k < |order| && same[..k] == order[..k]
      ensures order[k] >= k
    {
      forall m: nat | m < k
        ensures m in same[..k]
      {
        assert same[..k][m] == m;
      }
      assert order[k] !in order[..k];
    }
  }

  /** The table of the routes at the given indexes. */
  function Reindex(t: Table, indexes: seq<nat>): (u: Table)
    requires InRange(indexes, |t|)
    ensures |u| == |indexes|
    ensures forall a, b :: 0 <= a < |u| && 0 <= b < |u| ==> u[a][b] == t[indexes[a]][indexes[b]]
  {
    seq(|indexes|, a requires 0 <= a < |indexes| =>
      seq(|indexes|, b requires 0 <= b < |indexes| => t[indexes[a]][indexes[b]]))
  }

  /** Sorting a sorted list changes nothing. */
  lemma OrderIsIdempotent(t: Table)
    requires Preorder(t)
    ensures InRange(Order(t), |t|) && Order(Reindex(t, Order(t))) == UpTo(|t|)
  {
    OrderIsLinearExtension(t);
    var sorted := Reindex(t, Order(t));
    assert Compliant(sorted, UpTo(|sorted|));
    CompliantListIsUnchanged(sorted);
  }
}

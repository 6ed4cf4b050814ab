/** Stream scopes: label maps, the two matchers, and the canonical key of a scope. */
module Scopes {
  import opened Wrappers

  type Scope = map<string, string>

  predicate ExactMatch(subscription: Scope, published: Scope) {
    && |subscription| == |published|
    && forall key :: key in subscription ==> Read(published, key) == subscription[key]
  }

  predicate SubsetMatch(subscription: Scope, published: Scope) {
    && |subscription| <= |published|
    && forall key :: key in subscription ==> Read(published, key) == subscription[key]
  }

  predicate LabelsAreNonEmpty(scope: Scope) {
    forall key :: key in scope ==> scope[key] != ""
  }

  lemma SameKeys(a: Scope, b: Scope)
    requires |a| == |b| && a.Keys <= b.Keys
    ensures a.Keys == b.Keys
  {
    assert |b.Keys - a.Keys| == |b.Keys| - |a.Keys|;
  }

  lemma {:induction false} SomeKeyIsFree(keys: set<string>, n: nat)
    requires forall key :: key in keys ==> |key| > n
    ensures exists key :: key !in keys && |key| > n
    decreases keys
  {
    var candidate := seq(n + 1, _ => 'x');
    if candidate in keys {
      var longer := set key | key in keys && |key| > n + 1;
      assert candidate !in longer;
      assert longer < keys;
      SomeKeyIsFree(longer, n + 1);
    }
  }

  /** Exact matching is equality exactly for scopes whose labels are all non-empty: an
      empty label also matches a missing one. */
  lemma ExactMatchIsEquality(subscription: Scope)
    ensures (forall published :: ExactMatch(subscription, published) <==> subscription == published)
       <==> LabelsAreNonEmpty(subscription)
  {
    if LabelsAreNonEmpty(subscription) {
      forall published
        ensures ExactMatch(subscription, published) <==> subscription == published
      {
        if ExactMatch(subscription, published) {
          SameKeys(subscription, published);
        }
      }
    } else {
      var key :| key in subscription && subscription[key] == "";
      var other := ConfusedWith(subscription, key);
    }
  }

  /** For a scope with an empty label, another scope that it matches. */
  lemma ConfusedWith(subscription: Scope, key: string) returns (published: Scope)
    requires key in subscription && subscription[key] == ""
    ensures ExactMatch(subscription, published) && published != subscription && key !in published
  {
    var long := set k | k in subscription && |k| > 0;
    SomeKeyIsFree(long, 0);
    var free :| free !in long && |free| > 0;
    published := (subscription - {key})[free := ""];
    assert (subscription - {key}).Keys == subscription.Keys - {key};
    assert published.Keys == subscription.Keys - {key} + {free};
  }

  predicate HasLabels(published: Scope, labels: Scope) {
    forall key :: key in labels ==> key in published && published[key] == labels[key]
  }

  /** Subset matching means having the labels exactly for subscriptions whose labels are all
      non-empty: it reads a missing label as empty as well. */
  lemma SubsetMatchMeaning(subscription: Scope)
    ensures (forall published :: SubsetMatch(subscription, published) <==> HasLabels(published, subscription))
       <==> LabelsAreNonEmpty(subscription)
  {
    if LabelsAreNonEmpty(subscription) {
      forall published
        ensures SubsetMatch(subscription, published) <==> HasLabels(published, subscription)
      {
        if HasLabels(published, subscription) {
          assert subscription.Keys <= published.Keys;
          assert |published.Keys - subscription.Keys| == |published.Keys| - |subscription.Keys|;
        }
      }
    } else {
      var key :| key in subscription && subscription[key] == "";
      var other := ConfusedWith(subscription, key);
      assert SubsetMatch(subscription, other) && !HasLabels(other, subscription);
    }
  }
}

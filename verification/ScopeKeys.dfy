/** The canonical key under which a stream keeps the bucket of a scope. */
module ScopeKeys {
  import opened Scopes
  import opened StringOrder
  import opened QueryEscaping

  // ---------------------------------------------------------------------
  // The rendered pairs
  // ---------------------------------------------------------------------

  function Pair(key: string, value: string): string
  {
    Escape(key) + "=" + Escape(value)
  }

  /** The pairs in the given order of keys, joined with semicolons. */
  function Render(order: seq<string>, scope: Scope): string
    requires forall key :: key in order ==> key in scope
  {
    if order == [] then ""
    else if |order| == 1 then Pair(order[0], scope[order[0]])
    else Pair(order[0], scope[order[0]]) + ";" + Render(order[1..], scope)
  }

  lemma PairIsInjective(k: string, v: string, l: string, w: string)
    requires Pair(k, v) == Pair(l, w)
    ensures k == l && v == w
  {
    SeparatorCuts(Escape(k), Escape(l), Escape(v), Escape(w), '=');
    EscapeIsInjective(k, l);
    EscapeIsInjective(v, w);
  }

  lemma PairHasNoSemicolon(k: string, v: string)
    ensures ';' !in Pair(k, v) && Pair(k, v) != ""
  {
  }

  lemma {:induction false} RenderIsInjective(a: Scope, b: Scope, orderA: seq<string>, orderB: seq<string>)
    requires forall key :: key in orderA ==> key in a
    requires forall key :: key in orderB ==> key in b
    requires Render(orderA, a) == Render(orderB, b)
    ensures orderA == orderB && forall key :: key in orderA ==> a[key] == b[key]
  {
    hide Pair;
    if orderA != [] {
      PairHasNoSemicolon(orderA[0], a[orderA[0]]);
    }
    if orderB != [] {
      PairHasNoSemicolon(orderB[0], b[orderB[0]]);
    }
    if orderA != [] && orderB != [] {
      var p, q := Pair(orderA[0], a[orderA[0]]), Pair(orderB[0], b[orderB[0]]);
      assert |orderA| > 1 ==> Render(orderA, a)[|p|] == ';';
      assert |orderB| > 1 ==> Render(orderB, b)[|q|] == ';';
      if |orderA| > 1 && |orderB| > 1 {
        SeparatorCuts(p, q, Render(orderA[1..], a), Render(orderB[1..], b), ';');
        RenderIsInjective(a, b, orderA[1..], orderB[1..]);
      }
      PairIsInjective(orderA[0], a[orderA[0]], orderB[0], b[orderB[0]]);
      assert orderA == [orderA[0]] + orderA[1..] && orderB == [orderB[0]] + orderB[1..];
    }
  }

  // ---------------------------------------------------------------------
  // The canonical order
  // ---------------------------------------------------------------------

  ghost predicate Increasing(order: seq<string>) {
    forall i, j :: 0 <= i < j < |order| ==> CompareStrings(order[i], order[j]) < 0
  }

  ghost predicate ListsKeys(order: seq<string>, keys: set<string>) {
    Increasing(order) && forall key :: key in keys <==> key in order
  }

  lemma {:induction false} OrderIsUnique(a: seq<string>, b: seq<string>)
    requires Increasing(a) && Increasing(b) && forall key :: key in a <==> key in b
    ensures a == b
  {
    SomeKey(a);
    SomeKey(b);
    if a != [] && b != [] {
      LeastKeys(a, b);
      var x := a[0];
      var restA, restB := a[1..], b[1..];
      assert a == [x] + restA && b == [x] + restB;
      forall key
        ensures key in restA <==> key in restB
      {
        CompareIsAntisymmetric(x, x);
        assert key in restA <==> key in a && key != x;
        assert key in restB <==> key in b && key != x;
      }
      OrderIsUnique(restA, restB);
    }
  }

  lemma SomeKey(order: seq<string>)
    ensures order != [] ==> exists key :: key in order
  {
    assert order != [] ==> order[0] in order;
  }

  lemma LeastKeys(a: seq<string>, b: seq<string>)
    requires a != [] && b != [] && Increasing(a) && Increasing(b) && forall key :: key in a <==> key in b
    ensures a[0] == b[0]
  {
    assert a[0] in b && b[0] in a;
    var i :| 0 <= i < |b| && b[i] == a[0];
    var j :| 0 <= j < |a| && a[j] == b[0];
    CompareIsAntisymmetric(a[0], b[0]);
  }

  ghost predicate IsCanonicalKey(scope: Scope, key: string) {
    exists order :: ListsKeys(order, scope.Keys) && key == Render(order, scope)
  }

  /** How a key is written: label and value escaped around an equals sign, the labels in
      increasing order with semicolons between them. */
  lemma KeyIsWritten(scope: Scope, key: string, first: string, second: string)
    requires IsCanonicalKey(scope, key)
    ensures scope == map[] ==> key == ""
    ensures scope.Keys == {first} ==> key == Escape(first) + "=" + Escape(scope[first])
    ensures scope.Keys == {first, second} && CompareStrings(first, second) < 0 ==>
      key == Escape(first) + "=" + Escape(scope[first]) + ";" + (Escape(second) + "=" + Escape(scope[second]))
  {
    hide CompareStrings, Escape;
    var order :| ListsKeys(order, scope.Keys) && key == Render(order, scope);
    SomeKey(order);
    if scope.Keys == {first} {
      ListsOne(order, first);
    }
    if scope.Keys == {first, second} && CompareStrings(first, second) < 0 {
      ListsTwo(order, first, second);
      assert order[1..] == [second];
      assert Render([second], scope) == Pair(second, scope[second]);
    }
  }

  lemma ListsOne(order: seq<string>, first: string)
    requires ListsKeys(order, {first})
    ensures order == [first]
  {
    OrderIsUnique(order, [first]);
  }

  lemma ListsTwo(order: seq<string>, first: string, second: string)
    requires ListsKeys(order, {first, second}) && CompareStrings(first, second) < 0
    ensures order == [first, second]
  {
    CompareIsAntisymmetric(first, second);
    CompareIsAntisymmetric(first, first);
    CompareIsAntisymmetric(second, second);
    hide CompareStrings;
    OrderIsUnique(order, [first, second]);
  }

  /** Equal scopes have equal keys and different scopes different ones, so keeping buckets
      by key is keeping them by scope. */
  lemma KeysIdentifyScopes(a: Scope, b: Scope, keyA: string, keyB: string)
    requires IsCanonicalKey(a, keyA) && IsCanonicalKey(b, keyB)
    ensures keyA == keyB <==> a == b
  {
    hide Render, Increasing;
    var orderA :| ListsKeys(orderA, a.Keys) && keyA == Render(orderA, a);
    var orderB :| ListsKeys(orderB, b.Keys) && keyB == Render(orderB, b);
    if keyA == keyB {
      RenderIsInjective(a, b, orderA, orderB);
      assert a.Keys == b.Keys;
    } else if a == b {
      OrderIsUnique(orderA, orderB);
    }
  }

  method InsertKey(order: seq<string>, key: string) returns (inserted: seq<string>)
    requires Increasing(order) && key !in order
    ensures Increasing(inserted) && forall k :: k in inserted <==> k in order || k == key
  {
    var i := 0;
    while i < |order| && CompareStrings(order[i], key) < 0
      invariant i <= |order|
      invariant forall k :: 0 <= k < i ==> CompareStrings(order[k], key) < 0
    {
      i := i + 1;
    }
    InsertIncreases(order, i, key);
    inserted := order[..i] + [key] + order[i..];
  }

  lemma InsertIncreases(order: seq<string>, i: nat, key: string)
    requires Increasing(order) && key !in order && i <= |order|
    requires forall k :: 0 <= k < i ==> CompareStrings(order[k], key) < 0
    requires i < |order| ==> CompareStrings(order[i], key) >= 0
    ensures var inserted := order[..i] + [key] + order[i..];
            Increasing(inserted) && forall k :: k in inserted <==> k in order || k == key
  {
    hide CompareStrings;
    assert order == order[..i] + order[i..];
    forall k | i <= k < |order|
      ensures CompareStrings(key, order[k]) < 0
    {
      LaterKeyIsGreater(order, i, k, key);
    }
  }

  lemma LaterKeyIsGreater(order: seq<string>, i: nat, k: nat, key: string)
    requires Increasing(order) && key !in order && i <= k < |order| && CompareStrings(order[i], key) >= 0
    ensures CompareStrings(key, order[k]) < 0
  {
    hide CompareStrings;
    CompareIsAntisymmetric(key, order[i]);
    assert order[i] in order;
    if i < k {
      CompareIsTransitive(key, order[i], order[k]);
    }
  }

  /** canonicalScopeKey: the keys in whatever order the map yields them, sorted, escaped
      and joined. */
  method CanonicalScopeKey(scope: Scope) returns (key: string)
    ensures IsCanonicalKey(scope, key)
  {
    var order: seq<string> := [];
    var remaining := scope.Keys;
    while remaining != {}
      invariant remaining <= scope.Keys && Increasing(order)
      invariant forall k :: k in order <==> k in scope.Keys && k !in remaining
      decreases |remaining|
    {
      var k :| k in remaining;
      remaining := remaining - {k};
      order := InsertKey(order, k);
    }
    key := "";
    for i := |order| downto 0
      invariant key == Render(order[i..], scope)
    {
      assert order[i..][1..] == order[i + 1..];
      var pair := Escape(order[i]) + "=" + Escape(scope[order[i]]);
      key := if i + 1 == |order| then pair else pair + ";" + key;
    }
    assert order[0..] == order;
    assert ListsKeys(order, scope.Keys);
  }
}
